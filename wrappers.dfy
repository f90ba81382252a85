/** Failure-carrying results shared by every module of the model. */
module Wrappers {

  /** An optional value: `None` stands for Rust's `None`, for an absent entry, or for a panic. */
  datatype Option<+T> = None | Some(value: T)

  /** A value or a tagged error, in place of Rust's `Result<T, String>`. */
  datatype Result<+T, +E> = Ok(value: T) | Err(error: E)
}
