/**
 * apply_permutation of src/lobby.rs: an in-place gather that follows the
 * cycles of a permutation and marks visited slots in the permutation itself
 * by toggling the top bit of a 64-bit index.
 */
module Permutations {

  /** The top bit of a usize, isize::min_value() as usize. */
  const Mark: nat := 0x8000_0000_0000_0000

  /** toggle_mark_idx: exclusive or with the top bit, on 64-bit values. */
  function ToggleMark(idx: nat): (r: nat)
    requires idx < 2 * Mark
    ensures r < 2 * Mark
    ensures IsMarked(r) <==> !IsMarked(idx)
  {
    if idx >= Mark then idx - Mark else idx + Mark
  }

  /** idx_is_marked: the top bit is set. */
  predicate IsMarked(idx: nat)
  {
    idx >= Mark
  }

  /**
   * On 64-bit values the exclusive or with the top bit subtracts it from a
   * marked index and adds it to an unmarked one, and flips the mark.
   */
  lemma ToggleMarkIsXor(x: bv64)
    ensures x ^ 0x8000_0000_0000_0000 ==
      if x & 0x8000_0000_0000_0000 != 0 then x - 0x8000_0000_0000_0000 else x + 0x8000_0000_0000_0000
    ensures (x ^ 0x8000_0000_0000_0000) & 0x8000_0000_0000_0000 != 0 <==> x & 0x8000_0000_0000_0000 == 0
  {
  }

  /** Toggling twice restores the index. */
  lemma ToggleMarkInvolution(idx: nat)
    requires idx < 2 * Mark
    ensures ToggleMark(ToggleMark(idx)) == idx
  {
  }

  /** `p` lists each of 0 .. |p|-1 exactly once. */
  predicate IsPermutation(p: seq<nat>)
  {
    (forall k :: 0 <= k < |p| ==> p[k] < |p|) &&
    (forall k, l :: 0 <= k < l < |p| ==> p[k] != p[l])
  }

  /** The gather `s` through `p`: position k receives s[p[k]]. */
  function Gather<T>(s: seq<T>, p: seq<nat>): (r: seq<T>)
    requires forall k :: 0 <= k < |p| ==> p[k] < |s|
    ensures |r| == |p|
    ensures forall k :: 0 <= k < |p| ==> r[k] == s[p[k]]
  {
    seq(|p|, k requires 0 <= k < |p| => s[p[k]])
  }

  /**
   * The state between cycles, on the contents `ix` of the index array and
   * `sl` of the slice, with `todo` the slots not yet marked: every slot holds
   * its index, with the mark exactly when it is done; a done slot already
   * holds its gathered value and a slot to do its old value; all slots
   * before `i` are done; and a slot whose target is done is done (cycles are
   * done whole).
   */
  ghost predicate Between<T>(ix: seq<nat>, sl: seq<T>, p: seq<nat>, s: seq<T>, i: int, todo: set<nat>)
  {
    var n := |ix|;
    |sl| == n && |p| == n && |s| == n && n < Mark && IsPermutation(p) && 0 <= i <= n &&
    (forall x :: x in todo ==> x < n) &&
    (forall x {:trigger ix[x]} :: 0 <= x < n ==> ix[x] == if x in todo then p[x] else p[x] + Mark) &&
    (forall x {:trigger sl[x]} :: 0 <= x < n && x !in todo ==> sl[x] == s[p[x]]) &&
    (forall x {:trigger sl[x]} :: x in todo ==> sl[x] == s[x]) &&
    (forall x :: 0 <= x < i ==> x !in todo) &&
    (forall x {:trigger p[x]} :: 0 <= x < n && p[x] !in todo ==> x !in todo)
  }

  /**
   * The state inside the cycle through `i`, with `j` the slot reached and
   * `prev` the slot before it: `j` is still to do and holds the value that
   * started at `i`; the other slots are as between cycles, except that the
   * slot pointing back at `i` may still be to do.
   */
  ghost predicate Within<T>(ix: seq<nat>, sl: seq<T>, p: seq<nat>, s: seq<T>, i: nat, j: nat, prev: nat, todo: set<nat>)
  {
    var n := |ix|;
    |sl| == n && |p| == n && |s| == n && n < Mark && IsPermutation(p) && i < n &&
    j < n && j in todo && prev < n &&
    (forall x :: x in todo ==> x < n) &&
    (forall x {:trigger ix[x]} :: 0 <= x < n ==> ix[x] == if x in todo then p[x] else p[x] + Mark) &&
    (forall x {:trigger sl[x]} :: 0 <= x < n && x !in todo ==> sl[x] == s[p[x]]) &&
    (forall x {:trigger sl[x]} :: x in todo && x != j ==> sl[x] == s[x]) &&
    sl[j] == s[i] &&
    (forall x :: 0 <= x < i ==> x !in todo) &&
    (j != i ==> i !in todo && prev !in todo && p[prev] == j) &&
    (forall x {:trigger p[x]} :: 0 <= x < n && p[x] !in todo ==> x !in todo || p[x] == i)
  }

  /** Entering the cycle through an unmarked slot `i`. */
  lemma CycleStart<T>(ix: seq<nat>, sl: seq<T>, p: seq<nat>, s: seq<T>, i: nat, todo: set<nat>)
    requires Between(ix, sl, p, s, i, todo) && i < |ix| && i in todo
    ensures Within(ix, sl, p, s, i, i, i, todo)
  {
  }

  /**
   * One step along the cycle: mark `j` with its target, swap the carried
   * value on to the target, and move to it.
   */
  lemma CycleStep<T>(ix: seq<nat>, sl: seq<T>, p: seq<nat>, s: seq<T>, i: nat, j: nat, prev: nat, todo: set<nat>)
    requires Within(ix, sl, p, s, i, j, prev, todo) && p[j] != i
    ensures p[j] < |sl|
    ensures Within(ix[j := p[j] + Mark], sl[j := sl[p[j]]][p[j] := sl[j]], p, s, i, p[j], j, todo - {j})
  {
    assert p[j] != j by {
      if j != i {
        assert p[prev] == j && prev != j;
      }
    }
    assert p[j] in todo;
    ClosedAfterStep(p, todo, i, j, prev);
  }

  /** Closing the cycle: `j` points back at `i`; marking it ends the pass. */
  lemma CycleEnd<T>(ix: seq<nat>, sl: seq<T>, p: seq<nat>, s: seq<T>, i: nat, j: nat, prev: nat, todo: set<nat>)
    requires Within(ix, sl, p, s, i, j, prev, todo) && p[j] == i
    ensures Between(ix[j := p[j] + Mark], sl, p, s, i + 1, todo - {j})
  {
    ClosedAtEnd(p, todo, i, j, prev);
  }

  /**
   * Marking `j`, the slot the cycle through `i` has reached, keeps every slot
   * whose target is done either done or pointing back at `i`.
   */
  lemma ClosedAfterStep(p: seq<nat>, todo: set<nat>, i: nat, j: nat, prev: nat)
    requires IsPermutation(p) && j < |p| && prev < |p|
    requires forall x {:trigger p[x]} :: 0 <= x < |p| && p[x] !in todo ==> x !in todo || p[x] == i
    requires j != i ==> p[prev] == j && prev !in todo
    ensures forall x {:trigger p[x]} :: 0 <= x < |p| && p[x] !in todo - {j} ==> x !in todo - {j} || p[x] == i
  {
    forall x | 0 <= x < |p| && p[x] !in todo - {j}
      ensures x !in todo - {j} || p[x] == i
    {
      if p[x] == j && j != i {
        assert p[prev] == p[x];
      }
    }
  }

  /**
   * Marking the last slot `j` of the cycle through `i` (the one whose target
   * is `i`) closes the cycle: every slot whose target is done is done.
   */
  lemma ClosedAtEnd(p: seq<nat>, todo: set<nat>, i: nat, j: nat, prev: nat)
    requires IsPermutation(p) && j < |p| && prev < |p| && p[j] == i
    requires forall x {:trigger p[x]} :: 0 <= x < |p| && p[x] !in todo ==> x !in todo || p[x] == i
    requires j != i ==> p[prev] == j && prev !in todo
    ensures forall x {:trigger p[x]} :: 0 <= x < |p| && p[x] !in todo - {j} ==> x !in todo - {j}
  {
    ClosedAfterStep(p, todo, i, j, prev);
    forall x | 0 <= x < |p| && p[x] !in todo - {j}
      ensures x !in todo - {j}
    {
      if p[x] == i {
        assert p[x] == p[j];
      }
    }
  }

  /**
   * One pass of the outer loop of apply_permutation on an unmarked slot `i`:
   * walk the cycle through `i`, swapping each slot's value into place and
   * marking it, until the cycle returns to `i`.
   */
  method MarkCycle<T>(indices: array<nat>, slice: array<T>, i: nat, ghost p: seq<nat>, ghost s: seq<T>, ghost todo: set<nat>)
    returns (ghost todo': set<nat>)
    requires indices as object != slice as object
    requires Between(indices[..], slice[..], p, s, i, todo) && i < indices.Length && i in todo
    modifies indices, slice
    ensures Between(indices[..], slice[..], p, s, i + 1, todo')
  {
    var j := i;
    var jIdx := indices[i];
    ghost var prev := i;
    todo' := todo;
    CycleStart(indices[..], slice[..], p, s, i, todo);
    while jIdx != i
      invariant Within(indices[..], slice[..], p, s, i, j, prev, todo') && jIdx == p[j]
      decreases todo'
    {
      CycleStep(indices[..], slice[..], p, s, i, j, prev, todo');
      indices[j] := ToggleMark(jIdx);
      slice[j], slice[jIdx] := slice[jIdx], slice[j];
      todo' := todo' - {j};
      prev := j;
      j := jIdx;
      jIdx := indices[j];
    }
    CycleEnd(indices[..], slice[..], p, s, i, j, prev, todo');
    indices[j] := ToggleMark(jIdx);
    todo' := todo' - {j};
  }

  /** A marked slot reached by the outer loop is done: its cycle was walked. */
  lemma MarkedIsDone<T>(ix: seq<nat>, sl: seq<T>, p: seq<nat>, s: seq<T>, i: nat, todo: set<nat>)
    requires Between(ix, sl, p, s, i, todo) && i < |ix| && IsMarked(ix[i])
    ensures Between(ix, sl, p, s, i + 1, todo)
  {
    assert i !in todo;
  }

  /** After the outer loop every slot is done: the slice is gathered and every index marked. */
  lemma AllDone<T>(ix: seq<nat>, sl: seq<T>, p: seq<nat>, s: seq<T>, todo: set<nat>)
    requires Between(ix, sl, p, s, |ix|, todo)
    ensures sl == Gather(s, p)
    ensures |p| == |ix| && forall x :: 0 <= x < |ix| ==> p[x] < Mark && ix[x] == p[x] + Mark
  {
    assert forall x :: 0 <= x < |ix| ==> x !in todo;
  }

  /** The slots 0 .. n-1. */
  function Below(n: nat): (r: set<nat>)
    ensures forall x: nat :: x in r <==> x < n
  {
    if n == 0 then {} else Below(n - 1) + {n - 1}
  }

  /**
   * apply_permutation: afterwards slice[k] is the old slice[indices[k]] for
   * every k, and indices holds the permutation it held before.
   */
  method ApplyPermutation<T>(indices: array<nat>, slice: array<T>)
    requires slice.Length == indices.Length
    requires indices.Length < Mark
    requires IsPermutation(indices[..])
    requires indices as object != slice as object
    modifies indices, slice
    ensures indices[..] == old(indices[..])
    ensures slice[..] == Gather(old(slice[..]), old(indices[..]))
  {
    ghost var p := indices[..];
    ghost var s := slice[..];
    var n := indices.Length;
    ghost var todo := Below(n);
    for i := 0 to n
      invariant Between(indices[..], slice[..], p, s, i, todo)
    {
      if !IsMarked(indices[i]) {
        todo := MarkCycle(indices, slice, i, p, s, todo);
      } else {
        MarkedIsDone(indices[..], slice[..], p, s, i, todo);
      }
    }
    AllDone(indices[..], slice[..], p, s, todo);
    Unmark(indices, p);
  }

  /** The closing loop of apply_permutation: clear the mark of every slot. */
  method Unmark(indices: array<nat>, ghost p: seq<nat>)
    requires |p| == indices.Length
    requires forall x :: 0 <= x < indices.Length ==> p[x] < Mark && indices[x] == p[x] + Mark
    modifies indices
    ensures indices[..] == p
  {
    for k := 0 to indices.Length
      invariant forall x :: 0 <= x < k ==> indices[x] == p[x]
      invariant forall x :: k <= x < indices.Length ==> indices[x] == p[x] + Mark
    {
      indices[k] := ToggleMark(indices[k]);
    }
  }
}
