/**
 * Ports, directions and path tiles (src/tiles.rs).
 *
 * A tile has eight ports, two on each side, labelled clockwise from the top
 * left: A B on the north side, C D east, E F south, G H west.  Its layout pairs
 * the ports up; its facing says how it was turned when it was placed.
 */
module Tiles {
  import opened Wrappers

  datatype Direction = North | West | South | East

  /** Direction::turn_left: North, West, South, East, North, ... */
  function TurnLeft(d: Direction): Direction
  {
    match d
    case North => West
    case West => South
    case South => East
    case East => North
  }

  /** The side opposite to `d`: two left turns. */
  function Opposite(d: Direction): Direction
  {
    TurnLeft(TurnLeft(d))
  }

  /** Direction::grid_offsets: the (row, column) step toward that side. */
  function GridOffsets(d: Direction): (o: (int, int))
    ensures o.0 * o.0 + o.1 * o.1 == 1
    ensures d == North || d == South <==> o.1 == 0
  {
    match d
    case North => (-1, 0)
    case West => (0, -1)
    case South => (1, 0)
    case East => (0, 1)
  }

  datatype Port = A | B | C | D | E | F | G | H

  /**
   * The first of the two ports of its side, going clockwise round the tile.
   * A port is fixed by its side and by this.
   */
  predicate Leading(p: Port)
  {
    p == A || p == C || p == E || p == G
  }

  /** Port::turn_left: each port moves a quarter turn clockwise round the tile. */
  function TurnPortLeft(p: Port): Port
  {
    match p
    case A => C
    case B => D
    case C => E
    case D => F
    case E => G
    case F => H
    case G => A
    case H => B
  }

  /** Port::turn_right: each port moves a quarter turn counter-clockwise. */
  function TurnPortRight(p: Port): Port
  {
    match p
    case A => G
    case B => H
    case C => A
    case D => B
    case E => C
    case F => D
    case G => E
    case H => F
  }

  /** Port::flip: the same point on the shared edge, seen from the neighbouring cell. */
  function Flip(p: Port): Port
  {
    match p
    case A => F
    case B => E
    case C => H
    case D => G
    case E => B
    case F => A
    case G => D
    case H => C
  }

  /** Port::facing_side: the side of the cell the port lies on. */
  function FacingSide(p: Port): Direction
  {
    match p
    case A | B => North
    case C | D => East
    case E | F => South
    case G | H => West
  }

  /** Two ports joined by a path drawn on the tile. */
  datatype Pair = Pair(first: Port, second: Port)

  /** The fixed array of four port pairs of a tile. */
  datatype Layout = Layout(p0: Pair, p1: Pair, p2: Pair, p3: Pair)

  /** The layout in array order, as traverse iterates over it. */
  function Pairs(l: Layout): seq<Pair>
  {
    [l.p0, l.p1, l.p2, l.p3]
  }

  datatype Tile = Tile(layout: Layout, facing: Direction)

  /** How many of the slots of `ps` hold `p`. */
  function Occurrences(ps: seq<Pair>, p: Port): nat
  {
    if ps == [] then 0
    else (if ps[0].first == p then 1 else 0) + (if ps[0].second == p then 1 else 0) + Occurrences(ps[1..], p)
  }

  /** The layout pairs every port with exactly one other port. */
  predicate IsPerfectMatching(l: Layout)
  {
    forall p: Port :: Occurrences(Pairs(l), p) == 1
  }

  /** Tile::rotate_left: a copy of the tile whose facing has turned left. */
  function RotateLeft(t: Tile): Tile
  {
    t.(facing := TurnLeft(t.facing))
  }

  /** Tile::normalize_port: a port of the placed tile in the tile's own (north-facing) frame. */
  function NormalizePort(t: Tile, p: Port): Port
  {
    match t.facing
    case North => p
    case South => Flip(p)
    case East => TurnPortLeft(p)
    case West => TurnPortRight(p)
  }

  /** Tile::unnormalize_port: a port of the tile's own frame as placed on the board. */
  function UnnormalizePort(t: Tile, p: Port): Port
  {
    match t.facing
    case North => p
    case South => Flip(p)
    case East => TurnPortRight(p)
    case West => TurnPortLeft(p)
  }

  /**
   * The scan of Tile::traverse over the layout: the partner of `start` in the
   * first pair that holds it, or None where the source panics.
   */
  function Partner(ps: seq<Pair>, start: Port): (r: Option<Port>)
    ensures r.Some? <==> Occurrences(ps, start) > 0
    ensures r.Some? ==> Occurrences(ps, r.value) > 0
  {
    if ps == [] then None
    else if start == ps[0].first then Some(ps[0].second)
    else if start == ps[0].second then Some(ps[0].first)
    else Partner(ps[1..], start)
  }

  /**
   * Tile::traverse: `from` is the port the token holds in the cell it leaves;
   * the result is the port of this tile where the path comes out.  None is the
   * panic of the source, reached only when the layout misses the entry port.
   */
  function Traverse(t: Tile, from: Port): (r: Option<Port>)
    ensures r.Some? <==> Occurrences(Pairs(t.layout), NormalizePort(t, Flip(from))) > 0
  {
    match Partner(Pairs(t.layout), NormalizePort(t, Flip(from)))
    case Some(q) => Some(UnnormalizePort(t, q))
    case None => None
  }

  /** all_tiles as written: the catalogue in its source order. */
  function AllTilesAsWritten(): (r: seq<Tile>)
    ensures |r| == 35
  {
    [
      Tile(Layout(Pair(A, E), Pair(B, F), Pair(C, H), Pair(D, G)), North),
      Tile(Layout(Pair(A, E), Pair(B, F), Pair(C, G), Pair(D, H)), North),
      Tile(Layout(Pair(A, F), Pair(B, E), Pair(C, H), Pair(D, G)), North),
      Tile(Layout(Pair(A, E), Pair(B, D), Pair(C, G), Pair(F, H)), North),
      Tile(Layout(Pair(A, H), Pair(B, C), Pair(D, H), Pair(F, G)), North),
      Tile(Layout(Pair(A, E), Pair(B, C), Pair(D, H), Pair(F, G)), North),
      Tile(Layout(Pair(A, E), Pair(B, C), Pair(D, G), Pair(F, H)), North),
      Tile(Layout(Pair(A, D), Pair(B, G), Pair(C, F), Pair(E, H)), North),
      Tile(Layout(Pair(A, D), Pair(B, F), Pair(C, G), Pair(E, H)), North),
      Tile(Layout(Pair(A, D), Pair(B, E), Pair(C, H), Pair(F, G)), North),
      Tile(Layout(Pair(A, D), Pair(B, E), Pair(C, G), Pair(F, H)), North),
      Tile(Layout(Pair(A, D), Pair(B, C), Pair(E, H), Pair(F, G)), North),
      Tile(Layout(Pair(A, C), Pair(B, H), Pair(D, F), Pair(E, G)), North),
      Tile(Layout(Pair(A, C), Pair(B, H), Pair(D, E), Pair(F, G)), North),
      Tile(Layout(Pair(A, C), Pair(B, G), Pair(D, F), Pair(E, H)), North),
      Tile(Layout(Pair(A, C), Pair(B, G), Pair(D, E), Pair(F, H)), North),
      Tile(Layout(Pair(A, C), Pair(B, F), Pair(D, H), Pair(E, G)), North),
      Tile(Layout(Pair(A, C), Pair(B, F), Pair(D, G), Pair(E, H)), North),
      Tile(Layout(Pair(A, C), Pair(B, E), Pair(D, H), Pair(F, G)), North),
      Tile(Layout(Pair(A, C), Pair(B, E), Pair(D, G), Pair(F, H)), North),
      Tile(Layout(Pair(A, C), Pair(B, D), Pair(E, H), Pair(F, G)), North),
      Tile(Layout(Pair(A, C), Pair(B, D), Pair(E, G), Pair(F, H)), North),
      Tile(Layout(Pair(A, B), Pair(C, H), Pair(D, G), Pair(E, F)), North),
      Tile(Layout(Pair(A, B), Pair(C, H), Pair(D, F), Pair(E, G)), North),
      Tile(Layout(Pair(A, B), Pair(C, H), Pair(D, E), Pair(F, G)), North),
      Tile(Layout(Pair(A, B), Pair(C, G), Pair(D, H), Pair(E, F)), North),
      Tile(Layout(Pair(A, B), Pair(C, G), Pair(D, F), Pair(E, H)), North),
      Tile(Layout(Pair(A, B), Pair(C, G), Pair(D, E), Pair(F, H)), North),
      Tile(Layout(Pair(A, B), Pair(C, F), Pair(D, H), Pair(E, G)), North),
      Tile(Layout(Pair(A, B), Pair(C, F), Pair(D, G), Pair(E, H)), North),
      Tile(Layout(Pair(A, B), Pair(C, E), Pair(D, H), Pair(F, G)), North),
      Tile(Layout(Pair(A, B), Pair(C, E), Pair(D, G), Pair(F, H)), North),
      Tile(Layout(Pair(A, B), Pair(C, D), Pair(E, H), Pair(F, G)), North),
      Tile(Layout(Pair(A, B), Pair(C, D), Pair(E, G), Pair(F, H)), North),
      Tile(Layout(Pair(A, B), Pair(C, D), Pair(E, F), Pair(G, H)), North)
    ]
  }

  /** The fifth catalogue entry with its second H read as E: the one matching the list lacks. */
  const FifthTile: Tile := Tile(Layout(Pair(A, H), Pair(B, C), Pair(D, E), Pair(F, G)), North)

  /**
   * The catalogue the rest of the model deals from: all_tiles with the
   * fifth entry corrected and every other entry as written.
   */
  function AllTiles(): (r: seq<Tile>)
    ensures |r| == |AllTilesAsWritten()| == 35
  {
    AllTilesAsWritten()[4 := FifthTile]
  }
}
