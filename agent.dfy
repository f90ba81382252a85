/**
 * The agent of src/agent.rs that only avoids sudden death: it simulates
 * playing each hand tile in each direction, without touching the board, and
 * picks the first placement after which the mover is still alive.
 *
 * follow_path has no termination measure of its own; every walk here carries
 * a step budget `fuel`, and running out of it is a distinct outcome (None).
 */
module Agent {
  import opened Wrappers
  import opened Tiles
  import opened Trails
  import Boards
  import TileLaws

  /** Direction::all, in the order the search tries the facings. */
  const AllDirections: seq<Direction> := [North, West, South, East]

  /** The place of a direction in Direction::all. */
  function DirectionIndex(d: Direction): (k: nat)
    ensures k < |AllDirections| && AllDirections[k] == d
  {
    match d
    case North => 0
    case West => 1
    case South => 2
    case East => 3
  }

  /**
   * Where a path that ends at `q` stopped: off the board it is dead; on the
   * board it keeps the walker's liveness and sits on an empty cell other
   * than the cell `(tileRow, tileCol)` of the simulated tile.
   */
  predicate StopsAt(g: Grid, tileRow: int, tileCol: int, alive: bool, q: Position)
    requires WellFormed(g)
  {
    if Boards.OnBoard(q.row, q.col) then
      q.alive == alive && g[q.row][q.col].None? && !(q.row == tileRow && q.col == tileCol)
    else
      !q.alive
  }

  /** One iteration of a path-following loop: it ends at a position or goes on from one. */
  datatype Move = Stop(at: Position) | Continue(from: Position)

  /**
   * One iteration of the loop of follow_path, with the tile `played`
   * imagined at `(tileRow, tileCol)` facing `dir`: step to the next cell;
   * off the board, die; on the imagined cell, traverse the played tile
   * again; on another empty cell, stop; on a placed tile, traverse it.
   */
  function Advance(g: Grid, played: Tile, dir: Direction, tileRow: int, tileCol: int, pos: Position): (m: Move)
    requires WellFormed(g) && IsPerfectMatching(played.layout)
    ensures m.Stop? ==> StopsAt(g, tileRow, tileCol, pos.alive, m.at)
    ensures m.Continue? ==> m.from.alive == pos.alive
  {
    var p := NextTilePosition(pos);
    match GetTile(g, p)
    case None => Stop(p.(alive := false))
    case Some(None) =>
      if p.row == tileRow && p.col == tileCol then
        Continue(p.(port := TraverseFacing(played, p.port, dir).value))
      else
        Stop(p)
    case Some(Some(placed)) =>
      Continue(p.(port := TraverseFacing(placed.0, p.port, placed.1).value))
  }

  /**
   * The loop of follow_path from `pos`; None when `fuel` iterations do not
   * reach an end.
   */
  function Walk(g: Grid, played: Tile, dir: Direction, tileRow: int, tileCol: int,
                pos: Position, fuel: nat): (r: Option<Position>)
    requires WellFormed(g) && IsPerfectMatching(played.layout)
    ensures r.Some? ==> StopsAt(g, tileRow, tileCol, pos.alive, r.value)
    decreases fuel
  {
    if fuel == 0 then None
    else
      match Advance(g, played, dir, tileRow, tileCol, pos)
      case Stop(q) => Some(q)
      case Continue(q) => Walk(g, played, dir, tileRow, tileCol, q, fuel - 1)
  }

  /** Unfolding the walk at an iteration that goes on. */
  lemma WalkContinues(g: Grid, played: Tile, dir: Direction, tileRow: int, tileCol: int, pos: Position, fuel: nat)
    requires WellFormed(g) && IsPerfectMatching(played.layout)
    requires Advance(g, played, dir, tileRow, tileCol, pos).Continue?
    ensures Walk(g, played, dir, tileRow, tileCol, pos, fuel + 1) ==
            Walk(g, played, dir, tileRow, tileCol, Advance(g, played, dir, tileRow, tileCol, pos).from, fuel)
  {
  }

  /**
   * follow_path: step from `start` into the cell where the tile would go,
   * cross the played tile, then walk on.
   */
  function Simulate(g: Grid, start: Position, played: Tile, dir: Direction, fuel: nat): (r: Option<Position>)
    requires WellFormed(g) && IsPerfectMatching(played.layout)
    ensures r.Some? ==> StopsAt(g, NextTilePosition(start).row, NextTilePosition(start).col, start.alive, r.value)
  {
    var p := NextTilePosition(start);
    Walk(g, played, dir, p.row, p.col, p.(port := TraverseFacing(played, p.port, dir).value), fuel)
  }

  /**
   * follow_path as the source writes it: a loop that updates one local
   * position.  It has no modifies clause: the board is only read.
   */
  method FollowPath(g: Grid, start: Position, played: Tile, dir: Direction, fuel: nat) returns (r: Option<Position>)
    requires WellFormed(g) && IsPerfectMatching(played.layout)
    ensures r == Simulate(g, start, played, dir, fuel)
  {
    var pos := NextTilePosition(start);
    var tileRow, tileCol := pos.row, pos.col;
    pos := pos.(port := TraverseFacing(played, pos.port, dir).value);
    var n := fuel;
    while n > 0
      invariant Walk(g, played, dir, tileRow, tileCol, pos, n) == Simulate(g, start, played, dir, fuel)
      decreases n
    {
      ghost var before := pos;
      ghost var m := Advance(g, played, dir, tileRow, tileCol, pos);
      pos := NextTilePosition(pos);
      n := n - 1;
      var cell := GetTile(g, pos);
      if cell.None? {
        pos := pos.(alive := false);
        assert m == Stop(pos);
        return Some(pos);
      } else if cell.value.None? {
        if pos.row == tileRow && pos.col == tileCol {
          pos := pos.(port := TraverseFacing(played, pos.port, dir).value);
          assert m == Continue(pos);
          WalkContinues(g, played, dir, tileRow, tileCol, before, n);
        } else {
          assert m == Stop(pos);
          return Some(pos);
        }
      } else {
        var placed := cell.value.value;
        pos := pos.(port := TraverseFacing(placed.0, pos.port, placed.1).value);
        assert m == Continue(pos);
        WalkContinues(g, played, dir, tileRow, tileCol, before, n);
      }
    }
    return None;
  }

  /** The grid with `cell` written at `(row, col)`. */
  function Place(g: Grid, row: int, col: int, cell: Cell): (g': Grid)
    requires WellFormed(g) && Boards.OnBoard(row, col)
    requires cell.Some? ==> IsPerfectMatching(cell.value.0.layout)
    ensures WellFormed(g') && g'[row][col] == cell
    ensures forall r, c :: 0 <= r < Boards.Size && 0 <= c < Boards.Size && !(r == row && c == col) ==> g'[r][c] == g[r][c]
  {
    g[row := g[row][col := cell]]
  }

  /**
   * One step on a real board: step to the next cell; off the board, die; on
   * an empty cell, stop; on a placed tile, traverse it.
   */
  function Follow(g: Grid, pos: Position): Move
    requires WellFormed(g)
  {
    var p := NextTilePosition(pos);
    match GetTile(g, p)
    case None => Stop(p.(alive := false))
    case Some(None) => Stop(p)
    case Some(Some(placed)) => Continue(p.(port := TraverseFacing(placed.0, p.port, placed.1).value))
  }

  /**
   * The reference walk on a real board: from `pos`, follow placed tiles
   * until the path leaves the board (dead) or reaches an empty cell.
   */
  function Trace(g: Grid, pos: Position, fuel: nat): Option<Position>
    requires WellFormed(g)
    decreases fuel
  {
    if fuel == 0 then None
    else
      match Follow(g, pos)
      case Stop(q) => Some(q)
      case Continue(q) => Trace(g, q, fuel - 1)
  }

  /** An iteration with the imagined tile is a step on the grid where it is placed. */
  lemma AdvanceIsFollowOfPlacement(g: Grid, played: Tile, dir: Direction, tileRow: int, tileCol: int, pos: Position)
    requires WellFormed(g) && IsPerfectMatching(played.layout)
    requires Boards.OnBoard(tileRow, tileCol) && g[tileRow][tileCol].None?
    ensures Advance(g, played, dir, tileRow, tileCol, pos) == Follow(Place(g, tileRow, tileCol, Some((played, dir))), pos)
  {
    var g' := Place(g, tileRow, tileCol, Some((played, dir)));
    var p := NextTilePosition(pos);
    if Boards.OnBoard(p.row, p.col) && !(p.row == tileRow && p.col == tileCol) {
      assert g'[p.row][p.col] == g[p.row][p.col];
    }
  }

  /** Walking with the imagined tile is walking the grid where it is placed. */
  lemma {:induction false} WalkIsTraceOfPlacement(g: Grid, played: Tile, dir: Direction, tileRow: int, tileCol: int,
                                                  pos: Position, fuel: nat)
    requires WellFormed(g) && IsPerfectMatching(played.layout)
    requires Boards.OnBoard(tileRow, tileCol) && g[tileRow][tileCol].None?
    ensures Walk(g, played, dir, tileRow, tileCol, pos, fuel) ==
            Trace(Place(g, tileRow, tileCol, Some((played, dir))), pos, fuel)
    decreases fuel
  {
    if fuel > 0 {
      var g' := Place(g, tileRow, tileCol, Some((played, dir)));
      AdvanceIsFollowOfPlacement(g, played, dir, tileRow, tileCol, pos);
      var m := Advance(g, played, dir, tileRow, tileCol, pos);
      assert Follow(g', pos) == m;
      if m.Continue? {
        WalkIsTraceOfPlacement(g, played, dir, tileRow, tileCol, m.from, fuel - 1);
        WalkContinues(g, played, dir, tileRow, tileCol, pos, fuel - 1);
        assert Trace(g', pos, fuel) == Trace(g', m.from, fuel - 1);
      } else {
        assert Walk(g, played, dir, tileRow, tileCol, pos, fuel) == Some(m.at);
        assert Trace(g', pos, fuel) == Some(m.at);
      }
    }
  }

  /**
   * follow_path is a simulation of one placement: when the cell in front of
   * the mover is empty, its result is the walk Trace on the grid with the
   * tile placed there (one more step for crossing the played tile).
   */
  lemma SimulateIsPlacement(g: Grid, start: Position, played: Tile, dir: Direction, fuel: nat)
    requires WellFormed(g) && IsPerfectMatching(played.layout)
    requires var p := NextTilePosition(start); Boards.OnBoard(p.row, p.col) && g[p.row][p.col].None?
    ensures var p := NextTilePosition(start);
      Simulate(g, start, played, dir, fuel) == Trace(Place(g, p.row, p.col, Some((played, dir))), start, fuel + 1)
  {
    var p := NextTilePosition(start);
    WalkIsTraceOfPlacement(g, played, dir, p.row, p.col, p.(port := TraverseFacing(played, p.port, dir).value), fuel);
  }

  /** Playing hand tile `i` facing `d` leaves the mover alive within the budget. */
  predicate Safe(g: Grid, pos: Position, hand: seq<Tile>, i: nat, d: Direction, fuel: nat)
  {
    WellFormed(g) && i < |hand| && IsPerfectMatching(hand[i].layout) &&
    var r := Simulate(g, pos, hand[i], d, fuel);
    r.Some? && r.value.alive
  }

  /**
   * The inner loop of choose_action for hand tile `i`: the first direction
   * of Direction::all in which the tile leaves the mover alive, if any.
   */
  method FirstSafeDirection(g: Grid, pos: Position, hand: seq<Tile>, i: nat, fuel: nat) returns (found: bool, d: Direction)
    requires WellFormed(g) && i < |hand| && IsPerfectMatching(hand[i].layout)
    ensures found ==> Safe(g, pos, hand, i, d, fuel)
    ensures found ==> forall e :: DirectionIndex(e) < DirectionIndex(d) ==> !Safe(g, pos, hand, i, e, fuel)
    ensures !found ==> forall e :: !Safe(g, pos, hand, i, e, fuel)
  {
    for k := 0 to |AllDirections|
      invariant forall e :: DirectionIndex(e) < k ==> !Safe(g, pos, hand, i, e, fuel)
    {
      var end := FollowPath(g, pos, hand[i], AllDirections[k], fuel);
      if end.Some? && end.value.alive {
        return true, AllDirections[k];
      }
    }
    return false, North;
  }

  /**
   * choose_action: the first hand tile, and within it the first direction
   * of Direction::all, whose simulated end is alive; (0, North) when none is.
   * The mover's position and hand are the current player's of the game.
   */
  method ChooseAction(g: Grid, pos: Position, hand: seq<Tile>, fuel: nat) returns (i: nat, d: Direction)
    requires WellFormed(g) && forall k :: 0 <= k < |hand| ==> IsPerfectMatching(hand[k].layout)
    requires |hand| > 0
    ensures i < |hand|
    ensures Safe(g, pos, hand, i, d, fuel) ==>
      forall j, e :: 0 <= j < |hand| && (j < i || (j == i && DirectionIndex(e) < DirectionIndex(d))) ==>
        !Safe(g, pos, hand, j, e, fuel)
    ensures !Safe(g, pos, hand, i, d, fuel) ==>
      i == 0 && d == North && forall j, e :: 0 <= j < |hand| ==> !Safe(g, pos, hand, j, e, fuel)
  {
    for t := 0 to |hand|
      invariant forall j, e :: 0 <= j < t ==> !Safe(g, pos, hand, j, e, fuel)
    {
      var found, dir := FirstSafeDirection(g, pos, hand, t, fuel);
      if found {
        return t, dir;
      }
    }
    return 0, North;
  }

  /**
   * The source's example: on an empty board, from (6, 0, A), tile 27 of the
   * catalogue placed facing North sends the mover off the west edge at
   * (5, -1, C), dead.
   */
  lemma FollowPathExample()
    ensures IsPerfectMatching(AllTiles()[27].layout)
    ensures Simulate(EmptyBoard().grid, Position(6, 0, A, true), AllTiles()[27], North, 1) ==
            Some(Position(5, -1, C, false))
  {
    var t := Tile(Layout(Pair(A, B), Pair(C, G), Pair(D, E), Pair(F, H)), North);
    assert AllTiles()[27] == t;
    TileLaws.AllTilesPerfect(27);
    var g := EmptyBoard().grid;
    assert NextTilePosition(Position(6, 0, A, true)) == Position(5, 0, F, true);
    assert TraverseFacing(t, F, North) == Some(H);
    var q := Position(5, 0, H, true);
    assert NextTilePosition(q) == Position(5, -1, C, true);
    assert Advance(g, t, North, 5, 0, q) == Stop(Position(5, -1, C, false));
    assert Walk(g, t, North, 5, 0, q, 1) == Some(Position(5, -1, C, false));
  }
}
