/**
 * The board of src/board.rs: a 6x6 grid of placed tiles and one position per
 * player, with placement and path following for the player who placed.
 */
module Boards {
  import opened Wrappers
  import opened Tiles
  import TileLaws

  /** Side length of the playing grid. */
  const Size: int := 6

  /**
   * Where a token stands: a cell (one ring of cells outside the grid is
   * allowed, row and column -1 or 6) and the port of that cell it holds.
   */
  datatype Position = Position(row: int, col: int, port: Port)

  datatype BoardError =
    | InvalidStartPosition  // add_player: not a start on the outer ring
    | InvalidLocation       // play_tile: row or column 6 or more
    | NotAdjacent           // play_tile: the cell does not touch the player's cell
    | NotConnected          // play_tile: the cell is not on the side the player's port faces
    | OutOfFuel             // the model's bound on path following ran out

  /** A cell inside the 6x6 grid. */
  predicate OnBoard(row: int, col: int)
  {
    0 <= row < Size && 0 <= col < Size
  }

  /**
   * Position::is_valid_start: the column lies in [-1, 6] and the port sits on
   * the outer edge of the ring cell (bottom row for A and B, left column for
   * C and D, top row for E and F, right column for G and H).
   */
  predicate IsValidStart(p: Position)
  {
    if p.col < -1 || p.col > 6 then false
    else match p.port
      case A | B => p.row == 6
      case C | D => p.col == -1
      case E | F => p.row == -1
      case G | H => p.col == 6
  }

  /** Position::is_valid_direction: the port lies on side `dir`. */
  predicate IsValidDirection(p: Position, dir: Direction)
  {
    FacingSide(p.port) == dir
  }

  /**
   * Position::update: the token enters the tile at (r, c) and moves to the
   * port where that tile's path leads.
   */
  function Updated(p: Position, r: int, c: int, tile: Tile): (q: Position)
    requires IsPerfectMatching(tile.layout)
    ensures q.row == r && q.col == c
    ensures Traverse(tile, p.port) == Some(q.port)
    ensures q.port != Flip(p.port)
  {
    TileLaws.TraverseConsistent(tile, p.port);
    Position(r, c, Traverse(tile, p.port).value)
  }

  /**
   * adjacent_side: the side of (srcRow, srcCol) on which (dstRow, dstCol)
   * lies, or an error when the two cells are not neighbours.
   */
  function AdjacentSide(srcRow: int, srcCol: int, dstRow: int, dstCol: int): (r: Result<Direction, BoardError>)
    ensures r.Ok? <==> (dstRow - srcRow) * (dstRow - srcRow) + (dstCol - srcCol) * (dstCol - srcCol) == 1
    ensures r.Ok? ==> GridOffsets(r.value) == (dstRow - srcRow, dstCol - srcCol)
    ensures r.Err? ==> r.error == NotAdjacent
  {
    match (dstRow - srcRow, dstCol - srcCol)
    case (0, -1) => Ok(West)
    case (0, 1) => Ok(East)
    case (-1, 0) => Ok(North)
    case (1, 0) => Ok(South)
    case _ => Err(NotAdjacent)
  }

  /** The cell a position faces: one step toward the side of its port. */
  function Ahead(p: Position): (int, int)
  {
    (p.row + GridOffsets(FacingSide(p.port)).0, p.col + GridOffsets(FacingSide(p.port)).1)
  }

  /**
   * Every position off the grid whose port faces a grid cell is a start; a
   * start is off the grid, and it faces a grid cell unless it sits at a
   * corner of the ring or, having only its column bounded, beyond it.
   */
  lemma StartsFaceTheBoard(p: Position)
    ensures !OnBoard(p.row, p.col) && OnBoard(Ahead(p).0, Ahead(p).1) ==> IsValidStart(p)
    ensures IsValidStart(p) ==> !OnBoard(p.row, p.col) && -1 <= p.col <= Size
    ensures IsValidStart(p) && (OnBoard(p.row, 0) || OnBoard(0, p.col)) ==> OnBoard(Ahead(p).0, Ahead(p).1)
  {
  }

  /** A direction is valid for a position exactly when a step toward it reaches the cell the position faces. */
  lemma ValidDirectionStepsAhead(p: Position, dir: Direction)
    ensures IsValidDirection(p, dir) <==> (p.row + GridOffsets(dir).0, p.col + GridOffsets(dir).1) == Ahead(p)
  {
  }

  /** adjacent_side undoes the offsets of grid_offsets. */
  lemma AdjacentSideInvertsOffsets(d: Direction, row: int, col: int)
    ensures AdjacentSide(row, col, row + GridOffsets(d).0, col + GridOffsets(d).1) == Ok(d)
  {
  }

  /**
   * The checks of Board::play_tile accept exactly one cell for a player: the
   * neighbour on the side that the player's port faces.
   */
  lemma PlayableCellIsAhead(p: Position, row: int, col: int)
    ensures (AdjacentSide(p.row, p.col, row, col).Ok? &&
             IsValidDirection(p, AdjacentSide(p.row, p.col, row, col).value))
        <==> (row, col) == Ahead(p)
  {
    var d := FacingSide(p.port);
    AdjacentSideInvertsOffsets(d, p.row, p.col);
  }

  /** The position one step past `p`, on the far side of the edge it faces. */
  function StepOff(p: Position): Position
  {
    Position(Ahead(p).0, Ahead(p).1, Flip(p.port))
  }

  /** The grid as values: six rows of six cells. */
  type Grid = seq<seq<Option<Tile>>>

  /** A 6x6 grid whose tiles all pair every port exactly once. */
  predicate WellFormed(g: Grid)
  {
    |g| == Size &&
    (forall r :: 0 <= r < Size ==> |g[r]| == Size) &&
    forall r, c :: 0 <= r < Size && 0 <= c < Size && g[r][c].Some? ==> IsPerfectMatching(g[r][c].value.layout)
  }

  /** How following a path ends. */
  datatype Halt =
    | FellOff(last: Position)   // the cell ahead of `last` is outside the grid
    | Blocked(at: Position)     // the cell ahead of `at` is empty
    | Exhausted(at: Position)   // the fuel ran out while the path went on

  /** The position a halt leaves the player at. */
  function FinalPosition(h: Halt): Position
  {
    match h
    case FellOff(last) => StepOff(last)
    case Blocked(at) => at
    case Exhausted(at) => at
  }

  /**
   * The loop of Board::play_tile, as a function: from `p`, keep entering the
   * tile ahead until the cell ahead is off the grid or empty.  `fuel` bounds
   * the number of further tiles entered.
   */
  function Walk(g: Grid, p: Position, fuel: nat): (h: Halt)
    requires WellFormed(g)
    decreases fuel
    ensures h.FellOff? ==> !OnBoard(Ahead(h.last).0, Ahead(h.last).1)
    ensures h.Blocked? ==> OnBoard(Ahead(h.at).0, Ahead(h.at).1) && g[Ahead(h.at).0][Ahead(h.at).1].None?
  {
    var (r, c) := Ahead(p);
    if !OnBoard(r, c) then FellOff(p)
    else match g[r][c]
      case None => Blocked(p)
      case Some(t) => if fuel == 0 then Exhausted(p) else Walk(g, Updated(p, r, c, t), fuel - 1)
  }

  /** What play_tile reports for a halt: whether the player fell off, or that the fuel ran out. */
  function Outcome(h: Halt): (r: Result<bool, BoardError>)
    ensures r == Ok(true) <==> h.FellOff?
    ensures r == Ok(false) <==> h.Blocked?
    ensures r == Err(OutOfFuel) <==> h.Exhausted?
  {
    match h
    case FellOff(_) => Ok(true)
    case Blocked(_) => Ok(false)
    case Exhausted(_) => Err(OutOfFuel)
  }

  /** One iteration of the walk, case by case. */
  lemma WalkStep(g: Grid, p: Position, fuel: nat)
    requires WellFormed(g)
    ensures var (r, c) := Ahead(p);
      if !OnBoard(r, c) then Walk(g, p, fuel) == FellOff(p)
      else if g[r][c].None? then Walk(g, p, fuel) == Blocked(p)
      else if fuel == 0 then Walk(g, p, fuel) == Exhausted(p)
      else Walk(g, p, fuel) == Walk(g, Updated(p, r, c, g[r][c].value), fuel - 1)
  {
  }

  /** The position a walk halts at, whichever way it halts. */
  function HaltedAt(h: Halt): Position
  {
    match h
    case FellOff(last) => last
    case Blocked(at) => at
    case Exhausted(at) => at
  }

  /** A walk that starts on a placed tile halts on a placed tile. */
  lemma {:induction false} WalkStaysOnTiles(g: Grid, p: Position, fuel: nat)
    requires WellFormed(g)
    requires OnBoard(p.row, p.col) && g[p.row][p.col].Some?
    ensures var q := HaltedAt(Walk(g, p, fuel));
      OnBoard(q.row, q.col) && g[q.row][q.col].Some?
    decreases fuel
  {
    var (r, c) := Ahead(p);
    if OnBoard(r, c) && g[r][c].Some? && fuel > 0 {
      WalkStaysOnTiles(g, Updated(p, r, c, g[r][c].value), fuel - 1);
    }
  }

  /**
   * What the two successful outcomes of a walk from a placed tile mean: the
   * player ends one step past a placed tile and outside the grid, or ends on
   * a placed tile facing an empty cell.
   */
  lemma WalkOutcomes(g: Grid, p: Position, fuel: nat)
    requires WellFormed(g)
    requires OnBoard(p.row, p.col) && g[p.row][p.col].Some?
    ensures var h := Walk(g, p, fuel); var q := FinalPosition(h);
      (h.FellOff? ==> !OnBoard(q.row, q.col) && q == StepOff(h.last) &&
                      OnBoard(h.last.row, h.last.col) && g[h.last.row][h.last.col].Some?) &&
      (h.Blocked? ==> OnBoard(q.row, q.col) && g[q.row][q.col].Some? &&
                      OnBoard(Ahead(q).0, Ahead(q).1) && g[Ahead(q).0][Ahead(q).1].None?)
  {
    WalkStaysOnTiles(g, p, fuel);
  }

  /** The layout of the last catalogue entry: each path joins the two ports of one side. */
  const SideLoops: Layout := Layout(Pair(A, B), Pair(C, D), Pair(E, F), Pair(G, H))

  /**
   * Board::play_tile writes the tile without checking that the cell is
   * empty, so a player can be left standing on a tile another player laid
   * over theirs.  This grid holds SideLoops facing north at (1, 2) and
   * facing east at (1, 1): the board after a player standing at (1, 2) on
   * port H, whose tile was overwritten, plays SideLoops facing east to the
   * west.
   */
  function CutTrailGrid(): (g: Grid)
    ensures WellFormed(g)
    ensures g[1][2] == Some(Tile(SideLoops, North)) && g[1][1] == Some(Tile(SideLoops, East))
  {
    TileLaws.DistinctSlotsArePerfect(SideLoops);
    seq(Size, r => seq(Size, c =>
      if r == 1 && c == 2 then Some(Tile(SideLoops, North))
      else if r == 1 && c == 1 then Some(Tile(SideLoops, East))
      else None))
  }

  /**
   * On that grid the path of board.rs:93-109 never ends: placing the tile
   * moves the player to (1, 1) on port D, and from there the walk runs
   * between the two tiles for ever, so every fuel runs out.
   */
  lemma {:induction false} CutTrailLoops(fuel: nat)
    ensures IsPerfectMatching(SideLoops)
    ensures Updated(Position(1, 2, H), 1, 1, Tile(SideLoops, East)) == Position(1, 1, D)
    ensures Walk(CutTrailGrid(), Position(1, 1, D), fuel).Exhausted?
    ensures Walk(CutTrailGrid(), Position(1, 2, H), fuel).Exhausted?
  {
    var g := CutTrailGrid();
    WalkStep(g, Position(1, 1, D), fuel);
    WalkStep(g, Position(1, 2, H), fuel);
    if fuel > 0 {
      CutTrailLoops(fuel - 1);
      assert Updated(Position(1, 1, D), 1, 2, Tile(SideLoops, North)) == Position(1, 2, H);
    }
  }

  /** The contents of a 6x6 array as six rows of six cells. */
  ghost function Snapshot(a: array2<Option<Tile>>): (g: Grid)
    reads a
    requires a.Length0 == Size && a.Length1 == Size
    ensures |g| == Size && forall r :: 0 <= r < Size ==> |g[r]| == Size
    ensures forall r, c :: 0 <= r < Size && 0 <= c < Size ==> g[r][c] == a[r, c]
  {
    seq(Size, r requires 0 <= r < Size reads a => seq(Size, c requires 0 <= c < Size reads a => a[r, c]))
  }

  class Board {
    var grid: array2<Option<Tile>>
    var players: seq<Position>

    /** The grid is 6x6 and every tile on it is a perfect matching. */
    ghost predicate Valid()
      reads this`grid, grid
    {
      grid.Length0 == Size && grid.Length1 == Size &&
      forall r, c :: 0 <= r < Size && 0 <= c < Size && grid[r, c].Some? ==> IsPerfectMatching(grid[r, c].value.layout)
    }

    /** The contents of the grid as a value. */
    ghost function Cells(): (g: Grid)
      reads this`grid, grid
      requires Valid()
      ensures WellFormed(g)
      ensures forall r, c :: 0 <= r < Size && 0 <= c < Size ==> g[r][c] == grid[r, c]
    {
      Snapshot(grid)
    }

    /** Board::new: an empty grid and no players. */
    constructor ()
      ensures Valid() && fresh(grid)
      ensures players == []
      ensures forall r, c :: 0 <= r < Size && 0 <= c < Size ==> grid[r, c].None?
    {
      grid := new Option<Tile>[Size, Size]((r, c) => None);
      players := [];
    }

    /**
     * Board::add_player: an invalid start is refused and nothing changes;
     * a valid one is appended and its index returned.
     */
    method AddPlayer(pos: Position) returns (r: Result<nat, BoardError>)
      modifies this`players
      ensures r.Err? <==> !IsValidStart(pos)
      ensures r.Err? ==> r.error == InvalidStartPosition && players == old(players)
      ensures r.Ok? ==> players == old(players) + [pos] && r.value == |old(players)|
    {
      if !IsValidStart(pos) {
        return Err(InvalidStartPosition);
      }
      players := players + [pos];
      return Ok(|players| - 1);
    }

    /**
     * Board::play_tile: checks the target cell, places the tile and moves the
     * player who placed it until the path reaches an empty cell (Ok(false)) or
     * leaves the grid (Ok(true)).  `fuel` bounds the tiles entered after the
     * placed one; running out reports OutOfFuel.
     */
    method PlayTile(playerIdx: nat, tile: Tile, row: nat, col: nat, fuel: nat) returns (r: Result<bool, BoardError>)
      requires Valid()
      requires playerIdx < |players|
      requires IsPerfectMatching(tile.layout)
      modifies this`players, grid
      ensures Valid()
      ensures |players| == |old(players)|
      ensures r == Err(InvalidLocation) <==> row >= Size || col >= Size
      ensures var p := old(players)[playerIdx];
        r == Err(NotAdjacent) <==> row < Size && col < Size && AdjacentSide(p.row, p.col, row, col).Err?
      ensures var p := old(players)[playerIdx];
        r == Err(NotConnected) <==> row < Size && col < Size && AdjacentSide(p.row, p.col, row, col).Ok? &&
                                     !IsValidDirection(p, AdjacentSide(p.row, p.col, row, col).value)
      ensures r != Err(InvalidStartPosition)
      ensures r.Err? && r.error != OutOfFuel ==> players == old(players) && unchanged(grid)
      ensures r.Ok? || r == Err(OutOfFuel) ==>
        grid[row, col] == Some(tile) &&
        (forall i, j :: 0 <= i < Size && 0 <= j < Size && (i, j) != (row, col) ==> grid[i, j] == old(grid[i, j])) &&
        (forall k :: 0 <= k < |players| && k != playerIdx ==> players[k] == old(players)[k]) &&
        var h := Walk(Cells(), Updated(old(players)[playerIdx], row, col, tile), fuel);
        players[playerIdx] == FinalPosition(h) &&
        (r == Ok(true) <==> h.FellOff?) &&
        (r == Ok(false) <==> h.Blocked?)
    {
      var pos := players[playerIdx];
      if row >= Size || col >= Size {
        return Err(InvalidLocation);
      }
      var side := AdjacentSide(pos.row, pos.col, row, col);
      if side.Err? {
        return Err(side.error);
      }
      if !IsValidDirection(pos, side.value) {
        return Err(NotConnected);
      }
      r := Place(playerIdx, tile, row, col, fuel);
    }

    /**
     * The placement step of Board::play_tile and the walk after it: the
     * player enters the new tile, the tile is written to its cell, whatever
     * the cell held, and the player follows the path from there.
     */
    method Place(playerIdx: nat, tile: Tile, row: nat, col: nat, fuel: nat) returns (r: Result<bool, BoardError>)
      requires Valid()
      requires playerIdx < |players| && row < Size && col < Size
      requires IsPerfectMatching(tile.layout)
      modifies this`players, grid
      ensures Valid()
      ensures grid[row, col] == Some(tile)
      ensures forall i, j :: 0 <= i < Size && 0 <= j < Size && (i, j) != (row, col) ==> grid[i, j] == old(grid[i, j])
      ensures var h := Walk(Cells(), Updated(old(players)[playerIdx], row, col, tile), fuel);
        players == old(players)[playerIdx := FinalPosition(h)] && r == Outcome(h)
    {
      LayTile(playerIdx, tile, row, col);
      r := Follow(playerIdx, fuel);
    }

    /** The placement step alone: the player enters the new tile, which is written to its cell. */
    method LayTile(playerIdx: nat, tile: Tile, row: nat, col: nat)
      requires Valid()
      requires playerIdx < |players| && row < Size && col < Size
      requires IsPerfectMatching(tile.layout)
      modifies this`players, grid
      ensures Valid()
      ensures players == old(players)[playerIdx := Updated(old(players)[playerIdx], row, col, tile)]
      ensures grid[row, col] == Some(tile)
      ensures forall i, j :: 0 <= i < Size && 0 <= j < Size && (i, j) != (row, col) ==> grid[i, j] == old(grid[i, j])
    {
      players := players[playerIdx := Updated(players[playerIdx], row, col, tile)];
      grid[row, col] := Some(tile);
    }

    /**
     * The path-following loop of Board::play_tile: the player stands on a
     * placed tile and moves on while the cell ahead holds a tile.
     */
    method Follow(playerIdx: nat, fuel: nat) returns (r: Result<bool, BoardError>)
      requires Valid()
      requires playerIdx < |players|
      modifies this`players
      ensures var h := Walk(Cells(), old(players)[playerIdx], fuel);
        players == old(players)[playerIdx := FinalPosition(h)] && r == Outcome(h)
    {
      var pos := players[playerIdx];
      ghost var g: Grid := Cells();
      ghost var start := pos;
      var steps := fuel;
      while true
        invariant players == old(players)[playerIdx := pos]
        invariant Walk(g, pos, steps) == Walk(g, start, fuel)
        decreases steps
      {
        var (r', c') := Ahead(pos);
        WalkStep(g, pos, steps);
        if !OnBoard(r', c') {
          pos := Position(r', c', Flip(pos.port));
          players := players[playerIdx := pos];
          return Ok(true);
        }
        assert g[r'][c'] == grid[r', c'];
        match grid[r', c']
        case None =>
          return Ok(false);
        case Some(t) =>
          if steps == 0 {
            return Err(OutOfFuel);
          }
          pos := Updated(pos, r', c', t);
          players := players[playerIdx := pos];
          steps := steps - 1;
      }
    }
  }

  /** The unit tests of board.rs: a valid start on the top edge and a valid direction. */
  lemma BoardUnitTests()
    ensures IsValidStart(Position(-1, 2, E))
    ensures IsValidDirection(Position(5, 2, C), East)
    ensures !IsValidStart(Position(-1, 7, E))
  {
  }

  /**
   * Board::play_tile on the cut trail of CutTrailLoops: the player stands at
   * (1, 2) on port H over a tile laid by another player and plays SideLoops
   * facing east at (1, 1); the placement is accepted and the path never ends.
   */
  method CutTrailPlay(fuel: nat) returns (r: Result<bool, BoardError>)
    ensures r == Err(OutOfFuel)
  {
    CutTrailLoops(fuel);
    var b := CutTrailBoard();
    assert AdjacentSide(1, 2, 1, 1) == Ok(West) && IsValidDirection(Position(1, 2, H), West);
    r := b.PlayTile(0, Tile(SideLoops, East), 1, 1, fuel);
    assert r.Ok? || r == Err(OutOfFuel);
    CellsAreCutTrail(b);
    ghost var h := Walk(b.Cells(), Updated(Position(1, 2, H), 1, 1, Tile(SideLoops, East)), fuel);
    assert h.Exhausted?;
    assert r != Ok(true) && r != Ok(false);
    OkIsTrueOrFalse(r);
  }

  /**
   * A proof step of CutTrailPlay, not a property of the game: an `Ok`
   * result holds `true` or `false`, which the verifier does not see through
   * the generic `Result` on its own.
   */
  lemma OkIsTrueOrFalse(r: Result<bool, BoardError>)
    ensures r.Ok? ==> r == Ok(true) || r == Ok(false)
  {
    if r.Ok? {
      var v: bool := r.value;
      assert r == Ok(v);
    }
  }

  /** The board of CutTrailPlay before the play: one tile at (1, 2), one player on its port H. */
  method CutTrailBoard() returns (b: Board)
    ensures fresh(b) && fresh(b.grid) && b.Valid()
    ensures b.players == [Position(1, 2, H)]
    ensures forall i, j :: 0 <= i < Size && 0 <= j < Size && (i, j) != (1, 1) ==> b.grid[i, j] == CutTrailGrid()[i][j]
  {
    TileLaws.DistinctSlotsArePerfect(SideLoops);
    b := new Board();
    b.grid[1, 2] := Some(Tile(SideLoops, North));
    b.players := [Position(1, 2, H)];
  }

  /**
   * A proof step of CutTrailPlay, not a property of the game: a board whose
   * every cell holds what CutTrailGrid holds there has CutTrailGrid as its
   * contents (extensionality of the grid's value).
   */
  lemma CellsAreCutTrail(b: Board)
    requires b.Valid()
    requires forall i, j :: 0 <= i < Size && 0 <= j < Size ==> b.grid[i, j] == CutTrailGrid()[i][j]
    ensures b.Cells() == CutTrailGrid()
  {
    var c, g := b.Cells(), CutTrailGrid();
    forall i | 0 <= i < Size
      ensures c[i] == g[i]
    {
      assert forall j :: 0 <= j < Size ==> c[i][j] == g[i][j];
    }
  }

  /** The adding-players test of board.rs: the first valid start gets index 0. */
  method AddPlayersExample()
  {
    var b := new Board();
    assert |b.players| == 0;
    var r := b.AddPlayer(Position(1, -1, D));
    assert r == Ok(0);
    assert |b.players| == 1 && b.players[0].port == D;
  }
}
