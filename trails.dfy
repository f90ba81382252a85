/**
 * The board as src/game.rs, src/lobby.rs and src/agent.rs use it: a grid of
 * tiles placed with a facing, and one trail of positions per player whose
 * last entry says whether the player is still alive.  The file defining it
 * is not part of this model; the operations here are defined from their uses.
 */
module Trails {
  import opened Wrappers
  import opened Tiles
  import TileLaws
  import Boards

  /** A position of this board revision: a port of a cell, and whether its player lives. */
  datatype Position = Position(row: int, col: int, port: Port, alive: bool)

  /** A grid cell: empty, or a tile together with the direction it was placed facing. */
  type Cell = Option<(Tile, Direction)>

  type Grid = seq<seq<Cell>>

  /** The board: the grid and, per player, the positions it has passed through. */
  datatype TrailBoard = TrailBoard(grid: Grid, trails: seq<seq<Position>>)

  /** A 6x6 grid whose tiles all pair every port exactly once. */
  predicate WellFormed(g: Grid)
  {
    |g| == Boards.Size &&
    (forall r :: 0 <= r < Boards.Size ==> |g[r]| == Boards.Size) &&
    forall r, c :: 0 <= r < Boards.Size && 0 <= c < Boards.Size && g[r][c].Some? ==>
      IsPerfectMatching(g[r][c].value.0.layout)
  }

  /** Board::default: an empty grid and no trails. */
  function EmptyBoard(): (b: TrailBoard)
    ensures WellFormed(b.grid) && b.trails == []
    ensures forall r, c :: 0 <= r < Boards.Size && 0 <= c < Boards.Size ==> b.grid[r][c].None?
  {
    TrailBoard(seq(Boards.Size, r => seq(Boards.Size, c => None)), [])
  }

  /** A start on the outer ring, by the rule of Position::is_valid_start. */
  predicate IsValidStart(p: Position)
  {
    Boards.IsValidStart(Boards.Position(p.row, p.col, p.port))
  }

  /**
   * Board::add_player of this revision: a valid start opens a new trail and
   * its index is returned; an invalid one is refused.
   */
  function AddPlayer(b: TrailBoard, start: Position): (r: Result<(TrailBoard, nat), Boards.BoardError>)
    ensures r.Err? <==> !IsValidStart(start)
    ensures r.Ok? ==> r.value.0.grid == b.grid && r.value.0.trails == b.trails + [[start]] && r.value.1 == |b.trails|
  {
    if IsValidStart(start) then Ok((b.(trails := b.trails + [[start]]), |b.trails|)) else Err(Boards.InvalidStartPosition)
  }

  /** The current position of player `i`: the last entry of its trail. */
  function Head(b: TrailBoard, i: nat): Position
    requires i < |b.trails| && |b.trails[i]| > 0
  {
    b.trails[i][|b.trails[i]| - 1]
  }

  /**
   * `b'` only extends `b`: the grid stays well formed, no trail is added or
   * removed, and every trail keeps its old entries as a prefix.
   */
  predicate Extends(b: TrailBoard, b': TrailBoard)
  {
    (WellFormed(b.grid) ==> WellFormed(b'.grid)) &&
    |b'.trails| == |b.trails| &&
    forall i :: 0 <= i < |b.trails| ==> |b.trails[i]| <= |b'.trails[i]| && b'.trails[i][..|b.trails[i]|] == b.trails[i]
  }

  /**
   * Board::get_tile: None when the position is off the grid, Some(None) on
   * an empty cell and Some(Some((tile, facing))) on a placed tile.
   */
  function GetTile(g: Grid, p: Position): (r: Option<Cell>)
    requires WellFormed(g)
    ensures r.None? <==> !Boards.OnBoard(p.row, p.col)
    ensures r.Some? ==> r.value == g[p.row][p.col]
  {
    if Boards.OnBoard(p.row, p.col) then Some(g[p.row][p.col]) else None
  }

  /**
   * Position::next_tile_position: the neighbouring cell on the side the
   * port faces, entered through the matching port on its side.
   */
  function NextTilePosition(p: Position): (q: Position)
    ensures q.port == Flip(p.port) && q.alive == p.alive
  {
    var (dr, dc) := GridOffsets(FacingSide(p.port));
    Position(p.row + dr, p.col + dc, Flip(p.port), p.alive)
  }

  /**
   * The next tile position is the neighbour on the side the port faces, and
   * the new port lies on the opposite side of its cell.
   */
  lemma NextTilePositionIsAdjacent(p: Position)
    ensures var q := NextTilePosition(p);
      Boards.AdjacentSide(p.row, p.col, q.row, q.col) == Ok(FacingSide(p.port)) &&
      FacingSide(q.port) == Opposite(FacingSide(p.port))
  {
    Boards.AdjacentSideInvertsOffsets(FacingSide(p.port), p.row, p.col);
    TileLaws.FlipInvolution(p.port);
  }

  /**
   * The two-argument Tile::traverse(port, facing): the tile placed facing
   * `dir`, entered at `port` itself (no flip), gives the port where the path
   * leaves it.
   */
  function TraverseFacing(t: Tile, port: Port, dir: Direction): (r: Option<Port>)
    ensures IsPerfectMatching(t.layout) ==> r.Some? && r.value != port
  {
    var r := Traverse(Tile(t.layout, dir), Flip(port));
    assert IsPerfectMatching(t.layout) ==> r.Some? && r.value != port by {
      if IsPerfectMatching(t.layout) {
        TileLaws.TraverseConsistent(Tile(t.layout, dir), Flip(port));
        TileLaws.FlipInvolution(port);
      }
    }
    r
  }

  /** Entering a tile at the port where a path left it leads back to where it came in. */
  lemma TraverseFacingReverses(t: Tile, port: Port, dir: Direction)
    requires IsPerfectMatching(t.layout)
    ensures TraverseFacing(t, TraverseFacing(t, port, dir).value, dir) == Some(port)
  {
    var t' := Tile(t.layout, dir);
    TileLaws.TraverseConsistent(t', Flip(port));
    TileLaws.FlipInvolution(port);
  }

  /** Stepping to the next tile and straight back restores the position. */
  lemma NextTilePositionReturns(p: Position)
    ensures NextTilePosition(NextTilePosition(p)) == p
  {
    TileLaws.FlipInvolution(p.port);
  }
}
