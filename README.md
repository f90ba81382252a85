# strecke: a verified model of the tile game core

strecke is a Tsuro-style board game for the web, written in Rust. Players sit
on the edge of a 6 x 6 board. Each square tile carries four paths that join its
eight ports in pairs. On their turn, a player places a tile from their hand on
the cell in front of their marker, turned to a chosen facing. That player's
marker then follows the paths until it stops before an empty cell or runs off
the edge; in `src/board.rs` no other marker moves. A marker that runs off the
edge is out of the game.

This project models that core in Dafny and proves properties of the model:

- **`Tiles`** (`tiles.dfy`, from `src/tiles.rs`)
  - the four directions and the eight ports, with their quarter turns and their flip to the neighbouring cell;
  - the tile, its rotation, and the normalisation of a port to the tile's north-facing layout;
  - `traverse`: through a tile from one port to the port its path leads to;
  - the catalogue of 35 tiles.
- **`TileLaws`** (`tile_laws.dfy`): the algebra of ports and tiles, and the check of the catalogue, one tile at a time.
- **`Boards`** (`board.dfy`): the board of `src/board.rs`.
  - `Board` is a class whose 6 x 6 grid is an `array2` and whose player list is a field.
  - `play_tile` validates a move, places the tile and follows the marker's path in place.
  - The path-following loop is proved equal to a recursive reference walk.
- **`Trails`** (`trails.dfy`): the board interface that `src/game.rs` and `src/agent.rs` call.
  - Each marker has a trail of positions, and a position knows whether it is alive.
  - A grid cell holds a tile together with its facing.
  - `get_tile`, `next_tile_position`, and a traverse that takes the facing as an argument.
- **`Permutations`** (`permutation.dfy`): `apply_permutation` of `src/lobby.rs`.
  - It reorders an array in place by a permutation of indices.
  - Visited indices are marked by toggling their top bit, and the marks are cleared at the end.
- **`Lobbies`** (`lobby.dfy`): the lobby of `src/lobby.rs`.
  - Seats are numbered round the edge of the board.
  - The ready players and the pregame checks.
  - The sort of the seats that `prepare_for_game` performs.
- **`Game`** (`game.dfy`): `GameManager` of `src/game.rs`.
  - Registration, and a turn: play from hand, eliminate the dead, refill hands, pass the turn.
  - The manager is a class. Each of its methods is proved equal to a pure function on a `GameState` value.
  - Invariants and tile conservation are proved about those functions.
- **`Agent`** (`agent.dfy`): the AI of `src/agent.rs`.
  - `follow_path` imagines a tile played and walks the path it would open.
  - `choose_action` picks the first tile and facing that does not kill the player.
  - The imagined walk is proved equal to a walk on the board with the tile really placed.

I/O, randomness and the other board revision are parameters of the model or are
left out, as listed below.

## Model

| member | source | states |
|---|---|---|
| Tiles.GridOffsets | src/tiles.rs:18-25 | each direction moves one cell; north and south change only the row |
| Tiles.TurnLeft | src/tiles.rs:10-17 | North, West, South, East, North; its laws are TileLaws.TurnLeftCycle and TileLaws.TurnsRotateOffsets |
| Tiles.Opposite | src/tiles.rs:10-17 | two left turns; TileLaws.TurnsRotateOffsets shows it reverses the step |
| Tiles.TurnPortLeft | src/tiles.rs:53-64 | a quarter turn of a port; TileLaws.PortMovesBySide and TileLaws.PortTurnsInverse state its laws |
| Tiles.TurnPortRight | src/tiles.rs:65-76 | the other quarter turn; TileLaws.PortMovesBySide and TileLaws.PortTurnsInverse state its laws |
| Tiles.Flip | src/tiles.rs:77-88 | the same edge point seen from the neighbouring cell; TileLaws.PortMovesBySide and TileLaws.FlipInvolution state its laws |
| Tiles.FacingSide | src/tiles.rs:89-96 | the side a port lies on; with its order on the side it determines the port (TileLaws.PortBySideAndOrder) |
| Tiles.RotateLeft | src/tiles.rs:106-109 | the tile with its facing turned left; TileLaws.RotateLeftFacingOnly states its laws |
| Tiles.NormalizePort | src/tiles.rs:110-117 | a port in the tile's north-facing frame; TileLaws.NormalizeBySide and TileLaws.NormalizeRoundTrip state its laws |
| Tiles.UnnormalizePort | src/tiles.rs:118-125 | the inverse of NormalizePort, by TileLaws.NormalizeRoundTrip |
| Tiles.AllTilesAsWritten | src/tiles.rs:139-457 | the catalogue in source order, 35 entries |
| Tiles.AllTiles | src/tiles.rs:139-457 | the catalogue with the fifth entry corrected, 35 entries; TileLaws.AllTilesCorrectsFifth and TileLaws.AllTilesPerfect state the rest |
| Tiles.Partner | src/tiles.rs:128-134 | a port has a partner in a list of pairs exactly when it occurs in one, and the partner occurs too |
| Tiles.Traverse | src/tiles.rs:126-136 | traverse is defined exactly when the normalised flipped port occurs in the tile's layout (otherwise the source panics) |
| TileLaws.TurnLeftCycle | src/tiles.rs:10-38 | turning left maps S to E and E to N (the unit test); four left turns are the identity; a turn or the opposite never fixes a direction |
| TileLaws.PortTurnsInverse | src/tiles.rs:53-96 | port turn_left and turn_right are inverse; four turns are the identity; turning a port turns its side |
| TileLaws.FlipInvolution | src/tiles.rs:77-96 | flip is an involution without fixed points; the flipped port faces the opposite side |
| TileLaws.NormalizeRoundTrip | src/tiles.rs:110-125 | unnormalize undoes normalize and the converse, for every facing |
| TileLaws.RotateLeftFacingOnly | src/tiles.rs:106-109 | rotate_left keeps the layout, turns the facing, and four rotations are the identity |
| TileLaws.NormalizeUnderQuarterTurn | src/tiles.rs:106-117 | for north and east facings, rotating the tile left normalises a port as a right turn of it does |
| TileLaws.SouthFacingIsMirror | src/tiles.rs:110-117 | a south facing normalises by flip, a mirror, not a half turn; the quarter-turn law fails from west to south |
| TileLaws.TurnsRotateOffsets | src/tiles.rs:10-25 | a left turn rotates the grid step a quarter counter-clockwise, and the opposite side reverses it |
| TileLaws.PortBySideAndOrder | src/tiles.rs:89-96 | two ports are equal exactly when they share their side and their place on it |
| TileLaws.PortMovesBySide | src/tiles.rs:53-96 | port turn_left moves to the side a right turn reaches and turn_right to the side a left turn reaches, both keeping the place on the side; flip moves to the opposite side and swaps the place |
| TileLaws.NormalizeBySide | src/tiles.rs:110-117 | normalising keeps a port's side exactly for a north facing, and its place on the side exactly unless the facing is south |
| TileLaws.PartnerSymmetric | src/tiles.rs:128-134 | when the partner occurs once, the pairing is symmetric and never pairs a port with itself |
| TileLaws.TraverseDefined | src/tiles.rs:126-136 | on a tile whose layout is a perfect matching of the eight ports, traverse never reaches the panic |
| TileLaws.TraverseConsistent | src/tiles.rs:126-136 | traversing back from the flipped exit returns to the flipped entry, and a path never leads back to its own flipped entry |
| TileLaws.AllTilesAsWrittenMatchings | src/tiles.rs:139-457 | every catalogue entry as written except the fifth is a perfect matching |
| TileLaws.FifthEntryAsWritten | src/tiles.rs:177-185 | the fifth entry as written uses port H twice and port E never, so it is not a matching |
| TileLaws.FifthEntryBreaksTraverse | src/tiles.rs:177-185 | on that entry traverse panics from B, and the path from G is not reversible |
| TileLaws.AllTilesCorrectsFifth | src/tiles.rs:139-457 | the corrected catalogue agrees with the one as written in every entry but the fifth, whose layout differs |
| TileLaws.AllTilesPerfect | src/tiles.rs:139-462 | the corrected catalogue has 35 north-facing tiles, each a perfect matching, and traverse is total on each |
| Trails.EmptyBoard | src/game.rs:31 | the default board is a well-formed 6 x 6 grid of empty cells with no trails |
| Trails.AddPlayer | src/board.rs:65-71 | a start is refused exactly when it is invalid; otherwise a one-position trail is appended and its index returned |
| Trails.GetTile | src/agent.rs:58-78 | get_tile is None exactly off the board, otherwise the grid cell |
| Trails.NextTilePosition | src/agent.rs:51-57 | the next position enters through the flipped port and keeps liveness |
| Trails.NextTilePositionIsAdjacent | src/board.rs:94-100 | the next cell is adjacent on the side the port faces, and its port faces back |
| Trails.NextTilePositionReturns | src/board.rs:94-100 | stepping to the next cell twice returns to the start |
| Trails.TraverseFacing | src/agent.rs:54 | on a perfect tile the facing traverse is defined and leaves by a different port |
| Trails.TraverseFacingReverses | src/agent.rs:66-68 | the facing traverse is an involution: traversing from the exit returns to the entry |
| Boards.IsValidStart | src/board.rs:11-21 | the column lies in -1..6 and the port is on the outer edge of its ring cell; Boards.StartsFaceTheBoard states what that means |
| Boards.StartsFaceTheBoard | src/board.rs:11-21 | every off-grid position facing a grid cell is a start; a start is off the grid with its column in -1..6, and it faces a grid cell unless it sits at a corner or beyond the rows |
| Boards.IsValidDirection | src/board.rs:22-24 | the port lies on the given side; Boards.ValidDirectionStepsAhead states what that means |
| Boards.ValidDirectionStepsAhead | src/board.rs:22-24 | a direction is valid exactly when a step toward it reaches the cell the position faces |
| Boards.Updated | src/board.rs:25-29 | update moves to the given cell and leaves by traverse's exit, which is not the flipped entry |
| Boards.AdjacentSide | src/board.rs:113-124 | the side is found exactly when the cells are at unit distance; its offsets are the difference; otherwise the error is NotAdjacent |
| Boards.AdjacentSideInvertsOffsets | src/board.rs:113-124 | adjacent_side inverts grid_offsets for every direction and cell |
| Boards.PlayableCellIsAhead | src/board.rs:83-89 | a cell passes the adjacency and direction checks exactly when it is the cell the port faces |
| Boards.Walk | src/board.rs:93-109 | when the reference walk falls off, the cell ahead is off the board; when it is blocked, the cell ahead is on the board and empty |
| Boards.Outcome | src/board.rs:97-107 | the result is Ok(true) exactly on falling off, Ok(false) exactly on a blank cell, and OutOfFuel otherwise |
| Boards.WalkStep | src/board.rs:93-109 | one iteration of the loop: fall off, stop before a blank cell, or update onto the tile ahead and go on |
| Boards.WalkStaysOnTiles | src/board.rs:93-109 | a walk that starts on a placed tile halts on a placed tile |
| Boards.WalkOutcomes | src/board.rs:97-107 | on falling off, the player ends beyond the edge, flipped, from a placed tile; when blocked, it faces an empty cell from a placed tile |
| Boards.CutTrailGrid | src/board.rs:91 | a well-formed grid holding SideLoops facing north at (1, 2) and facing east at (1, 1) |
| Boards.CutTrailLoops | src/board.rs:91-109 | entering SideLoops facing east at (1, 1) from port H of (1, 2) leads to port D, and from there the walk on CutTrailGrid runs out of fuel for every fuel |
| Boards.CutTrailPlay | src/board.rs:72-110 | play_tile on a board with one player on port H at (1, 2), playing SideLoops facing east at (1, 1), returns OutOfFuel for every fuel |
| Boards.BoardUnitTests | src/board.rs:32-50 | the two unit tests hold, and a column past the edge is not a valid start |
| Boards.Board.constructor | src/board.rs:59-64 | a new board has an empty grid and no players |
| Boards.Board.AddPlayer | src/board.rs:65-71 | an invalid start is refused and nothing changes; otherwise the start is appended and its index returned |
| Boards.Board.PlayTile | src/board.rs:72-110 | each error happens exactly in its case and changes nothing; otherwise the tile is placed, only this player moves, and it ends where the reference walk ends |
| Boards.Board.Place | src/board.rs:90-109 | the tile is written over whatever the cell held, the player enters it, and it then ends where the reference walk ends, with that walk's outcome |
| Boards.Board.LayTile | src/board.rs:90-91 | the player enters the tile and the cell holds the tile; no other cell and no other player changes |
| Boards.Board.Follow | src/board.rs:93-109 | the loop moves only this player, to the end of the reference walk, and returns its outcome |
| Permutations.ToggleMark | src/lobby.rs:137-145 | toggling the mark flips whether an index is marked and stays below 2^64 |
| Permutations.ToggleMarkIsXor | src/lobby.rs:137-145 | XOR with the top bit of a 64-bit word is adding or subtracting 2^63, and it flips the top bit |
| Permutations.ToggleMarkInvolution | src/lobby.rs:137-140 | toggling twice restores the index |
| Permutations.MarkCycle | src/lobby.rs:155-163 | following one cycle swaps its elements into place and marks exactly that cycle |
| Permutations.ApplyPermutation | src/lobby.rs:147-168 | afterwards slice[k] is the old slice[indices[k]] for every k, and the indices are restored |
| Permutations.Unmark | src/lobby.rs:165-167 | clearing the marks yields the original permutation |
| Lobbies.Half | src/lobby.rs:26-37 | division by two leaves a remainder in 0..1 for a non-negative dividend and in -1..0 for a negative one, so the quotient rounds toward zero |
| Lobbies.HalfNegates | src/lobby.rs:26-37 | negating the dividend negates the quotient |
| Lobbies.Parity | src/lobby.rs:27-36 | the remainder by two is in -1..1, zero exactly for even numbers, and otherwise has the sign of the dividend |
| Lobbies.EdgePosition | src/lobby.rs:24-47 | every seat below NOT_READY gives an alive position (from NOT_READY on, the source panics) |
| Lobbies.EdgePositionIsStart | src/lobby.rs:189-199 | every seat 0-47 is a valid start on the edge, and its number can be read back from it |
| Lobbies.EdgePositionOnto | src/lobby.rs:24-47 | every alive start on the edge is the position of a seat 0-47 |
| Lobbies.EdgePositionInjective | src/lobby.rs:24-47 | distinct seats give distinct starts |
| Lobbies.NegativeSeatAliases | src/lobby.rs:24-28 | seat -1 takes the top-edge branch and gives the same start as seat 1 |
| Lobbies.EdgePositionExamples | src/lobby.rs:200-244 | the seat examples of test_edge_position |
| Lobbies.ReadySeatsAreTheReady | src/lobby.rs:72-79 | the ready slots are strictly increasing and include every slot below NOT_READY |
| Lobbies.PlayerNames | src/lobby.rs:72-79 | player_names is the names of the ready slots, in order, over the zipped length |
| Lobbies.SeatedPlayers | src/lobby.rs:81-89 | each ready slot's name with the start of that same slot, in seat order; Lobbies.SeatedPlayersAreReady states its contract |
| Lobbies.SeatedPlayersAreReady | src/lobby.rs:81-89 | the j-th seated player is the j-th ready slot's name (the j-th of player_names) paired with the edge position of that same slot; for seats 0-47 that is a start on the edge with that seat number |
| Lobbies.SortByKeySorts | src/lobby.rs:105-106 | the insertion sort orders indices by key |
| Lobbies.SortByKeyStable | src/lobby.rs:105-106 | the sort is stable: equal keys keep their index order |
| Lobbies.SeatOrderSorts | src/lobby.rs:105-106 | sort_by_key yields a permutation of the slots, under which the seats ascend and equal seats keep their order |
| Lobbies.SortedSlots | src/lobby.rs:105-106 | the index array is the stable seat order and a permutation |
| Lobbies.Lobby.constructor | src/lobby.rs:60-66 | a new lobby holds only its host, not ready, with room for two, and no one is ready |
| Lobbies.Lobby.Host | src/lobby.rs:68-70 | the name in the first seat, which the constructor makes the host's |
| Lobbies.Lobby.ReadyNames | src/lobby.rs:72-79 | the player names of the lobby's arrays; Lobbies.PlayerNames states its contract |
| Lobbies.Lobby.RunPregameChecks | src/lobby.rs:91-102 | each error happens exactly when its check fails and the earlier ones pass; Ok exactly when all pass |
| Lobbies.Lobby.PrepareForGame | src/lobby.rs:104-111 | names and seats are both reordered by the stable seat order, so each name keeps its seat |
| Lobbies.SoloLobbyHasNoPlayers | src/lobby.rs:183-187 | a new lobby has no ready players |
| Game.EliminateFrom | src/game.rs:59-73 | the remove-in-place loop from an index; Game.EliminateFromIsSurvivors and Game.EliminationConservesTiles state its contract |
| Game.SurvivorsAreTheAlive | src/game.rs:59-73 | the survivors are exactly the alive players, and none died exactly when all are kept |
| Game.EliminationConservesTiles | src/game.rs:66-69 | survivors' hands plus the returned dead hands are all the hands |
| Game.EliminateFromIsSurvivors | src/game.rs:60-73 | the remove-in-place loop from any index keeps the prefix and the survivors of the rest, and appends the dead hands |
| Game.EliminationIsSurvivors | src/game.rs:60-73 | the whole loop leaves the survivors and returns the dead hands to the stack |
| Game.RemoveAt | src/game.rs:55 | Vec::remove: one element fewer, order kept, exactly the removed element gone |
| Game.RefillFrom | src/game.rs:74-84 | the refill loop from a seat; Game.RefillDealsInOrder, Game.RefillConservesTiles and Game.RefillKeepsHandsSmall state its contract |
| Game.RefillDealsInOrder | src/game.rs:76-84 | in seat order, each short hand draws the top of the stack, until the stack runs out |
| Game.RefillConservesTiles | src/game.rs:76-84 | refilling moves tiles from the stack to hands and loses none |
| Game.RefillKeepsHandsSmall | src/game.rs:76-84 | refilling keeps every hand at most TILES_PER_PLAYER, and the seats and their order |
| Game.FirstAbove | src/game.rs:87-93 | position() finds the first player seated after bidx, or none exists |
| Game.FindPlayer | src/game.rs:117-119 | find returns the first player of that name, or None exactly when none has it |
| Game.DealFrom | src/game.rs:41-42 | the split point leaves min(TILES_PER_PLAYER, stack size) tiles for the new hand |
| Game.PlayFrom | src/game.rs:51-58 | the tile at the index leaves the mover's hand and is played, or nothing happens when the index is out of range; Game.PlayKeepsSeated and Game.PlayConservesTiles state its contract |
| Game.PlayKeepsSeated | src/game.rs:52-58 | playing extends the board and keeps every player seated, the hands small and the seats |
| Game.PlayConservesTiles | src/game.rs:52-58 | playing removes exactly the played tile from the hands, or nothing when the index is out of range |
| Game.Settle | src/game.rs:59-97 | elimination, refill and the next index after a play; Game.SettleKeepsValid, Game.SettleConservesTiles, Game.SettleLeavesTheLiving and Game.SettlePassesTurn state its contract |
| Game.SettleKeepsValid | src/game.rs:59-97 | elimination, refill and passing the turn keep the game state invariant |
| Game.SettleConservesTiles | src/game.rs:59-84 | elimination and refill lose no tile |
| Game.SettleLeavesTheLiving | src/game.rs:59-84 | after a turn the players are the survivors in order, all seated and alive |
| Game.SettlePassesTurn | src/game.rs:85-97 | with no death the index advances cyclically; after a death it is the first player seated after the mover, or 0 |
| Game.Register | src/game.rs:36-49 | add_player, then a hand from the top of the stack; Game.RegisterSeats states its contract |
| Game.RegisterSeats | src/game.rs:36-49 | registration fails exactly on an invalid start; otherwise one player is appended on a new trail with the top tiles of the stack |
| Game.NewGameHoldsCatalogue | src/game.rs:26-35 | a new game on a shuffle of the catalogue is valid and holds exactly the 35 tiles |
| Game.Turn | src/game.rs:50-97 | a play followed by Settle; Game.TurnKeepsValid and Game.TurnConservesTiles state its contract |
| Game.TurnKeepsValid | src/game.rs:50-97 | a whole turn keeps the game state invariant |
| Game.TurnConservesTiles | src/game.rs:50-97 | a whole turn loses no tile except the one placed on the board |
| Game.NextIndex | src/game.rs:85-97 | the next index is a valid index when players remain (the source's `% len` needs one) |
| Game.GameManager.constructor | src/game.rs:26-35 | a new manager has the default board, no players, the given stack, and index 0 |
| Game.GameManager.RegisterPlayer | src/game.rs:36-49 | the manager's new state is Register of its old state, an error leaves it unchanged, and the state stays valid |
| Game.GameManager.TakeTurn | src/game.rs:50-112 | the manager's new state is Turn of its old state; it stays valid and returns the number of players |
| Game.GameManager.PlayFromHand | src/game.rs:51-58 | the board and players become PlayFrom of the old state |
| Game.GameManager.EliminateDead | src/game.rs:59-73 | the loop's players and stack are EliminateFrom of the old ones; newly_dead exactly when someone left |
| Game.GameManager.RefillHands | src/game.rs:74-84 | the loop's players and stack are Refill of the old ones, with the same number of players |
| Game.GameManager.CurrentPlayer | src/game.rs:114-116 | the current player is one of the players |
| Game.GameManager.GetPlayer | src/game.rs:117-119 | a player of that name is returned when one exists, and None exactly when none does |
| Agent.Advance | src/agent.rs:57-78 | one iteration either stops at an empty cell that is not the played one, or off the board dead, or continues |
| Agent.Walk | src/agent.rs:56-79 | a finished loop ends at such a stop |
| Agent.Simulate | src/agent.rs:44-80 | follow_path ends off the board dead, or alive before an empty cell other than the played one |
| Agent.FollowPath | src/agent.rs:44-80 | the loop returns what the recursive Simulate returns |
| Agent.AdvanceIsFollowOfPlacement | src/agent.rs:65-68 | one imagined step equals a step on the grid with the tile placed |
| Agent.WalkIsTraceOfPlacement | src/agent.rs:56-79 | the imagined walk equals the walk on the board with the tile really placed |
| Agent.SimulateIsPlacement | src/agent.rs:43-80 | when the cell ahead is empty, follow_path's result equals the walk (Agent.Trace) on the grid with the tile placed |
| Agent.FirstSafeDirection | src/agent.rs:23-32 | returns the first facing that keeps the player alive, or reports that none does |
| Agent.ChooseAction | src/agent.rs:18-40 | the choice is the first safe (tile, facing) in hand and direction order; if none is safe, (0, North) |
| Agent.FollowPathExample | src/agent.rs:87-103 | on the empty board, tile 27 from row 6, column 0, port A ends dead at (5, -1, C) |

## Left out

- I/O, serialisation and logging are not modelled. Error strings are modelled as error tags; `info!` calls are dropped.
- Randomness is not modelled. `GameManager::new` takes the shuffled stack as a parameter; the shuffle itself is not modelled.
- Game.GameManager.constructor: accepts any stack, not only a shuffle of `all_tiles`. The lemma Game.NewGameHoldsCatalogue states what holds when the stack is such a shuffle.
- `generate_lobby_code` and its test are not modelled: they are random text generation.
- Lobbies.Lobby.PrepareForGame: models only the sort and the two permutations (src/lobby.rs:105-111). The AI seats that follow (src/lobby.rs:112-133) are left out because they draw random seats with the thread RNG.
- Game.GameManager.TakeTurn: omits the AI move hack at the end of `take_turn` (src/game.rs:98-111). It recurses into `agent::select_tile`, which is not part of this model.
- Boards.Board.PlayTile: the source loop has no termination bound; the model takes a fuel parameter and reports `OutOfFuel` when it runs out. The source loop need not end: `play_tile` writes over an occupied cell (src/board.rs:91), so a player can stand on a tile that no longer lies under it. Boards.CutTrailLoops and Boards.CutTrailPlay show such a board, where the walk runs between (1, 1) and (1, 2) forever and the model returns `OutOfFuel` for every fuel.
- Agent.FollowPath: the same fuel parameter bounds the loop, and `None` means the fuel ran out.
- Boards.Board.PlayTile, Game.Turn, Game.Settle, Game.GameManager.TakeTurn and Game.GameManager.CurrentPlayer require a valid player index, so they exclude the index panics at src/board.rs:79, src/game.rs:51 and src/game.rs:115. These panics are reachable in the source: once every player is eliminated, `take_turn` returns 0, and the next `take_turn` or `current_player` indexes an empty list.
- Boards.AdjacentSide: rows and columns are unbounded integers, so i8 overflow is not modelled. `add_player` accepts a start such as row -128, column -1, port C, and `adjacent_side` then computes `dst_row - src_row` in i8 (src/board.rs:114), which overflows and panics in a debug build; the model answers `NotAdjacent` there.
- `Tile::traverse` panics when a port is missing from the layout. The model returns `None` there. TileLaws.TraverseDefined and TileLaws.AllTilesPerfect show that this cannot happen on the corrected catalogue; on the fifth entry as written it does (TileLaws.FifthEntryBreaksTraverse).
- Boards.Updated, Boards.Board.PlayTile, Trails.WellFormed and the members of `Agent` require tiles whose paths pair every port exactly once. Dealing and playing the fifth catalogue entry as written is therefore not modelled; the model deals from the corrected catalogue.
- `Board::play_tile` as called from `src/game.rs` belongs to a later board revision than the one in `src/board.rs`: it has three arguments, trails, `alive` markers and tiles stored with their facing.
  - That revision is modelled as the value type `Trails.TrailBoard`.
  - Its `play_tile` is a parameter of Game.GameManager.TakeTurn. It is constrained only to extend trails and to keep the grid well formed.
  - `get_tile` and `next_tile_position` are defined from their uses in `src/agent.rs`, and `current_player_pos` is not modelled: Agent.ChooseAction takes the position and the hand as arguments.
- The facing-aware traverse used by `src/agent.rs` does not flip the entry port, unlike `Tile::traverse` of `src/tiles.rs`. The agent's test only holds that way, so the model uses that behaviour.
- `Direction::all` is not part of this model. Its order is taken to be the declaration order of `Direction`: North, West, South, East. Agent.ChooseAction's "first safe" refers to that order.
- A south facing normalises a port by `flip`, which is a mirror image rather than a half turn. The model keeps the code's behaviour; TileLaws.SouthFacingIsMirror records it.
- `Position::is_valid_start` bounds only the column. A start on the left or right edge with any row is accepted, as in the code.
- The eliminated-player rules that rely on the dragon tile, and scoring, are not in this revision of `src/game.rs` and are not modelled.
- Joining, leaving and deserialising a lobby happen outside `src/lobby.rs` and are not modelled.
- A negative seat number (`EdgePos` is an i8) falls into the first branch of `edge_position` with truncating division. The model follows that; seat -1, for instance, gives the same start as seat 1.

## Findings

| source | as written | input that shows it | evidently intended | confidence | as-written member | corrected member |
|---|---|---|---|---|---|---|
| src/tiles.rs:177-185 | the fifth tile of `all_tiles` pairs (A,H), (B,C), (D,H), (F,G): port H twice, port E never | `all_tiles()[4].traverse(B)`: the normalised start E is in no pair, so `traverse` panics | (A,H), (B,C), (D,E), (F,G), the only rotation class of perfect tiles missing from the catalogue | high, not executed | TileLaws.FifthEntryAsWritten | TileLaws.AllTilesPerfect |
