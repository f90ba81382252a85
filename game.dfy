/**
 * The turn, elimination and hand state machine of src/game.rs.  The board is
 * the trail board of module Trails; its play_tile is not part of this model
 * and is passed to TakeTurn as a function that only extends the board.
 */
module Game {
  import opened Wrappers
  import opened Tiles
  import opened Trails
  import Boards

  /** TILES_PER_PLAYER: the most tiles a hand holds. */
  const TilesPerPlayer: nat := 3

  datatype Player = Player(username: string, boardIndex: nat, hand: seq<Tile>)

  /** The player's trail exists and is not empty. */
  predicate Seated(b: TrailBoard, p: Player)
  {
    p.boardIndex < |b.trails| && |b.trails[p.boardIndex]| > 0
  }

  predicate AllSeated(b: TrailBoard, ps: seq<Player>)
  {
    forall k :: 0 <= k < |ps| ==> Seated(b, ps[k])
  }

  /** The head of the player's trail is alive. */
  predicate Alive(b: TrailBoard, p: Player)
    requires Seated(b, p)
  {
    Head(b, p.boardIndex).alive
  }

  // ---------------------------------------------------------------------
  // Elimination (src/game.rs:60-73)

  /** The players whose trail head is alive, in their order. */
  function Survivors(b: TrailBoard, ps: seq<Player>): seq<Player>
    requires AllSeated(b, ps)
  {
    if ps == [] then []
    else Survivors(b, ps[..|ps| - 1]) + (if Alive(b, ps[|ps| - 1]) then [ps[|ps| - 1]] else [])
  }

  /** The hands of the dead players, concatenated in player order. */
  function DeadHands(b: TrailBoard, ps: seq<Player>): seq<Tile>
    requires AllSeated(b, ps)
  {
    if ps == [] then []
    else DeadHands(b, ps[..|ps| - 1]) + (if Alive(b, ps[|ps| - 1]) then [] else ps[|ps| - 1].hand)
  }

  /** Survivors are exactly the alive players, each of them seated. */
  lemma {:induction false} SurvivorsAreTheAlive(b: TrailBoard, ps: seq<Player>)
    requires AllSeated(b, ps)
    ensures AllSeated(b, Survivors(b, ps))
    ensures forall p :: p in Survivors(b, ps) <==> p in ps && Alive(b, p)
    ensures |Survivors(b, ps)| <= |ps|
    ensures |Survivors(b, ps)| == |ps| <==> forall k :: 0 <= k < |ps| ==> Alive(b, ps[k])
  {
    if ps != [] {
      var init := ps[..|ps| - 1];
      assert ps == init + [ps[|ps| - 1]];
      SurvivorsAreTheAlive(b, init);
    }
  }

  /** Elimination keeps the survivors' relative order: it distributes over concatenation. */
  lemma {:induction false} SurvivorsOfConcat(b: TrailBoard, xs: seq<Player>, ys: seq<Player>)
    requires AllSeated(b, xs) && AllSeated(b, ys)
    ensures AllSeated(b, xs + ys)
    ensures Survivors(b, xs + ys) == Survivors(b, xs) + Survivors(b, ys)
    ensures DeadHands(b, xs + ys) == DeadHands(b, xs) + DeadHands(b, ys)
    decreases |ys|
  {
    if ys == [] {
      assert xs + ys == xs;
    } else {
      var init := ys[..|ys| - 1];
      assert (xs + ys)[..|xs + ys| - 1] == xs + init;
      assert (xs + ys)[|xs + ys| - 1] == ys[|ys| - 1];
      SurvivorsOfConcat(b, xs, init);
    }
  }

  /** All the tiles held in the hands of `ps`. */
  function Hands(ps: seq<Player>): multiset<Tile>
  {
    if ps == [] then multiset{} else multiset(ps[0].hand) + Hands(ps[1..])
  }

  lemma {:induction false} HandsOfConcat(xs: seq<Player>, ys: seq<Player>)
    ensures Hands(xs + ys) == Hands(xs) + Hands(ys)
  {
    if xs == [] {
      assert xs + ys == ys;
    } else {
      assert (xs + ys)[1..] == xs[1..] + ys;
      HandsOfConcat(xs[1..], ys);
    }
  }

  /** Elimination loses no tile: the dead players' hands go to the stack. */
  lemma {:induction false} EliminationConservesTiles(b: TrailBoard, ps: seq<Player>)
    requires AllSeated(b, ps)
    ensures Hands(Survivors(b, ps)) + multiset(DeadHands(b, ps)) == Hands(ps)
  {
    if ps != [] {
      var init := ps[..|ps| - 1];
      var last := ps[|ps| - 1];
      assert ps == init + [last];
      EliminationConservesTiles(b, init);
      HandsOfConcat(init, [last]);
      HandsOfConcat(Survivors(b, init), if Alive(b, last) then [last] else []);
    }
  }

  /**
   * The elimination loop as a function, from slot `idx` on: a dead player is
   * removed (the next player moves into its slot) and its hand appended to
   * the stack; a live one is passed over.
   */
  function EliminateFrom(b: TrailBoard, ps: seq<Player>, stack: seq<Tile>, idx: nat): (seq<Player>, seq<Tile>)
    requires AllSeated(b, ps) && idx <= |ps|
    decreases |ps| - idx
  {
    if idx == |ps| then (ps, stack)
    else if !Alive(b, ps[idx]) then EliminateFrom(b, RemoveAt(ps, idx), stack + ps[idx].hand, idx)
    else EliminateFrom(b, ps, stack, idx + 1)
  }

  /**
   * The loop removes exactly the dead players, keeping the order of the
   * others, and appends the dead players' hands to the stack in order.
   */
  lemma {:induction false} EliminateFromIsSurvivors(b: TrailBoard, ps: seq<Player>, stack: seq<Tile>, idx: nat)
    requires AllSeated(b, ps) && idx <= |ps|
    ensures AllSeated(b, ps[idx..])
    ensures EliminateFrom(b, ps, stack, idx) == (ps[..idx] + Survivors(b, ps[idx..]), stack + DeadHands(b, ps[idx..]))
    decreases |ps| - idx
  {
    if idx == |ps| {
      assert ps[..idx] == ps && ps[idx..] == [];
      assert Survivors(b, []) == [] && DeadHands(b, []) == [];
      assert ps + [] == ps && stack + [] == stack;
    } else if !Alive(b, ps[idx]) {
      EliminateFromIsSurvivors(b, RemoveAt(ps, idx), stack + ps[idx].hand, idx);
      EliminateDeadStep(b, ps, stack, idx);
    } else {
      EliminateFromIsSurvivors(b, ps, stack, idx + 1);
      EliminateAliveStep(b, ps, stack, idx);
    }
  }

  /** The step of EliminateFromIsSurvivors past a dead player. */
  lemma EliminateDeadStep(b: TrailBoard, ps: seq<Player>, stack: seq<Tile>, idx: nat)
    requires AllSeated(b, ps) && idx < |ps| && !Alive(b, ps[idx])
    requires var ps' := RemoveAt(ps, idx);
      AllSeated(b, ps'[idx..]) &&
      EliminateFrom(b, ps', stack + ps[idx].hand, idx) ==
        (ps'[..idx] + Survivors(b, ps'[idx..]), stack + ps[idx].hand + DeadHands(b, ps'[idx..]))
    ensures AllSeated(b, ps[idx..])
    ensures EliminateFrom(b, ps, stack, idx) == (ps[..idx] + Survivors(b, ps[idx..]), stack + DeadHands(b, ps[idx..]))
  {
    SurvivorsAt(b, ps, idx);
    var hand := ps[idx].hand;
    var rest := ps[idx + 1..];
    assert stack + hand + DeadHands(b, rest) == stack + (hand + DeadHands(b, rest));
  }

  /** The step of EliminateFromIsSurvivors past a live player. */
  lemma EliminateAliveStep(b: TrailBoard, ps: seq<Player>, stack: seq<Tile>, idx: nat)
    requires AllSeated(b, ps) && idx < |ps| && Alive(b, ps[idx])
    requires AllSeated(b, ps[idx + 1..]) &&
      EliminateFrom(b, ps, stack, idx + 1) ==
        (ps[..idx + 1] + Survivors(b, ps[idx + 1..]), stack + DeadHands(b, ps[idx + 1..]))
    ensures AllSeated(b, ps[idx..])
    ensures EliminateFrom(b, ps, stack, idx) == (ps[..idx] + Survivors(b, ps[idx..]), stack + DeadHands(b, ps[idx..]))
  {
    SurvivorsAt(b, ps, idx);
    var x := ps[idx];
    assert ps[..idx + 1] == ps[..idx] + [x];
    assert ps[..idx] + [x] + Survivors(b, ps[idx + 1..]) == ps[..idx] + ([x] + Survivors(b, ps[idx + 1..]));
  }

  /** Elimination of the players from slot `idx` on, split at that slot. */
  lemma SurvivorsAt(b: TrailBoard, ps: seq<Player>, idx: nat)
    requires AllSeated(b, ps) && idx < |ps|
    ensures AllSeated(b, ps[idx..]) && AllSeated(b, ps[idx + 1..])
    ensures Survivors(b, ps[idx..]) ==
      if Alive(b, ps[idx]) then [ps[idx]] + Survivors(b, ps[idx + 1..]) else Survivors(b, ps[idx + 1..])
    ensures DeadHands(b, ps[idx..]) ==
      if Alive(b, ps[idx]) then DeadHands(b, ps[idx + 1..]) else ps[idx].hand + DeadHands(b, ps[idx + 1..])
  {
    var x := ps[idx];
    var rest := ps[idx + 1..];
    assert ps[idx..] == [x] + rest;
    SurvivorsOfConcat(b, [x], rest);
    assert [x][..0] == [];
    assert Survivors(b, [x]) == (if Alive(b, x) then [x] else []);
    assert DeadHands(b, [x]) == (if Alive(b, x) then [] else x.hand);
    assert [] + Survivors(b, rest) == Survivors(b, rest);
    assert [] + DeadHands(b, rest) == DeadHands(b, rest);
  }

  /** The sequence without its element at `i` (Vec::remove). */
  function RemoveAt<T>(s: seq<T>, i: nat): (r: seq<T>)
    requires i < |s|
    ensures |r| == |s| - 1
    ensures forall k :: 0 <= k < i ==> r[k] == s[k]
    ensures forall k :: i <= k < |r| ==> r[k] == s[k + 1]
    ensures r[..i] == s[..i] && r[i..] == s[i + 1..]
    ensures multiset(r) + multiset{s[i]} == multiset(s)
  {
    assert s == s[..i] + [s[i]] + s[i + 1..];
    s[..i] + s[i + 1..]
  }


  // ---------------------------------------------------------------------
  // Refill (src/game.rs:76-84)

  /**
   * The refill loop as a function, from slot `i` on: in player order, each
   * player holding fewer than TilesPerPlayer tiles draws the top (last) tile
   * of the stack; the loop stops at the first such player once the stack is
   * empty.
   */
  function RefillFrom(ps: seq<Player>, stack: seq<Tile>, i: nat): (seq<Player>, seq<Tile>)
    requires i <= |ps|
    decreases |ps| - i
  {
    if i == |ps| then (ps, stack)
    else if |ps[i].hand| < TilesPerPlayer then
      if stack == [] then (ps, stack)
      else RefillFrom(ps[i := ps[i].(hand := ps[i].hand + [stack[|stack| - 1]])], stack[..|stack| - 1], i + 1)
    else RefillFrom(ps, stack, i + 1)
  }

  /** The whole refill loop. */
  function Refill(ps: seq<Player>, stack: seq<Tile>): (seq<Player>, seq<Tile>)
  {
    RefillFrom(ps, stack, 0)
  }

  /** How many of `ps` hold fewer than TilesPerPlayer tiles. */
  function NeedyCount(ps: seq<Player>): nat
  {
    if ps == [] then 0 else (if |ps[0].hand| < TilesPerPlayer then 1 else 0) + NeedyCount(ps[1..])
  }

  /** Counting the needy players of a slice from its front. */
  lemma NeedyCountStep(ps: seq<Player>, i: nat, k: nat)
    requires i < k <= |ps|
    ensures NeedyCount(ps[i..k]) == (if |ps[i].hand| < TilesPerPlayer then 1 else 0) + NeedyCount(ps[i + 1..k])
  {
    assert ps[i..k][1..] == ps[i + 1..k];
  }

  function Min(a: int, b: int): int
  {
    if a <= b then a else b
  }

  /**
   * The tile player `k` draws when refill runs from slot `i`: one tile when
   * it is needy and fewer needy players come before it (from `i`) than the
   * stack holds, namely the one that many places below the top.
   */
  function Drawn(ps: seq<Player>, stack: seq<Tile>, i: nat, k: nat): seq<Tile>
    requires i <= k < |ps|
  {
    var before := NeedyCount(ps[i..k]);
    if |ps[k].hand| < TilesPerPlayer && before < |stack| then [stack[|stack| - 1 - before]] else []
  }

  /**
   * The outcome (`qs`, `rest`) of refilling from slot `i`, player by player:
   * slots before `i` are untouched; from `i` on each player keeps name and
   * board index and its hand grows by Drawn; the stack loses its top
   * min(needy players, tiles) tiles.
   */
  ghost predicate DealtInOrder(ps: seq<Player>, stack: seq<Tile>, i: nat, qs: seq<Player>, rest: seq<Tile>)
    requires i <= |ps|
  {
    |qs| == |ps| &&
    (forall k :: 0 <= k < i ==> qs[k] == ps[k]) &&
    (forall k :: i <= k < |ps| ==> qs[k] == ps[k].(hand := ps[k].hand + Drawn(ps, stack, i, k))) &&
    rest == stack[..|stack| - Min(NeedyCount(ps[i..]), |stack|)]
  }

  /** Refill deals as DealtInOrder describes. */
  lemma {:induction false} RefillDealsInOrder(ps: seq<Player>, stack: seq<Tile>, i: nat)
    requires i <= |ps|
    ensures DealtInOrder(ps, stack, i, RefillFrom(ps, stack, i).0, RefillFrom(ps, stack, i).1)
    decreases |ps| - i
  {
    if i == |ps| {
      assert ps[i..] == [];
    } else if |ps[i].hand| < TilesPerPlayer && stack == [] {
      assert RefillFrom(ps, stack, i) == (ps, stack);
    } else if |ps[i].hand| < TilesPerPlayer {
      var ps' := ps[i := ps[i].(hand := ps[i].hand + [stack[|stack| - 1]])];
      RefillDealsInOrder(ps', stack[..|stack| - 1], i + 1);
      DealStep(ps, stack, i, RefillFrom(ps', stack[..|stack| - 1], i + 1).0, RefillFrom(ps', stack[..|stack| - 1], i + 1).1);
    } else {
      RefillDealsInOrder(ps, stack, i + 1);
      SkipStep(ps, stack, i, RefillFrom(ps, stack, i + 1).0, RefillFrom(ps, stack, i + 1).1);
    }
  }

  /** A needy player at `i` draws the top tile, then refill goes on from i + 1. */
  lemma DealStep(ps: seq<Player>, stack: seq<Tile>, i: nat, qs: seq<Player>, rest: seq<Tile>)
    requires i < |ps| && |ps[i].hand| < TilesPerPlayer && stack != []
    requires DealtInOrder(ps[i := ps[i].(hand := ps[i].hand + [stack[|stack| - 1]])], stack[..|stack| - 1], i + 1, qs, rest)
    ensures DealtInOrder(ps, stack, i, qs, rest)
  {
    var ps' := ps[i := ps[i].(hand := ps[i].hand + [stack[|stack| - 1]])];
    var stack' := stack[..|stack| - 1];
    forall k | i <= k < |ps|
      ensures qs[k] == ps[k].(hand := ps[k].hand + Drawn(ps, stack, i, k))
    {
      if k == i {
        assert ps[i..i] == [];
      } else {
        DrawnAfterDeal(ps, stack, i, k);
      }
    }
    NeedyCountStep(ps, i, |ps|);
    assert ps[i..|ps|] == ps[i..] && ps[i + 1..|ps|] == ps[i + 1..] == ps'[i + 1..];
    assert rest == stack[..|stack| - Min(NeedyCount(ps[i..]), |stack|)];
  }

  /** After a deal at `i`, a later player draws the same tile from the shorter stack. */
  lemma DrawnAfterDeal(ps: seq<Player>, stack: seq<Tile>, i: nat, k: nat)
    requires i < k < |ps| && |ps[i].hand| < TilesPerPlayer && stack != []
    ensures Drawn(ps[i := ps[i].(hand := ps[i].hand + [stack[|stack| - 1]])], stack[..|stack| - 1], i + 1, k) ==
            Drawn(ps, stack, i, k)
  {
    NeedyCountStep(ps, i, k);
    assert ps[i := ps[i].(hand := ps[i].hand + [stack[|stack| - 1]])][i + 1..k] == ps[i + 1..k];
  }

  /** A player at `i` with a full hand draws nothing. */
  lemma SkipStep(ps: seq<Player>, stack: seq<Tile>, i: nat, qs: seq<Player>, rest: seq<Tile>)
    requires i < |ps| && |ps[i].hand| >= TilesPerPlayer
    requires DealtInOrder(ps, stack, i + 1, qs, rest)
    ensures DealtInOrder(ps, stack, i, qs, rest)
  {
    forall k | i < k < |ps|
      ensures Drawn(ps, stack, i + 1, k) == Drawn(ps, stack, i, k)
    {
      NeedyCountStep(ps, i, k);
    }
    assert ps[i..i] == [];
    NeedyCountStep(ps, i, |ps|);
    assert ps[i..|ps|] == ps[i..] && ps[i + 1..|ps|] == ps[i + 1..];
  }

  /** Refill moves tiles from the stack to hands and loses none. */
  lemma {:induction false} RefillConservesTiles(ps: seq<Player>, stack: seq<Tile>, i: nat)
    requires i <= |ps|
    ensures var (qs, rest) := RefillFrom(ps, stack, i);
      Hands(qs) + multiset(rest) == Hands(ps) + multiset(stack)
    decreases |ps| - i
  {
    if i == |ps| || (|ps[i].hand| < TilesPerPlayer && stack == []) {
      assert RefillFrom(ps, stack, i) == (ps, stack);
    } else if |ps[i].hand| < TilesPerPlayer {
      var top := stack[|stack| - 1];
      RefillConservesTiles(ps[i := ps[i].(hand := ps[i].hand + [top])], stack[..|stack| - 1], i + 1);
      DrawConserves(ps, stack, i);
    } else {
      RefillConservesTiles(ps, stack, i + 1);
    }
  }

  /** Drawing the top tile into hand `i` moves it from the stack to the hands. */
  lemma DrawConserves(ps: seq<Player>, stack: seq<Tile>, i: nat)
    requires i < |ps| && stack != []
    ensures var top := stack[|stack| - 1];
      Hands(ps[i := ps[i].(hand := ps[i].hand + [top])]) + multiset(stack[..|stack| - 1]) ==
      Hands(ps) + multiset(stack)
  {
    var top := stack[|stack| - 1];
    var ps' := ps[i := ps[i].(hand := ps[i].hand + [top])];
    assert stack == stack[..|stack| - 1] + [top];
    HandsShrink(ps', i, ps[i].hand, multiset{top});
    assert ps'[i := ps'[i].(hand := ps[i].hand)] == ps;
  }

  /**
   * Taking the tiles `taken` out of hand `i`, leaving `h`, takes them out of
   * the hands.
   */
  lemma {:induction false} HandsShrink(ps: seq<Player>, i: nat, h: seq<Tile>, taken: multiset<Tile>)
    requires i < |ps| && multiset(h) + taken == multiset(ps[i].hand)
    ensures Hands(ps[i := ps[i].(hand := h)]) + taken == Hands(ps)
  {
    var ps' := ps[i := ps[i].(hand := h)];
    if i == 0 {
      assert ps'[1..] == ps[1..];
    } else {
      assert ps'[1..] == ps[1..][i - 1 := ps[i].(hand := h)];
      HandsShrink(ps[1..], i - 1, h, taken);
    }
  }

  /** No hand grows beyond TilesPerPlayer tiles. */
  lemma RefillKeepsHandsSmall(ps: seq<Player>, stack: seq<Tile>)
    requires forall k :: 0 <= k < |ps| ==> |ps[k].hand| <= TilesPerPlayer
    ensures var qs := Refill(ps, stack).0;
      |qs| == |ps| && forall k :: 0 <= k < |qs| ==> |qs[k].hand| <= TilesPerPlayer &&
                                                    qs[k].boardIndex == ps[k].boardIndex
  {
    RefillDealsInOrder(ps, stack, 0);
  }

  // ---------------------------------------------------------------------
  // Next player (src/game.rs:86-97)

  /** The first index whose player has a board index above `bidx`, if any. */
  function FirstAbove(ps: seq<Player>, bidx: nat): (r: Option<nat>)
    ensures r.Some? ==> r.value < |ps| && ps[r.value].boardIndex > bidx &&
                        forall k :: 0 <= k < r.value ==> ps[k].boardIndex <= bidx
    ensures r.None? ==> forall k :: 0 <= k < |ps| ==> ps[k].boardIndex <= bidx
  {
    if ps == [] then None
    else if ps[0].boardIndex > bidx then Some(0)
    else match FirstAbove(ps[1..], bidx)
      case None => None
      case Some(k) => Some(k + 1)
  }

  /** The player at `k` is found by its name when no earlier player has that name. */
  function FindPlayer(ps: seq<Player>, name: string): (r: Option<Player>)
    ensures r.None? <==> forall k :: 0 <= k < |ps| ==> ps[k].username != name
    ensures r.Some? ==> exists k :: 0 <= k < |ps| && ps[k] == r.value && r.value.username == name &&
                                    forall j :: 0 <= j < k ==> ps[j].username != name
  {
    if ps == [] then None
    else if ps[0].username == name then Some(ps[0])
    else
      var r := FindPlayer(ps[1..], name);
      assert r.Some? ==> exists k :: 0 <= k < |ps| && ps[k] == r.value && r.value.username == name &&
                                     forall j :: 0 <= j < k ==> ps[j].username != name by {
        if r.Some? {
          var k :| 0 <= k < |ps[1..]| && ps[1..][k] == r.value && r.value.username == name &&
                   forall j :: 0 <= j < k ==> ps[1..][j].username != name;
          assert ps[k + 1] == r.value;
        }
      }
      r
  }

  /** How many tiles register_player deals: min(TilesPerPlayer, stack size). */
  function DealFrom(stackSize: nat): (k: nat)
    ensures k <= stackSize && stackSize - k == Min(TilesPerPlayer, stackSize)
  {
    if stackSize >= TilesPerPlayer then stackSize - TilesPerPlayer else 0
  }

  /** The whole state of a GameManager. */
  datatype GameState = GameState(board: TrailBoard, players: seq<Player>, stack: seq<Tile>, current: nat)

  /**
   * Every player has a trail on a well-formed board, no hand holds more
   * than TilesPerPlayer tiles, and the turn index names a player (or is 0
   * when nobody is left).
   */
  ghost predicate ValidState(s: GameState)
  {
    WellFormed(s.board.grid) &&
    AllSeated(s.board, s.players) &&
    (forall k :: 0 <= k < |s.players| ==> |s.players[k].hand| <= TilesPerPlayer) &&
    (s.current < |s.players| || s.current == 0)
  }

  /** All tiles in play: the hands and the stack. */
  function Pool(s: GameState): multiset<Tile>
  {
    Hands(s.players) + multiset(s.stack)
  }

  /** `play` stands for Board::play_tile: it only ever extends the board. */
  ghost predicate OnlyExtends(play: (TrailBoard, nat, Tile, Direction) -> TrailBoard)
  {
    forall b, i, t, f :: Extends(b, play(b, i, t, f))
  }

  /** Whether the turn plays a tile: the index names a tile of the mover's hand. */
  function Plays(s: GameState, tileIndex: nat): bool
    requires s.current < |s.players|
  {
    tileIndex < |s.players[s.current].hand|
  }

  /**
   * The first block of take_turn: when `tileIndex` names a tile of the
   * mover's hand, the tile leaves the hand and is played on the mover's
   * trail facing `facing`.
   */
  function PlayFrom(s: GameState, tileIndex: nat, facing: Direction, play: (TrailBoard, nat, Tile, Direction) -> TrailBoard)
    : (TrailBoard, seq<Player>)
    requires s.current < |s.players|
  {
    var me := s.players[s.current];
    if Plays(s, tileIndex) then
      (play(s.board, me.boardIndex, me.hand[tileIndex], facing),
       s.players[s.current := me.(hand := RemoveAt(me.hand, tileIndex))])
    else (s.board, s.players)
  }

  /**
   * GameManager::take_turn without its AI hook: play, then settle the
   * board.
   */
  function Turn(s: GameState, tileIndex: nat, facing: Direction, play: (TrailBoard, nat, Tile, Direction) -> TrailBoard)
    : GameState
    requires ValidState(s) && s.current < |s.players| && OnlyExtends(play)
  {
    var (b, ps) := PlayFrom(s, tileIndex, facing, play);
    PlayKeepsSeated(s, tileIndex, facing, play);
    Settle(b, ps, s.stack, s.players[s.current].boardIndex, s.current)
  }

  /**
   * The rest of take_turn, after the play on board `b` left players `ps`
   * and stack `stack`: remove the dead players and return their hands to
   * the stack, refill the hands, and pass the turn on from `current`, the
   * slot of the mover, whose board index is `bidx`.
   */
  function Settle(b: TrailBoard, ps: seq<Player>, stack: seq<Tile>, bidx: nat, current: nat): GameState
    requires AllSeated(b, ps) && |ps| > 0
  {
    var (survivors, stack') := EliminateFrom(b, ps, stack, 0);
    var (players, rest) := Refill(survivors, stack');
    RefillDealsInOrder(survivors, stack', 0);
    GameState(b, players, rest, NextIndex(|survivors| < |ps|, players, bidx, current))
  }

  /** The elimination loop run over all of `ps`. */
  lemma EliminationIsSurvivors(b: TrailBoard, ps: seq<Player>, stack: seq<Tile>)
    requires AllSeated(b, ps)
    ensures EliminateFrom(b, ps, stack, 0) == (Survivors(b, ps), stack + DeadHands(b, ps))
  {
    EliminateFromIsSurvivors(b, ps, stack, 0);
    assert ps[..0] == [] && ps[0..] == ps;
    assert [] + Survivors(b, ps) == Survivors(b, ps);
  }

  /** Playing keeps every player seated, and every hand small. */
  lemma PlayKeepsSeated(s: GameState, tileIndex: nat, facing: Direction, play: (TrailBoard, nat, Tile, Direction) -> TrailBoard)
    requires ValidState(s) && s.current < |s.players| && OnlyExtends(play)
    ensures var (b, ps) := PlayFrom(s, tileIndex, facing, play);
      Extends(s.board, b) && WellFormed(b.grid) && AllSeated(b, ps) && |ps| == |s.players| &&
      (forall k :: 0 <= k < |ps| ==> |ps[k].hand| <= TilesPerPlayer && ps[k].boardIndex == s.players[k].boardIndex)
  {
    var me := s.players[s.current];
    if Plays(s, tileIndex) {
      assert Extends(s.board, play(s.board, me.boardIndex, me.hand[tileIndex], facing));
    }
  }

  /** Playing moves the played tile, if any, out of the hands. */
  lemma PlayConservesTiles(s: GameState, tileIndex: nat, facing: Direction, play: (TrailBoard, nat, Tile, Direction) -> TrailBoard)
    requires s.current < |s.players|
    ensures var me := s.players[s.current];
      Hands(PlayFrom(s, tileIndex, facing, play).1) +
        (if Plays(s, tileIndex) then multiset{me.hand[tileIndex]} else multiset{}) == Hands(s.players)
  {
    var me := s.players[s.current];
    if Plays(s, tileIndex) {
      HandsShrink(s.players, s.current, RemoveAt(me.hand, tileIndex), multiset{me.hand[tileIndex]});
    }
  }

  /**
   * Settling keeps the game valid: the remaining players are seated, their
   * hands hold at most TilesPerPlayer tiles, and the turn index names one of
   * them.
   */
  lemma SettleKeepsValid(b: TrailBoard, ps: seq<Player>, stack: seq<Tile>, bidx: nat, current: nat)
    requires WellFormed(b.grid) && AllSeated(b, ps) && |ps| > 0
    requires forall k :: 0 <= k < |ps| ==> |ps[k].hand| <= TilesPerPlayer
    ensures ValidState(Settle(b, ps, stack, bidx, current))
  {
    EliminationIsSurvivors(b, ps, stack);
    var survivors := Survivors(b, ps);
    SurvivorsAreTheAlive(b, ps);
    SurvivorsKeepHandsSmall(b, ps);
    RefillKeepsHandsSmall(survivors, stack + DeadHands(b, ps));
    RefillKeepsSeated(b, survivors, stack + DeadHands(b, ps));
  }

  /** Refill keeps every player on its trail. */
  lemma RefillKeepsSeated(b: TrailBoard, ps: seq<Player>, stack: seq<Tile>)
    requires AllSeated(b, ps)
    ensures AllSeated(b, Refill(ps, stack).0)
  {
    RefillDealsInOrder(ps, stack, 0);
    var qs := Refill(ps, stack).0;
    forall k | 0 <= k < |qs|
      ensures Seated(b, qs[k])
    {
      assert Seated(b, ps[k]);
    }
  }

  /** Every survivor is seated and alive. */
  lemma SurvivorsAlive(b: TrailBoard, ps: seq<Player>)
    requires AllSeated(b, ps)
    ensures forall k :: 0 <= k < |Survivors(b, ps)| ==> Seated(b, Survivors(b, ps)[k]) && Alive(b, Survivors(b, ps)[k])
  {
    SurvivorsAreTheAlive(b, ps);
    forall k | 0 <= k < |Survivors(b, ps)|
      ensures Seated(b, Survivors(b, ps)[k]) && Alive(b, Survivors(b, ps)[k])
    {
      assert Survivors(b, ps)[k] in Survivors(b, ps);
    }
  }

  /** Survivors come from `ps`, so their hands are as small as those of `ps`. */
  lemma SurvivorsKeepHandsSmall(b: TrailBoard, ps: seq<Player>)
    requires AllSeated(b, ps)
    requires forall k :: 0 <= k < |ps| ==> |ps[k].hand| <= TilesPerPlayer
    ensures forall k :: 0 <= k < |Survivors(b, ps)| ==> |Survivors(b, ps)[k].hand| <= TilesPerPlayer
  {
    SurvivorsAreTheAlive(b, ps);
    forall k | 0 <= k < |Survivors(b, ps)|
      ensures |Survivors(b, ps)[k].hand| <= TilesPerPlayer
    {
      assert Survivors(b, ps)[k] in ps;
    }
  }

  /** Settling loses no tile: hands and stack together keep their tiles. */
  lemma SettleConservesTiles(b: TrailBoard, ps: seq<Player>, stack: seq<Tile>, bidx: nat, current: nat)
    requires AllSeated(b, ps) && |ps| > 0
    ensures Pool(Settle(b, ps, stack, bidx, current)) == Hands(ps) + multiset(stack)
  {
    EliminationIsSurvivors(b, ps, stack);
    EliminationConservesTiles(b, ps);
    RefillConservesTiles(Survivors(b, ps), stack + DeadHands(b, ps), 0);
  }

  /**
   * After settling, the players are the survivors, in their order, each
   * still on its own trail, whose head is alive.
   */
  lemma SettleLeavesTheLiving(b: TrailBoard, ps: seq<Player>, stack: seq<Tile>, bidx: nat, current: nat)
    requires AllSeated(b, ps) && |ps| > 0
    ensures var r := Settle(b, ps, stack, bidx, current);
      |r.players| == |Survivors(b, ps)| &&
      forall k :: 0 <= k < |r.players| ==>
        r.players[k].username == Survivors(b, ps)[k].username &&
        r.players[k].boardIndex == Survivors(b, ps)[k].boardIndex &&
        Seated(b, r.players[k]) && Alive(b, r.players[k])
  {
    EliminationIsSurvivors(b, ps, stack);
    SurvivorsAlive(b, ps);
    RefillDealsInOrder(Survivors(b, ps), stack + DeadHands(b, ps), 0);
  }

  /**
   * Settling passes the turn on: with nobody eliminated to the next slot in
   * cyclic order; otherwise to the first remaining player whose board index
   * exceeds the mover's `bidx`, or to slot 0 when there is none.
   */
  lemma SettlePassesTurn(b: TrailBoard, ps: seq<Player>, stack: seq<Tile>, bidx: nat, current: nat)
    requires AllSeated(b, ps) && |ps| > 0
    ensures var r := Settle(b, ps, stack, bidx, current);
      var died := exists k :: 0 <= k < |ps| && !Alive(b, ps[k]);
      (!died ==> r.current == (current + 1) % |ps|) &&
      (died && r.current < |r.players| && r.players[r.current].boardIndex > bidx ==>
         forall k :: 0 <= k < r.current ==> r.players[k].boardIndex <= bidx) &&
      (died && (r.current >= |r.players| || r.players[r.current].boardIndex <= bidx) ==>
         r.current == 0 && forall k :: 0 <= k < |r.players| ==> r.players[k].boardIndex <= bidx)
  {
    EliminationIsSurvivors(b, ps, stack);
    SurvivorsAreTheAlive(b, ps);
    RefillDealsInOrder(Survivors(b, ps), stack + DeadHands(b, ps), 0);
  }

  /**
   * GameManager::register_player: a start the board refuses is an error;
   * otherwise the board opens a trail at the start and the new player
   * takes it, with the last min(TilesPerPlayer, stack size) tiles of the
   * stack, in order, as its hand.
   */
  function Register(s: GameState, username: string, start: Position): Result<GameState, Boards.BoardError>
  {
    match AddPlayer(s.board, start)
    case Err(e) => Err(e)
    case Ok((b, idx)) =>
      var k := DealFrom(|s.stack|);
      Ok(GameState(b, s.players + [Player(username, idx, s.stack[k..])], s.stack[..k], s.current))
  }

  /**
   * Registration fails exactly on a start off the outer ring, and then
   * changes nothing; otherwise it keeps the game valid, seats the new player
   * last on a fresh trail that starts at `start`, deals it the top
   * min(TilesPerPlayer, stack size) tiles and loses no tile.
   */
  lemma RegisterSeats(s: GameState, username: string, start: Position)
    requires ValidState(s)
    ensures var r := Register(s, username, start);
      (r.Err? <==> !IsValidStart(start)) &&
      (r.Ok? ==>
        var t := r.value;
        var me := t.players[|t.players| - 1];
        ValidState(t) &&
        t.players[..|s.players|] == s.players && me.username == username &&
        me.boardIndex == |s.board.trails| && t.board.trails[me.boardIndex] == [start] &&
        t.stack + me.hand == s.stack && |me.hand| == Min(TilesPerPlayer, |s.stack|) &&
        t.current == s.current &&
        Pool(t) == Pool(s))
  {
    var r := Register(s, username, start);
    if r.Ok? {
      var t := r.value;
      var k := DealFrom(|s.stack|);
      var me := Player(username, |s.board.trails|, s.stack[k..]);
      assert t.players == s.players + [me];
      NewSeatKeepsSeated(s.board, t.board, s.players, me);
      DealConserves(s.players, s.stack, me, k);
    }
  }

  /** Appending a trail keeps every player seated and seats a player on the new trail. */
  lemma NewSeatKeepsSeated(b: TrailBoard, b': TrailBoard, ps: seq<Player>, me: Player)
    requires AllSeated(b, ps) && |b'.trails| == |b.trails| + 1 && b'.trails[..|b.trails|] == b.trails
    requires me.boardIndex == |b.trails| && |b'.trails[me.boardIndex]| > 0
    ensures AllSeated(b', ps + [me])
  {
    forall j | 0 <= j < |ps + [me]|
      ensures Seated(b', (ps + [me])[j])
    {
      if j < |ps| {
        assert Seated(b, ps[j]);
        assert b'.trails[ps[j].boardIndex] == b.trails[ps[j].boardIndex];
      }
    }
  }

  /** Moving the top of the stack into a new player's hand loses no tile. */
  lemma DealConserves(ps: seq<Player>, stack: seq<Tile>, me: Player, k: nat)
    requires k <= |stack| && me.hand == stack[k..]
    ensures Hands(ps + [me]) + multiset(stack[..k]) == Hands(ps) + multiset(stack)
  {
    assert stack == stack[..k] + stack[k..];
    HandsOfConcat(ps, [me]);
    assert Hands([me]) == multiset(me.hand);
  }

  /**
   * A new game dealt from a shuffle of the catalogue holds exactly the
   * catalogue's tiles, all in the stack.
   */
  lemma NewGameHoldsCatalogue(stack: seq<Tile>)
    requires multiset(stack) == multiset(AllTiles())
    ensures ValidState(GameState(EmptyBoard(), [], stack, 0))
    ensures Pool(GameState(EmptyBoard(), [], stack, 0)) == multiset(AllTiles())
  {
    assert Hands([]) == multiset{};
  }

  /** A turn keeps the game valid. */
  lemma TurnKeepsValid(s: GameState, tileIndex: nat, facing: Direction, play: (TrailBoard, nat, Tile, Direction) -> TrailBoard)
    requires ValidState(s) && s.current < |s.players| && OnlyExtends(play)
    ensures ValidState(Turn(s, tileIndex, facing, play))
  {
    var (b, ps) := PlayFrom(s, tileIndex, facing, play);
    PlayKeepsSeated(s, tileIndex, facing, play);
    SettleKeepsValid(b, ps, s.stack, s.players[s.current].boardIndex, s.current);
  }

  /**
   * A turn loses no tile: the tiles in hands and stack afterwards, with the
   * tile played (if any), are the tiles in hands and stack before.
   */
  lemma TurnConservesTiles(s: GameState, tileIndex: nat, facing: Direction, play: (TrailBoard, nat, Tile, Direction) -> TrailBoard)
    requires ValidState(s) && s.current < |s.players| && OnlyExtends(play)
    ensures var me := s.players[s.current];
      Pool(Turn(s, tileIndex, facing, play)) + (if Plays(s, tileIndex) then multiset{me.hand[tileIndex]} else multiset{}) ==
      Pool(s)
  {
    var (b, ps) := PlayFrom(s, tileIndex, facing, play);
    PlayKeepsSeated(s, tileIndex, facing, play);
    PlayConservesTiles(s, tileIndex, facing, play);
    SettleConservesTiles(b, ps, s.stack, s.players[s.current].boardIndex, s.current);
  }

  class GameManager {
    var board: TrailBoard
    var tileStack: seq<Tile>
    var players: seq<Player>
    var currentPlayerIdx: nat

    ghost function State(): GameState
      reads this
    {
      GameState(board, players, tileStack, currentPlayerIdx)
    }

    ghost predicate Valid()
      reads this
    {
      ValidState(State())
    }

    /**
     * GameManager::new: an empty board, no players and the stack `stack`,
     * which stands for the shuffled catalogue.
     */
    constructor (stack: seq<Tile>)
      ensures Valid()
      ensures State() == GameState(EmptyBoard(), [], stack, 0)
      ensures Pool(State()) == multiset(stack)
    {
      board := EmptyBoard();
      tileStack := stack;
      players := [];
      currentPlayerIdx := 0;
    }

    /** GameManager::register_player, as Register describes it. */
    method RegisterPlayer(username: string, start: Position) returns (r: Result<(), Boards.BoardError>)
      requires Valid()
      modifies this
      ensures Valid()
      ensures match Register(old(State()), username, start)
        case Ok(t) => r == Ok(()) && State() == t
        case Err(e) => r == Err(e) && State() == old(State())
    {
      RegisterSeats(State(), username, start);
      var k := DealFrom(|tileStack|);
      var added := AddPlayer(board, start);
      if added.Err? {
        return Err(added.error);
      }
      var (board', idx) := added.value;
      players := players + [Player(username, idx, tileStack[k..])];
      tileStack := tileStack[..k];
      board := board';
      r := Ok(());
    }

    /**
     * GameManager::take_turn: the current player plays hand tile
     * `tileIndex` facing `facing` (nothing is played when the index is out
     * of range), and the turn runs as Turn describes.  Returns how many
     * players remain.
     */
    method TakeTurn(tileIndex: nat, facing: Direction, play: (TrailBoard, nat, Tile, Direction) -> TrailBoard)
      returns (remaining: nat)
      requires Valid() && currentPlayerIdx < |players| && OnlyExtends(play)
      modifies this
      ensures State() == Turn(old(State()), tileIndex, facing, play)
      ensures Valid() && remaining == |players|
    {
      ghost var s := State();
      var bidx := players[currentPlayerIdx].boardIndex;
      PlayKeepsSeated(s, tileIndex, facing, play);
      PlayFromHand(tileIndex, facing, play);
      ghost var b, ps := board, players;
      var newlyDead := EliminateDead();
      ghost var survivors, stack' := players, tileStack;
      RefillHands();
      currentPlayerIdx := NextIndex(newlyDead, players, bidx, currentPlayerIdx);
      assert (survivors, stack') == EliminateFrom(b, ps, s.stack, 0);
      assert (players, tileStack) == Refill(survivors, stack');
      assert State() == Settle(b, ps, s.stack, bidx, s.current);
      TurnKeepsValid(s, tileIndex, facing, play);
      remaining := |players|;
    }

    /** The first block of take_turn, as PlayFrom describes it. */
    method PlayFromHand(tileIndex: nat, facing: Direction, play: (TrailBoard, nat, Tile, Direction) -> TrailBoard)
      requires currentPlayerIdx < |players|
      modifies this`players, this`board
      ensures (board, players) == PlayFrom(old(State()), tileIndex, facing, play)
    {
      var me := players[currentPlayerIdx];
      if tileIndex < |me.hand| {
        var tile := me.hand[tileIndex];
        players := players[currentPlayerIdx := me.(hand := RemoveAt(me.hand, tileIndex))];
        board := play(board, me.boardIndex, tile, facing);
      }
    }

    /**
     * The elimination loop of take_turn: remove, in order, every player
     * whose trail head is dead and append its hand to the stack.
     */
    method EliminateDead() returns (newlyDead: bool)
      requires AllSeated(board, players)
      modifies this`players, this`tileStack
      ensures (players, tileStack) == EliminateFrom(board, old(players), old(tileStack), 0)
      ensures newlyDead <==> |players| < |old(players)|
    {
      newlyDead := false;
      var idx := 0;
      while idx < |players|
        invariant idx <= |players| <= |old(players)| && AllSeated(board, players)
        invariant EliminateFrom(board, players, tileStack, idx) == EliminateFrom(board, old(players), old(tileStack), 0)
        invariant newlyDead <==> |players| < |old(players)|
        decreases |players| - idx
      {
        if !Head(board, players[idx].boardIndex).alive {
          newlyDead := true;
          var dead := players[idx];
          players := RemoveAt(players, idx);
          tileStack := tileStack + dead.hand;
        } else {
          idx := idx + 1;
        }
      }
    }

    /**
     * The refill loop of take_turn: each player holding fewer than
     * TilesPerPlayer tiles draws the top tile of the stack, until the stack
     * runs out.
     */
    method RefillHands()
      modifies this`players, this`tileStack
      ensures (players, tileStack) == Refill(old(players), old(tileStack))
      ensures |players| == |old(players)|
    {
      var n := |players|;
      for i := 0 to n
        invariant |players| == n
        invariant RefillFrom(players, tileStack, i) == Refill(old(players), old(tileStack))
      {
        var p := players[i];
        if |p.hand| < TilesPerPlayer {
          if tileStack == [] {
            break;
          }
          var top := tileStack[|tileStack| - 1];
          tileStack := tileStack[..|tileStack| - 1];
          players := players[i := p.(hand := p.hand + [top])];
        }
      }
    }

    /** GameManager::current_player: the player whose turn it is. */
    function CurrentPlayer(): (p: Player)
      reads this
      requires |players| > 0 && currentPlayerIdx < |players|
      ensures p in players
    {
      players[currentPlayerIdx]
    }

    /** GameManager::get_player: the first player with the given name. */
    function GetPlayer(name: string): (r: Option<Player>)
      reads this
      ensures r.Some? ==> r.value in players && r.value.username == name
      ensures r.None? <==> forall k :: 0 <= k < |players| ==> players[k].username != name
    {
      FindPlayer(players, name)
    }
  }

  /**
   * The turn index after a turn: after a death, the first remaining player
   * whose board index exceeds the mover's (else 0); otherwise the next
   * player in cyclic order.
   */
  function NextIndex(newlyDead: bool, ps: seq<Player>, bidx: nat, idx: nat): (r: nat)
    requires !newlyDead ==> |ps| > 0
    ensures |ps| > 0 ==> r < |ps|
    ensures |ps| == 0 ==> r == 0
  {
    if newlyDead then
      match FirstAbove(ps, bidx)
      case Some(k) => k
      case None => 0
    else (idx + 1) % |ps|
  }
}
