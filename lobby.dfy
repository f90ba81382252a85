/**
 * The lobby of src/lobby.rs: seats numbered round the edge of the board,
 * the checks made before a game starts, and the reordering of the seats by
 * start position that prepares the game.
 */
module Lobbies {
  import opened Wrappers
  import opened Tiles
  import opened Trails
  import Boards
  import opened Permutations

  /** NOT_READY: the seat number of a player who has not picked a start. */
  const NotReady: int := 48

  /** EdgePos: a seat number, an i8. */
  type EdgePos = x: int | -128 <= x < 128

  /**
   * Rust's `/ 2` on a signed integer: the quotient rounds toward zero, so
   * the remainder it leaves has the sign of `a` (or is zero).
   */
  function Half(a: int): (q: int)
    ensures a >= 0 ==> 0 <= a - 2 * q <= 1
    ensures a < 0 ==> -1 <= a - 2 * q <= 0
  {
    if a >= 0 then a / 2 else -((-a) / 2)
  }

  /** Truncating division is odd: negating the dividend negates the quotient. */
  lemma HalfNegates(a: int)
    ensures Half(-a) == -Half(a)
  {
  }

  /**
   * Rust's `% 2` on a signed integer: zero exactly for even `a`, and
   * otherwise 1 or -1 with the sign of `a`.
   */
  function Parity(a: int): (r: int)
    ensures -1 <= r <= 1
    ensures r == 0 <==> a % 2 == 0
    ensures r != 0 ==> (r > 0 <==> a > 0)
  {
    a - 2 * Half(a)
  }

  /**
   * edge_position: seats 0-11 run left to right along the top edge (two
   * ports per cell, F then E), 12-23 down the right edge (H, G), 24-35
   * right to left along the bottom (B, A) and 36-47 up the left edge (D, C).
   * A seat from 48 on panics; a negative i8 falls in the first branch.
   */
  function EdgePosition(pos: EdgePos): (p: Position)
    requires pos < NotReady
    ensures p.alive
  {
    if pos < 12 then Position(-1, Half(pos), if Parity(pos) == 0 then F else E, true)
    else if pos < 24 then Position(Half(pos - 12), 6, if Parity(pos) == 0 then H else G, true)
    else if pos < 36 then Position(6, Half(35 - pos), if Parity(pos) == 0 then B else A, true)
    else Position(Half(47 - pos), -1, if Parity(pos) == 0 then D else C, true)
  }

  /** The seat number of a start on the edge: the inverse of EdgePosition. */
  function EdgeIndex(p: Position): int
  {
    match p.port
    case F => 2 * p.col
    case E => 2 * p.col + 1
    case H => 12 + 2 * p.row
    case G => 13 + 2 * p.row
    case B => 34 - 2 * p.col
    case A => 35 - 2 * p.col
    case D => 46 - 2 * p.row
    case C => 47 - 2 * p.row
  }

  /** A start on the edge of the board, beside one of its 6 x 6 cells. */
  predicate OnEdge(p: Position)
  {
    IsValidStart(p) &&
    match p.port
    case A | B | E | F => 0 <= p.col < Boards.Size
    case C | D | G | H => 0 <= p.row < Boards.Size
  }

  /**
   * Every seat 0-47 is an alive start on the edge of the board, and its
   * number is recovered from it, so distinct seats are distinct starts.
   */
  lemma EdgePositionIsStart(pos: int)
    requires 0 <= pos < NotReady
    ensures OnEdge(EdgePosition(pos)) && EdgePosition(pos).alive
    ensures EdgeIndex(EdgePosition(pos)) == pos
  {
  }

  /** Every alive start on the edge of the board is the position of its seat. */
  lemma EdgePositionOnto(p: Position)
    requires OnEdge(p) && p.alive
    ensures 0 <= EdgeIndex(p) < NotReady
    ensures EdgePosition(EdgeIndex(p)) == p
  {
  }

  /** Distinct seats give distinct starts. */
  lemma EdgePositionInjective(pos: int, pos': int)
    requires 0 <= pos < NotReady && 0 <= pos' < NotReady
    requires EdgePosition(pos) == EdgePosition(pos')
    ensures pos == pos'
  {
    EdgePositionIsStart(pos);
    EdgePositionIsStart(pos');
  }

  /**
   * A negative seat is not refused: it takes the top-edge branch, and
   * truncating division sends seat -1 to the start of seat 1.
   */
  lemma NegativeSeatAliases()
    ensures EdgePosition(-1) == EdgePosition(1) == Position(-1, 0, E, true)
  {
  }

  /** The examples of test_edge_position. */
  lemma EdgePositionExamples()
    ensures EdgePosition(0) == Position(-1, 0, F, true)
    ensures EdgePosition(1) == Position(-1, 0, E, true)
    ensures EdgePosition(2) == Position(-1, 1, F, true)
    ensures EdgePosition(24) == Position(6, 5, B, true)
    ensures EdgePosition(35) == Position(6, 0, A, true)
  {
  }

  // ---------------------------------------------------------------------
  // Ready seats

  /** The slots of `starts` whose seat is below NotReady, in order. */
  function ReadySeats(starts: seq<int>): (r: seq<nat>)
    ensures forall j :: 0 <= j < |r| ==> r[j] < |starts| && starts[r[j]] < NotReady
  {
    if starts == [] then []
    else
      var init := ReadySeats(starts[..|starts| - 1]);
      if starts[|starts| - 1] < NotReady then init + [|starts| - 1] else init
  }

  /**
   * ReadySeats lists every ready slot, and only those, in increasing
   * order.
   */
  lemma {:induction false} ReadySeatsAreTheReady(starts: seq<int>)
    ensures var r := ReadySeats(starts);
      (forall j, j' :: 0 <= j < j' < |r| ==> r[j] < r[j']) &&
      (forall k :: 0 <= k < |starts| && starts[k] < NotReady ==> k in r)
  {
    if starts != [] {
      var init := starts[..|starts| - 1];
      ReadySeatsAreTheReady(init);
      assert forall k :: 0 <= k < |init| ==> init[k] == starts[k];
    }
  }

  /** The shorter of two lengths: zip stops at the end of the shorter side. */
  function ZipLength<S, T>(xs: seq<S>, ys: seq<T>): (n: nat)
    ensures n <= |xs| && n <= |ys| && (n == |xs| || n == |ys|)
  {
    if |xs| <= |ys| then |xs| else |ys|
  }

  /** player_names: the names of the ready seats, in seat order. */
  function PlayerNames(names: seq<string>, starts: seq<int>): (r: seq<string>)
    ensures var seats := ReadySeats(starts[..ZipLength(names, starts)]);
      |r| == |seats| && forall j :: 0 <= j < |r| ==> r[j] == names[seats[j]]
  {
    var seats := ReadySeats(starts[..ZipLength(names, starts)]);
    seq(|seats|, j requires 0 <= j < |seats| => names[seats[j]])
  }

  /**
   * into_seated_players: each ready seat's name with the start of its
   * seat, in seat order.
   */
  function SeatedPlayers(names: seq<string>, starts: seq<EdgePos>): (r: seq<(string, Position)>)
  {
    var seats := ReadySeats(starts[..ZipLength(names, starts)]);
    seq(|seats|, j requires 0 <= j < |seats| => (names[seats[j]], EdgePosition(starts[seats[j]])))
  }

  /**
   * The seated players are the ready ones, in seat order: the j-th is the
   * name of the j-th ready slot, paired with the start of that same slot,
   * and a seat 0-47 gives a start on the edge whose seat number is that seat.
   */
  lemma SeatedPlayersAreReady(names: seq<string>, starts: seq<EdgePos>)
    ensures var r, seats := SeatedPlayers(names, starts), ReadySeats(starts[..ZipLength(names, starts)]);
      |r| == |seats| == |PlayerNames(names, starts)| &&
      forall j :: 0 <= j < |r| ==>
        seats[j] < ZipLength(names, starts) && starts[seats[j]] < NotReady &&
        r[j] == (PlayerNames(names, starts)[j], EdgePosition(starts[seats[j]])) &&
        r[j].0 == names[seats[j]] &&
        (starts[seats[j]] >= 0 ==> OnEdge(r[j].1) && EdgeIndex(r[j].1) == starts[seats[j]])
  {
    var r := SeatedPlayers(names, starts);
    var seats := ReadySeats(starts[..ZipLength(names, starts)]);
    forall j | 0 <= j < |r|
      ensures starts[seats[j]] >= 0 ==> OnEdge(r[j].1) && EdgeIndex(r[j].1) == starts[seats[j]]
    {
      var k := seats[j];
      if starts[k] >= 0 {
        EdgePositionIsStart(starts[k]);
      }
    }
  }

  // ---------------------------------------------------------------------
  // Seat order (the sort of prepare_for_game)

  /** 0, 1, ..., n-1. */
  function Range(n: nat): (r: seq<nat>)
    ensures |r| == n && forall k :: 0 <= k < n ==> r[k] == k
  {
    seq(n, k => k)
  }

  /** The slots of `idx` ordered by their keys. */
  predicate SortedByKey(idx: seq<nat>, keys: seq<int>)
    requires forall k :: 0 <= k < |idx| ==> idx[k] < |keys|
  {
    forall k, l :: 0 <= k < l < |idx| ==> keys[idx[k]] <= keys[idx[l]]
  }

  /**
   * Insert slot `x` into `sorted` after every slot whose key is at most its
   * own, so that slots with equal keys keep their order.
   */
  function Insert(x: nat, sorted: seq<nat>, keys: seq<int>): (r: seq<nat>)
    requires x < |keys| && forall k :: 0 <= k < |sorted| ==> sorted[k] < |keys|
    ensures |r| == |sorted| + 1 && multiset(r) == multiset(sorted) + multiset{x}
    ensures forall k :: 0 <= k < |r| ==> r[k] < |keys|
  {
    if sorted == [] then [x]
    else if keys[x] < keys[sorted[0]] then [x] + sorted
    else
      assert sorted == [sorted[0]] + sorted[1..];
      [sorted[0]] + Insert(x, sorted[1..], keys)
  }

  /**
   * sort_by_key on the slots `idx` with the keys `keys`: a stable insertion
   * sort, taking the slots in order.
   */
  function SortByKey(idx: seq<nat>, keys: seq<int>): (r: seq<nat>)
    requires forall k :: 0 <= k < |idx| ==> idx[k] < |keys|
    ensures |r| == |idx| && multiset(r) == multiset(idx)
    ensures forall k :: 0 <= k < |r| ==> r[k] < |keys|
  {
    if idx == [] then []
    else
      var init := idx[..|idx| - 1];
      assert idx == init + [idx[|idx| - 1]];
      Insert(idx[|idx| - 1], SortByKey(init, keys), keys)
  }

  /** Insertion keeps the slots ordered by their keys. */
  lemma {:induction false} InsertSorts(x: nat, sorted: seq<nat>, keys: seq<int>)
    requires x < |keys| && forall k :: 0 <= k < |sorted| ==> sorted[k] < |keys|
    requires SortedByKey(sorted, keys)
    ensures SortedByKey(Insert(x, sorted, keys), keys)
  {
    if sorted != [] && keys[x] >= keys[sorted[0]] {
      InsertSorts(x, sorted[1..], keys);
      var r := Insert(x, sorted, keys);
      assert r == [sorted[0]] + Insert(x, sorted[1..], keys);
      forall l | 0 < l < |r|
        ensures keys[r[0]] <= keys[r[l]]
      {
        assert r[l] in multiset(Insert(x, sorted[1..], keys));
        assert r[l] in multiset(sorted[1..]) + multiset{x};
        if r[l] != x {
          assert r[l] in sorted[1..];
        }
      }
    }
  }

  /** sort_by_key orders the slots by their keys. */
  lemma {:induction false} SortByKeySorts(idx: seq<nat>, keys: seq<int>)
    requires forall k :: 0 <= k < |idx| ==> idx[k] < |keys|
    ensures SortedByKey(SortByKey(idx, keys), keys)
  {
    if idx != [] {
      var init := idx[..|idx| - 1];
      SortByKeySorts(init, keys);
      InsertSorts(idx[|idx| - 1], SortByKey(init, keys), keys);
    }
  }

  /** Slots with equal keys appear in increasing order. */
  predicate StableByKey(idx: seq<nat>, keys: seq<int>)
    requires forall k :: 0 <= k < |idx| ==> idx[k] < |keys|
  {
    forall k, l :: 0 <= k < l < |idx| && keys[idx[k]] == keys[idx[l]] ==> idx[k] < idx[l]
  }

  /** Prefixing a slot that precedes every later slot of equal key keeps stability. */
  lemma StableCons(a: nat, rest: seq<nat>, keys: seq<int>)
    requires a < |keys| && forall k :: 0 <= k < |rest| ==> rest[k] < |keys|
    requires StableByKey(rest, keys)
    requires forall l :: 0 <= l < |rest| && keys[a] == keys[rest[l]] ==> a < rest[l]
    ensures StableByKey([a] + rest, keys)
  {
    var r := [a] + rest;
    forall k, l | 0 <= k < l < |r| && keys[r[k]] == keys[r[l]]
      ensures r[k] < r[l]
    {
      if k > 0 {
        assert r[k] == rest[k - 1] && r[l] == rest[l - 1];
      } else {
        assert r[l] == rest[l - 1];
      }
    }
  }

  /** Inserting a slot above all others keeps equal keys in slot order. */
  lemma {:induction false} InsertStable(x: nat, sorted: seq<nat>, keys: seq<int>)
    requires x < |keys| && forall k :: 0 <= k < |sorted| ==> sorted[k] < |keys| && sorted[k] < x
    requires SortedByKey(sorted, keys) && StableByKey(sorted, keys)
    ensures StableByKey(Insert(x, sorted, keys), keys)
  {
    if sorted == [] {
    } else if keys[x] < keys[sorted[0]] {
      StableCons(x, sorted, keys);
    } else {
      var rest := sorted[1..];
      assert SortedByKey(rest, keys) && StableByKey(rest, keys) by {
        forall k, l | 0 <= k < l < |rest|
          ensures keys[rest[k]] <= keys[rest[l]]
          ensures keys[rest[k]] == keys[rest[l]] ==> rest[k] < rest[l]
        {
          assert rest[k] == sorted[k + 1] && rest[l] == sorted[l + 1];
        }
      }
      InsertStable(x, rest, keys);
      var tail := Insert(x, rest, keys);
      forall l | 0 <= l < |tail| && keys[sorted[0]] == keys[tail[l]]
        ensures sorted[0] < tail[l]
      {
        assert tail[l] in multiset(rest) + multiset{x};
        if tail[l] != x {
          assert tail[l] in rest;
          var m :| 0 <= m < |rest| && rest[m] == tail[l];
          assert sorted[m + 1] == tail[l];
        }
      }
      StableCons(sorted[0], tail, keys);
    }
  }

  /** sort_by_key is stable: on increasing slots, equal keys keep slot order. */
  lemma {:induction false} SortByKeyStable(idx: seq<nat>, keys: seq<int>)
    requires forall k :: 0 <= k < |idx| ==> idx[k] < |keys|
    requires forall k, l :: 0 <= k < l < |idx| ==> idx[k] < idx[l]
    ensures StableByKey(SortByKey(idx, keys), keys)
  {
    if idx != [] {
      var init := idx[..|idx| - 1];
      var x := idx[|idx| - 1];
      var sorted := SortByKey(init, keys);
      SortByKeyStable(init, keys);
      SortByKeySorts(init, keys);
      forall k | 0 <= k < |sorted|
        ensures sorted[k] < x
      {
        assert sorted[k] in multiset(init);
        assert sorted[k] in init;
      }
      InsertStable(x, sorted, keys);
    }
  }

  /** The order in which prepare_for_game reseats the lobby: the slots sorted by seat. */
  function SeatOrder(starts: seq<int>): (r: seq<nat>)
    ensures |r| == |starts| && multiset(r) == multiset(Range(|starts|))
  {
    SortByKey(Range(|starts|), starts)
  }

  /** How often `x` occurs in 0, 1, ..., n-1: once below n. */
  lemma {:induction false} RangeCount(n: nat, x: nat)
    ensures multiset(Range(n))[x] == if x < n then 1 else 0
  {
    if n > 0 {
      assert Range(n) == Range(n - 1) + [n - 1];
      RangeCount(n - 1, x);
    }
  }

  /** A sequence with the elements of 0, 1, ..., |p|-1 is a permutation. */
  lemma RangeShuffleIsPermutation(p: seq<nat>)
    requires multiset(p) == multiset(Range(|p|))
    ensures IsPermutation(p)
  {
    forall k | 0 <= k < |p|
      ensures p[k] < |p|
    {
      assert p[k] in multiset(p);
      RangeCount(|p|, p[k]);
    }
    forall k, l | 0 <= k < l < |p|
      ensures p[k] != p[l]
    {
      if p[k] == p[l] {
        assert p == p[..l] + [p[l]] + p[l + 1..];
        assert p[k] in p[..l];
        assert multiset(p)[p[k]] >= multiset(p[..l])[p[k]] + 1;
        RangeCount(|p|, p[k]);
      }
    }
  }

  /**
   * The seat order is a permutation of the slots that sorts the seats, and
   * it is stable: slots with equal seats keep their order.
   */
  lemma SeatOrderSorts(starts: seq<int>)
    ensures var p := SeatOrder(starts);
      IsPermutation(p) &&
      (forall k, l :: 0 <= k < l < |p| ==> Gather(starts, p)[k] <= Gather(starts, p)[l]) &&
      (forall k, l :: 0 <= k < l < |p| && Gather(starts, p)[k] == Gather(starts, p)[l] ==> p[k] < p[l])
  {
    RangeShuffleIsPermutation(SeatOrder(starts));
    SortByKeySorts(Range(|starts|), starts);
    SortByKeyStable(Range(|starts|), starts);
  }

  /** Errors of run_pregame_checks, in the order they are checked. */
  datatype PregameError = TooLarge | NotHost | NobodyReady

  /** The largest lobby run_pregame_checks lets start. */
  const MaxLobbySize: nat := 24

  class Lobby {
    var names: array<string>
    var startPositions: array<EdgePos>
    var maxNumPlayers: nat

    /** Names and seats run in parallel. */
    ghost predicate Valid()
      reads this
    {
      names.Length == startPositions.Length
    }

    /** Lobby::new: the creator alone, not ready, in a lobby for two. */
    constructor (username: string)
      ensures Valid() && fresh(names) && fresh(startPositions)
      ensures names[..] == [username] && startPositions[..] == [NotReady] && maxNumPlayers == 2
      ensures Host() == username
      ensures ReadyNames() == []
    {
      names := new string[1](_ => username);
      startPositions := new EdgePos[1](_ => NotReady);
      maxNumPlayers := 2;
      new;
      assert startPositions[..] == [NotReady];
      assert names[..] == [username];
      SoloLobbyHasNoPlayers(username);
    }

    /** Lobby::host: the name in the first seat. */
    function Host(): string
      reads this, names
      requires names.Length > 0
    {
      names[0]
    }

    /** Lobby::player_names. */
    function ReadyNames(): seq<string>
      reads this, names, startPositions
    {
      PlayerNames(names[..], startPositions[..])
    }

    /**
     * Lobby::run_pregame_checks: refuses a lobby for more than 24 players,
     * then a caller other than the host, then a lobby where nobody is
     * ready; changes nothing.
     */
    function RunPregameChecks(username: string): (r: Result<(), PregameError>)
      reads this, names, startPositions
      requires maxNumPlayers > MaxLobbySize || names.Length > 0
      ensures r == Err(TooLarge) <==> maxNumPlayers > MaxLobbySize
      ensures r == Err(NotHost) <==> maxNumPlayers <= MaxLobbySize && username != Host()
      ensures r == Err(NobodyReady) <==>
        maxNumPlayers <= MaxLobbySize && username == Host() &&
        forall k :: 0 <= k < startPositions.Length ==> startPositions[k] >= NotReady
      ensures r.Ok? <==>
        maxNumPlayers <= MaxLobbySize && username == Host() &&
        exists k :: 0 <= k < startPositions.Length && startPositions[k] < NotReady
    {
      if maxNumPlayers > MaxLobbySize then Err(TooLarge)
      else if username != Host() then Err(NotHost)
      else if forall k :: 0 <= k < startPositions.Length ==> startPositions[k] >= NotReady then Err(NobodyReady)
      else Ok(())
    }

    /**
     * The sort part of Lobby::prepare_for_game: order the slots by seat
     * (stably), then move the names and the seats by that order, so that the
     * seats ascend and each name keeps its seat.
     */
    method PrepareForGame()
      requires Valid() && names.Length < Mark
      modifies names, startPositions
      ensures Valid()
      ensures var p := SeatOrder(old(startPositions[..]));
        names[..] == Gather(old(names[..]), p) && startPositions[..] == Gather(old(startPositions[..]), p)
    {
      var indices := SortedSlots(startPositions[..]);
      ApplyPermutation(indices, names);
      ApplyPermutation(indices, startPositions);
    }
  }

  /**
   * The slots 0, 1, ..., n-1 collected into a fresh vector and sorted by
   * their seats, as prepare_for_game builds its `indices`.
   */
  method SortedSlots(starts: seq<int>) returns (indices: array<nat>)
    ensures fresh(indices) && indices[..] == SeatOrder(starts)
    ensures indices.Length == |starts| && IsPermutation(indices[..])
  {
    var order := SeatOrder(starts);
    RangeShuffleIsPermutation(order);
    indices := new nat[|order|](k => if 0 <= k < |order| then order[k] else 0);
    assert indices[..] == order;
  }

  /** A fresh lobby has nobody ready: test_solo_lobby. */
  lemma SoloLobbyHasNoPlayers(username: string)
    ensures PlayerNames([username], [NotReady]) == []
  {
    assert [NotReady][..ZipLength([username], [NotReady])] == [NotReady];
    assert ReadySeats([NotReady]) == ReadySeats([]);
  }
}
