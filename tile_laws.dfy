/** Laws of the port and rotation algebra and of the tile catalogue (src/tiles.rs). */
module TileLaws {
  import opened Wrappers
  import opened Tiles

  /** Turning left from South visits East, North, West and South again (the unit test of tiles.rs). */
  lemma TurnLeftCycle(d: Direction)
    ensures TurnLeft(South) == East && TurnLeft(East) == North
    ensures TurnLeft(North) == West && TurnLeft(West) == South
    ensures TurnLeft(TurnLeft(TurnLeft(TurnLeft(d)))) == d
    ensures TurnLeft(d) != d && Opposite(d) != d
  {
  }

  /** The two quarter turns of a port undo each other, and four quarter turns are the identity. */
  lemma PortTurnsInverse(p: Port)
    ensures TurnPortRight(TurnPortLeft(p)) == p
    ensures TurnPortLeft(TurnPortRight(p)) == p
    ensures TurnPortLeft(TurnPortLeft(TurnPortLeft(TurnPortLeft(p)))) == p
    ensures FacingSide(TurnPortLeft(p)) == Opposite(TurnLeft(FacingSide(p)))
  {
  }

  /** Flipping twice is the identity, and a flipped port lies on the opposite side. */
  lemma FlipInvolution(p: Port)
    ensures Flip(Flip(p)) == p
    ensures Flip(p) != p
    ensures FacingSide(Flip(p)) == Opposite(FacingSide(p))
  {
  }

  /** Under every facing, unnormalising undoes normalising and the other way round. */
  lemma NormalizeRoundTrip(t: Tile, p: Port)
    ensures UnnormalizePort(t, NormalizePort(t, p)) == p
    ensures NormalizePort(t, UnnormalizePort(t, p)) == p
  {
  }

  /** rotate_left changes the facing only; four rotations restore the tile. */
  lemma RotateLeftFacingOnly(t: Tile)
    ensures RotateLeft(t).layout == t.layout
    ensures RotateLeft(t).facing == TurnLeft(t.facing) != t.facing
    ensures RotateLeft(RotateLeft(RotateLeft(RotateLeft(t)))) == t
  {
  }

  /**
   * From North and from East, a left rotation of the tile is a right quarter
   * turn of the port before normalising, as a rotation should be.
   */
  lemma NormalizeUnderQuarterTurn(t: Tile, p: Port)
    requires t.facing == North || t.facing == East
    ensures NormalizePort(RotateLeft(t), p) == NormalizePort(t, TurnPortRight(p))
  {
  }

  /**
   * South is normalised by Flip, a mirror image, not by two quarter turns: the
   * law above fails on the way from West to South.
   */
  lemma SouthFacingIsMirror(l: Layout)
    ensures NormalizePort(Tile(l, South), A) == F
    ensures NormalizePort(RotateLeft(Tile(l, West)), A) != NormalizePort(Tile(l, West), TurnPortRight(A))
    ensures NormalizePort(Tile(l, South), A) != TurnPortLeft(TurnPortLeft(A))
  {
  }

  /**
   * turn_left turns the grid step a quarter counter-clockwise, and the
   * opposite side reverses it: the moves the board makes agree with the sides.
   */
  lemma TurnsRotateOffsets(d: Direction)
    ensures GridOffsets(TurnLeft(d)) == (-GridOffsets(d).1, GridOffsets(d).0)
    ensures GridOffsets(Opposite(d)) == (-GridOffsets(d).0, -GridOffsets(d).1)
  {
  }

  /** A port is determined by its side and by whether it leads on that side in clockwise order. */
  lemma PortBySideAndOrder(p: Port, q: Port)
    ensures p == q <==> FacingSide(p) == FacingSide(q) && Leading(p) == Leading(q)
  {
  }

  /**
   * Port::turn_left moves a port to the side a right turn reaches and
   * Port::turn_right to the side a left turn reaches, both keeping its place
   * on the side; Port::flip moves it to the opposite side and swaps its place.
   */
  lemma PortMovesBySide(p: Port)
    ensures FacingSide(TurnPortLeft(p)) == Opposite(TurnLeft(FacingSide(p))) && Leading(TurnPortLeft(p)) == Leading(p)
    ensures FacingSide(TurnPortRight(p)) == TurnLeft(FacingSide(p)) && Leading(TurnPortRight(p)) == Leading(p)
    ensures FacingSide(Flip(p)) == Opposite(FacingSide(p)) && Leading(Flip(p)) != Leading(p)
  {
  }

  /**
   * Tile::normalize_port keeps a port's side only for a north facing, and
   * swaps its place on the side only for a south facing (a mirror, not a turn).
   */
  lemma NormalizeBySide(t: Tile, p: Port)
    ensures FacingSide(NormalizePort(t, p)) == FacingSide(p) <==> t.facing == North
    ensures Leading(NormalizePort(t, p)) == Leading(p) <==> t.facing != South
  {
  }

  /** In a list of pairs where the partner of `s` occurs once, that partner is another port whose partner is `s`. */
  lemma {:induction false} PartnerSymmetric(ps: seq<Pair>, s: Port)
    requires Partner(ps, s).Some?
    requires Occurrences(ps, Partner(ps, s).value) == 1
    ensures Partner(ps, s).value != s
    ensures Partner(ps, Partner(ps, s).value) == Some(s)
  {
    var q := Partner(ps, s).value;
    if s == ps[0].first || s == ps[0].second {
    } else {
      assert Partner(ps, s) == Partner(ps[1..], s);
      assert Occurrences(ps[1..], q) > 0;
      assert ps[0].first != q && ps[0].second != q;
      PartnerSymmetric(ps[1..], s);
    }
  }

  /** With a perfect-matching layout traverse never reaches the panic. */
  lemma TraverseDefined(t: Tile, p: Port)
    requires IsPerfectMatching(t.layout)
    ensures Traverse(t, p).Some?
  {
    assert Occurrences(Pairs(t.layout), NormalizePort(t, Flip(p))) == 1;
  }

  /**
   * Consistency: entering the tile where a path leaves it leads back to where
   * the path came in, and a path never leaves by the port it entered through.
   */
  lemma TraverseConsistent(t: Tile, p: Port)
    requires IsPerfectMatching(t.layout)
    ensures Traverse(t, p).Some?
    ensures Traverse(t, Flip(Traverse(t, p).value)) == Some(Flip(p))
    ensures Traverse(t, p).value != Flip(p)
  {
    TraverseDefined(t, p);
    var s := NormalizePort(t, Flip(p));
    var q := Partner(Pairs(t.layout), s).value;
    assert Occurrences(Pairs(t.layout), q) == 1;
    PartnerSymmetric(Pairs(t.layout), s);
    NormalizeRoundTrip(t, q);
    NormalizeRoundTrip(t, s);
    FlipInvolution(p);
    FlipInvolution(UnnormalizePort(t, q));
    assert NormalizePort(t, Flip(Flip(UnnormalizePort(t, q)))) == q;
    NormalizeRoundTrip(t, Flip(p));
  }

  /** 1 when `p` is one end of `pr`, 2 when both, 0 otherwise. */
  function Ends(pr: Pair, p: Port): nat
  {
    (if pr.first == p then 1 else 0) + (if pr.second == p then 1 else 0)
  }

  lemma OccurrencesInLayout(l: Layout, p: Port)
    ensures Occurrences(Pairs(l), p) == Ends(l.p0, p) + Ends(l.p1, p) + Ends(l.p2, p) + Ends(l.p3, p)
  {
    var ps := Pairs(l);
    assert [l.p3][1..] == [];
    assert Occurrences([l.p3], p) == Ends(l.p3, p);
    assert [l.p2, l.p3][1..] == [l.p3];
    assert Occurrences([l.p2, l.p3], p) == Ends(l.p2, p) + Occurrences([l.p3], p);
    assert [l.p1, l.p2, l.p3][1..] == [l.p2, l.p3];
    assert Occurrences([l.p1, l.p2, l.p3], p) == Ends(l.p1, p) + Occurrences([l.p2, l.p3], p);
    assert ps[1..] == [l.p1, l.p2, l.p3];
  }

  /** The eight slots of the layout hold eight different ports. */
  predicate SlotsDistinct(l: Layout)
  {
    var a, b, c, d, e, f, g, h := l.p0.first, l.p0.second, l.p1.first, l.p1.second,
                                  l.p2.first, l.p2.second, l.p3.first, l.p3.second;
    a != b && a != c && a != d && a != e && a != f && a != g && a != h &&
    b != c && b != d && b != e && b != f && b != g && b != h &&
    c != d && c != e && c != f && c != g && c != h &&
    d != e && d != f && d != g && d != h &&
    e != f && e != g && e != h &&
    f != g && f != h &&
    g != h
  }

  /** Some slot of the layout holds `p`. */
  predicate InSomeSlot(l: Layout, p: Port)
  {
    p == l.p0.first || p == l.p0.second || p == l.p1.first || p == l.p1.second ||
    p == l.p2.first || p == l.p2.second || p == l.p3.first || p == l.p3.second
  }

  /** Every port is in some slot of the layout. */
  predicate CoversAllPorts(l: Layout)
  {
    InSomeSlot(l, A) && InSomeSlot(l, B) && InSomeSlot(l, C) && InSomeSlot(l, D) &&
    InSomeSlot(l, E) && InSomeSlot(l, F) && InSomeSlot(l, G) && InSomeSlot(l, H)
  }

  /** Eight different ports in the eight slots make a perfect matching. */
  lemma DistinctSlotsArePerfect(l: Layout)
    requires SlotsDistinct(l) && CoversAllPorts(l)
    ensures IsPerfectMatching(l)
  {
    forall p: Port ensures Occurrences(Pairs(l), p) == 1 {
      OccurrencesInLayout(l, p);
      assert InSomeSlot(l, p);
      if p == l.p0.first || p == l.p0.second {
        assert Ends(l.p0, p) == 1 && Ends(l.p1, p) == 0 && Ends(l.p2, p) == 0 && Ends(l.p3, p) == 0;
      } else if p == l.p1.first || p == l.p1.second {
        assert Ends(l.p0, p) == 0 && Ends(l.p1, p) == 1 && Ends(l.p2, p) == 0 && Ends(l.p3, p) == 0;
      } else if p == l.p2.first || p == l.p2.second {
        assert Ends(l.p0, p) == 0 && Ends(l.p1, p) == 0 && Ends(l.p2, p) == 1 && Ends(l.p3, p) == 0;
      } else {
        assert Ends(l.p0, p) == 0 && Ends(l.p1, p) == 0 && Ends(l.p2, p) == 0 && Ends(l.p3, p) == 1;
      }
    }
  }

  /** all_tiles holds 35 tiles, all facing North (the unit test of tiles.rs). */
  lemma AllTilesAsWrittenShape()
    ensures |AllTilesAsWritten()| == 35
    ensures forall i :: 0 <= i < 35 ==> AllTilesAsWritten()[i].facing == North
  {
  }

  lemma FirstQuarterDistinct()
    ensures forall i :: 0 <= i < 9 && i != 4 ==>
      SlotsDistinct(AllTilesAsWritten()[i].layout) && CoversAllPorts(AllTilesAsWritten()[i].layout)
  {
  }

  lemma SecondQuarterDistinct()
    ensures forall i :: 9 <= i < 17 ==>
      SlotsDistinct(AllTilesAsWritten()[i].layout) && CoversAllPorts(AllTilesAsWritten()[i].layout)
  {
  }

  lemma ThirdQuarterDistinct()
    ensures forall i :: 17 <= i < 26 ==>
      SlotsDistinct(AllTilesAsWritten()[i].layout) && CoversAllPorts(AllTilesAsWritten()[i].layout)
  {
  }

  lemma FourthQuarterDistinct()
    ensures forall i :: 26 <= i < 35 ==>
      SlotsDistinct(AllTilesAsWritten()[i].layout) && CoversAllPorts(AllTilesAsWritten()[i].layout)
  {
  }

  /** Every entry of all_tiles except the fifth pairs each port exactly once. */
  lemma AllTilesAsWrittenMatchings(i: nat)
    requires i < 35 && i != 4
    ensures IsPerfectMatching(AllTilesAsWritten()[i].layout)
  {
    if i < 9 {
      FirstQuarterDistinct();
    } else if i < 17 {
      SecondQuarterDistinct();
    } else if i < 26 {
      ThirdQuarterDistinct();
    } else {
      FourthQuarterDistinct();
    }
    DistinctSlotsArePerfect(AllTilesAsWritten()[i].layout);
  }

  /** The fifth entry of all_tiles lists H twice and never E. */
  lemma FifthEntryAsWritten()
    ensures Occurrences(Pairs(AllTilesAsWritten()[4].layout), H) == 2
    ensures Occurrences(Pairs(AllTilesAsWritten()[4].layout), E) == 0
    ensures !IsPerfectMatching(AllTilesAsWritten()[4].layout)
  {
    var l := AllTilesAsWritten()[4].layout;
    assert l == Layout(Pair(A, H), Pair(B, C), Pair(D, H), Pair(F, G));
    OccurrencesInLayout(l, H);
    OccurrencesInLayout(l, E);
  }

  /**
   * What the fifth entry does to a path: entering from B (into its E slot)
   * panics, and the path from G to H does not lead back from H to G.
   */
  lemma FifthEntryBreaksTraverse()
    ensures Traverse(AllTilesAsWritten()[4], B) == None
    ensures Traverse(AllTilesAsWritten()[4], G) == Some(H)
    ensures Traverse(AllTilesAsWritten()[4], Flip(H)) == Some(A) != Some(Flip(G))
  {
    var t := AllTilesAsWritten()[4];
    assert t == Tile(Layout(Pair(A, H), Pair(B, C), Pair(D, H), Pair(F, G)), North);
  }

  /** The corrected catalogue differs from all_tiles as written in the fifth entry's layout only. */
  lemma AllTilesCorrectsFifth()
    ensures forall i :: 0 <= i < 35 && i != 4 ==> AllTiles()[i] == AllTilesAsWritten()[i]
    ensures AllTiles()[4].layout != AllTilesAsWritten()[4].layout
    ensures AllTiles()[4].facing == AllTilesAsWritten()[4].facing
  {
    AllTilesAsWrittenShape();
  }

  /** The corrected catalogue: 35 tiles facing North, each a perfect matching, so traverse is total on all of them. */
  lemma AllTilesPerfect(i: nat)
    requires i < 35
    ensures |AllTiles()| == 35
    ensures AllTiles()[i].facing == North
    ensures IsPerfectMatching(AllTiles()[i].layout)
    ensures forall p: Port :: Traverse(AllTiles()[i], p).Some?
  {
    AllTilesAsWrittenShape();
    if i != 4 {
      AllTilesAsWrittenMatchings(i);
    } else {
      DistinctSlotsArePerfect(FifthTile.layout);
    }
    forall p: Port ensures Traverse(AllTiles()[i], p).Some? {
      TraverseDefined(AllTiles()[i], p);
    }
  }
}
