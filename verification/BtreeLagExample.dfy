/** An accepted index of three levels with a leaf item below the separator of its grandparent. */
module BtreeLagExample {
  import opened Wrappers
  import opened BtreeKey
  import opened BtreePage
  import opened BtreeLevel
  import opened BtreeLevelTheorems
  import opened BtreeChainTheorems
  import opened BtreeIndexTheorems
  import opened BtreeOrderTheorems

  function Row(v: int): Tuple { Tuple([Datum(v, v)], Some(v), false, 0) }

  function Pivot(v: int, link: nat): Tuple { Tuple([Datum(v, v)], None, true, link) }

  function MinusInfinity(link: nat): Tuple { Tuple([], None, true, link) }

  function TreePage(prev: nat, next: nat, level: nat, root: bool, items: seq<Tuple>): Page
  {
    Page(prev, next, level, level == 0, root, false, false, false, items)
  }

  /** The root separates its children at 10, and so do their leaves' high key and the high key
      above it; yet 5 lies on the right leaf. */
  function Lag(): Index
  {
    Index(map[
      1 := TreePage(0, 0, 2, true, [MinusInfinity(2), Pivot(10, 3)]),
      2 := TreePage(0, 3, 1, false, [Pivot(10, 0), MinusInfinity(4)]),
      3 := TreePage(2, 0, 1, false, [MinusInfinity(5)]),
      4 := TreePage(0, 5, 0, false, [Pivot(10, 0), Row(1)]),
      5 := TreePage(4, 0, 0, false, [Row(5), Row(20)])
    ], 1)
  }

  lemma OneStep(s: Step, blk: nat)
    requires s.Valid() && blk != P_NONE && s.Start() == blk && s.Downlink() == blk
    requires ChildFits(Lag(), s, blk, s.StartSplit(), true)
    ensures CanWalk(Lag(), s)
  {
    assert SplitBefore(Lag(), s, [blk], 0) == s.StartSplit();
    assert WalkEnds(Lag(), s, [blk]);
  }

  lemma NoStep(s: Step)
    requires s.Valid() && s.Start() == P_NONE && s.Downlink() == P_NONE
    ensures CanWalk(Lag(), s)
  {
    assert WalkEnds(Lag(), s, []);
  }

  lemma RootPasses()
    ensures PagePass(Lag(), Lag().pages[1], None, Outset)
  {
    var idx, p := Lag(), Lag().pages[1];
    OneStep(StepOf(idx, p, None, Outset, 1), 2);
    OneStep(StepOf(idx, p, None, Outset, 2), 3);
    NoStep(StepOf(idx, p, None, Outset, INVALID_OFFSET));
    assert OffsetPass(idx, p, None, Outset, 1);
    assert OffsetPass(idx, p, None, Outset, 2);
  }

  lemma LeftPasses()
    ensures PagePass(Lag(), Lag().pages[2], None, Outset)
  {
    var idx, p := Lag(), Lag().pages[2];
    OneStep(StepOf(idx, p, None, Outset, 2), 4);
    assert OffsetPass(idx, p, None, Outset, 2);
  }

  lemma RightPasses()
    ensures PagePass(Lag(), Lag().pages[3], Some(Pivot(10, 0)), CursorAfter(Lag(), 4))
  {
    var idx, p, c := Lag(), Lag().pages[3], CursorAfter(Lag(), 4);
    OneStep(StepOf(idx, p, Some(Pivot(10, 0)), c, 1), 5);
    NoStep(StepOf(idx, p, Some(Pivot(10, 0)), c, INVALID_OFFSET));
    assert OffsetPass(idx, p, Some(Pivot(10, 0)), c, 1);
  }

  lemma LeftLeafPasses(c: Cursor)
    ensures PagePass(Lag(), Lag().pages[4], None, c)
  {
    var idx, p := Lag(), Lag().pages[4];
    assert Compare(Row(1), Pivot(10, 0)) < 0 && Compare(Row(5), Row(1)) > 0;
    assert Lands(idx, 5, [5]) && BelowFirst(p, idx.pages[5]);
    assert RightPass(idx, p);
    assert OffsetPass(idx, p, None, c, 2);
  }

  lemma RightLeafPasses(lowkey: Option<Tuple>, c: Cursor)
    ensures PagePass(Lag(), Lag().pages[5], lowkey, c)
  {
    var idx, p := Lag(), Lag().pages[5];
    assert Compare(Row(5), Row(20)) < 0;
    assert OffsetPass(idx, p, lowkey, c, 1);
    assert OffsetPass(idx, p, lowkey, c, 2);
  }

  lemma TwoVisits(start: LevelStart, a: nat, b: nat)
    requires start.leftmost == a && NextOf(Lag(), a) == b && NextOf(Lag(), b) == P_NONE
    requires VisitPass(Lag(), start, [], a) && VisitPass(Lag(), start, [a], b)
    ensures LevelPass(Lag(), start, [a, b])
  {
    hide VisitPass;
    assert Visits(Lag(), start, []);
    VisitsMore(Lag(), start, [], a);
    assert [] + [a] == [a];
    VisitsMore(Lag(), start, [a], b);
    assert [a] + [b] == [a, b];
  }

  lemma RootLevel()
    ensures LevelPass(Lag(), LevelStart(2, 1, true), [1])
    ensures NextLevel(Lag(), [1]) == Some(LevelStart(1, 2, false))
  {
    hide PagePass;
    var idx, start := Lag(), LevelStart(2, 1, true);
    RootPasses();
    assert VisitPass(idx, start, [], 1);
    assert Visits(idx, start, []);
    VisitsMore(idx, start, [], 1);
    assert [] + [1] == [1];
  }

  lemma MiddleLevel()
    ensures LevelPass(Lag(), LevelStart(1, 2, false), [2, 3])
    ensures NextLevel(Lag(), [2, 3]) == Some(LevelStart(0, 4, false))
  {
    hide PagePass;
    var idx, start := Lag(), LevelStart(1, 2, false);
    LeftPasses();
    RightPasses();
    assert VisitPass(idx, start, [], 2);
    assert [2][..0] == [];
    assert !NoneLive(idx, [2]) by { assert !idx.pages[[2][0]].Ignore(); }
    assert LowKey(idx, [2]) == Some(Pivot(10, 0)) && LevelCursor(idx, [2]) == CursorAfter(idx, 4);
    assert VisitPass(idx, start, [2], 3);
    TwoVisits(start, 2, 3);
  }

  lemma LeafLevel()
    ensures LevelPass(Lag(), LevelStart(0, 4, false), [4, 5])
    ensures NextLevel(Lag(), [4, 5]) == Some(LevelStart(0, P_NONE, false))
  {
    hide PagePass;
    var idx, start := Lag(), LevelStart(0, 4, false);
    LeftLeafPasses(Outset);
    RightLeafPasses(LowKey(idx, [4]), LevelCursor(idx, [4]));
    assert VisitPass(idx, start, [], 4);
    assert !NoneLive(idx, [4]) by { assert !idx.pages[[4][0]].Ignore(); }
    assert VisitPass(idx, start, [4], 5);
    TwoVisits(start, 4, 5);
  }

  function LagLevels(): seq<seq<nat>> { [[1], [2, 3], [4, 5]] }

  lemma RootSettled()
    ensures Settled(Lag(), [1])
  {
    var idx := Lag();
    assert LinksTo(idx.pages[1], 2) == [2] && LinksTo(idx.pages[1], 3) == [2] + [3];
    assert Downlinks(idx, [1]) == Downlinks(idx, []) + PageDownlinks(idx.pages[1]);
  }

  lemma MiddleSettled()
    ensures Settled(Lag(), [2, 3])
  {
    var idx := Lag();
    assert PageDownlinks(idx.pages[2]) == [4] && PageDownlinks(idx.pages[3]) == [5];
    assert [2, 3][..1] == [2] && [2][..0] == [];
    assert Downlinks(idx, [2]) == Downlinks(idx, []) + [4];
    assert Downlinks(idx, [2, 3]) == Downlinks(idx, [2]) + [5];
  }

  lemma LeavesSettled()
    ensures Settled(Lag(), [4, 5]) && LiveLeaves(Lag(), [4, 5])
  {
    hide Downlinks;
    assert DataItems(Lag().pages[4]) != [] && DataItems(Lag().pages[5]) != [];
  }

  lemma LagSettled()
    ensures AllSettled(Lag(), LagLevels()) && FullLeaves(Lag(), LagLevels())
  {
    hide Settled, LiveLeaves;
    RootSettled();
    MiddleSettled();
    LeavesSettled();
  }

  lemma LagPasses()
    ensures IndexPass(Lag(), LevelStart(2, 1, true), LagLevels())
  {
    hide LevelPass, NextLevel;
    RootLevel();
    MiddleLevel();
    LeafLevel();
    var idx := Lag();
    assert LagLevels()[1..] == [[2, 3], [4, 5]] && [[2, 3], [4, 5]][1..] == [[4, 5]] && [[4, 5]][1..] == [];
    assert IndexPass(idx, LevelStart(0, P_NONE, false), []);
    assert IndexPass(idx, LevelStart(0, 4, false), [[4, 5]]);
    assert IndexPass(idx, LevelStart(1, 2, false), [[2, 3], [4, 5]]);
  }

  /** The index is accepted, and the row 5 lies below a downlink of the root whose separator
      is 10. */
  lemma BelowGrandparent()
    ensures IndexPass(Lag(), LevelStart(2, 1, true), LagLevels())
    ensures AllSettled(Lag(), LagLevels()) && FullLeaves(Lag(), LagLevels())
    ensures Lag().pages[1].Real(2) && Lag().pages[1].Item(2) == Pivot(10, 3)
    ensures Under(Lag(), 3, 1, Row(5)) && Less(Row(5), Pivot(10, 3), 1)
  {
    hide IndexPass, AllSettled;
    LagPasses();
    LagSettled();
    var idx := Lag();
    assert idx.pages[5].Real(1) && idx.pages[5].Item(1) == Row(5);
    assert Under(idx, 5, 0, Row(5));
    assert idx.pages[3].Data(1) && Under(idx, idx.pages[3].Item(1).link, 0, Row(5));
  }
}
