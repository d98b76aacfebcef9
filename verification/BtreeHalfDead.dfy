/** Half-dead pages on the child level: their high keys are compared with separators like all others. */
module BtreeHalfDead {
  import opened Wrappers
  import opened BtreeKey
  import opened BtreePage
  import opened BtreeLevel
  import opened BtreeFinite
  import opened BtreeLevelTheorems
  import opened BtreeChainTheorems
  import opened BtreeIndexTheorems
  import opened BtreeSoundTheorems

  /** The high key of the page has an attribute, unless the page has none or its split is not
      complete. */
  predicate Keyed(idx: Index, blk: nat)
  {
    blk in idx.pages &&
    var p := idx.pages[blk];
    p.incompleteSplit || p.Rightmost() || (p.Has(P_HIKEY) && p.Item(P_HIKEY).atts != [])
  }

  function Following(below: seq<nat>, i: nat): nat { if i + 1 < |below| then below[i + 1] else P_NONE }

  /** The pages of a level from left to right. */
  ghost predicate Chain(idx: Index, below: seq<nat>)
  {
    && (forall i :: 0 <= i < |below| ==> below[i] != P_NONE)
    && (forall i: nat :: i < |below| ==> NextOf(idx, below[i]) == Following(below, i))
  }

  lemma ChainNext(idx: Index, below: seq<nat>, i: nat)
    requires Chain(idx, below) && i < |below|
    ensures below[i] != P_NONE
    ensures i + 1 < |below| ==> NextOf(idx, below[i]) == below[i + 1] != P_NONE
    ensures i + 1 == |below| ==> NextOf(idx, below[i]) == P_NONE
  {
    assert NextOf(idx, below[i]) == Following(below, i);
  }

  /** The first `c` pages have been passed, and the cursor stands behind them. */
  ghost predicate UpTo(idx: Index, below: seq<nat>, c: nat, cur: Cursor)
  {
    && c <= |below| && (forall i :: 0 <= i < c ==> Keyed(idx, below[i]))
    && cur == if c == 0 then Outset else CursorAfter(idx, below[c - 1])
  }

  ghost predicate KeyedStep(s: Step)
    requires s.Valid()
  {
    forall blk: nat :: Separator(s, blk).Some? ==> Separator(s, blk).value.atts != []
  }

  lemma {:induction false} WalkIsSlice(idx: Index, below: seq<nat>, s: Step, path: seq<nat>, a: nat, i: nat)
    requires s.Valid() && Walk(idx, s, path) && Chain(idx, below) && a < |below|
    requires s.Start() == below[a] && i < |path|
    ensures a + i < |below| && path[i] == below[a + i]
    decreases i
  {
    hide ChildFits, Chain;
    if i > 0 {
      WalkIsSlice(idx, below, s, path, a, i - 1);
      ChainNext(idx, below, a + i - 1);
      assert path[i] == NextOf(idx, path[i - 1]);
    }
  }

  lemma WalkKeyed(idx: Index, s: Step, path: seq<nat>, i: nat)
    requires s.Valid() && Walk(idx, s, path) && KeyedStep(s) && i < |path|
    ensures Keyed(idx, path[i])
  {
    hide Separator, KeyedStep;
    FitsMatches(idx, s, path, i);
    MatchIsKeyed(idx, s, path[i]);
  }

  lemma MatchIsKeyed(idx: Index, s: Step, blk: nat)
    requires s.Valid() && KeyedStep(s) && blk in idx.pages && HighKeyMatches(s, blk, idx.pages[blk])
    ensures Keyed(idx, blk)
  {
    hide Separator;
    assert Separator(s, blk).Some? ==> Separator(s, blk).value.atts != [];
  }

  /** A walk to the next downlink. */
  lemma StepKeyed(idx: Index, below: seq<nat>, c: nat, s: Step) returns (c2: nat)
    requires s.Valid() && Chain(idx, below) && UpTo(idx, below, c, Cursor(s.prevright, s.prevsplit))
    requires CanWalk(idx, s) && KeyedStep(s) && s.Downlink() != P_NONE
    requires c == 0 ==> below != [] && s.Downlink() == below[0]
    ensures UpTo(idx, below, c2, CursorAfter(idx, s.Downlink())) && 0 < c2 && below[c2 - 1] == s.Downlink()
  {
    hide Walk, KeyedStep, Keyed, WalkEnds, UpTo, CursorAfter, Chain;
    var path :| WalkEnds(idx, s, path);
    WalkEnd(idx, s, path);
    StartIs(idx, below, c, s, path);
    c2 := c + |path|;
    forall i | 0 <= i < |path| ensures c + i < |below| && below[c + i] == path[i] && Keyed(idx, path[i]) {
      WalkIsSlice(idx, below, s, path, c, i);
      WalkKeyed(idx, s, path, i);
    }
    UpToMore(idx, below, c, Cursor(s.prevright, s.prevsplit), path);
  }

  lemma UpToMore(idx: Index, below: seq<nat>, c: nat, cur: Cursor, path: seq<nat>)
    requires UpTo(idx, below, c, cur) && path != []
    requires forall i :: 0 <= i < |path| ==> c + i < |below| && below[c + i] == path[i] && Keyed(idx, path[i])
    ensures c + |path| <= |below| && below[c + |path| - 1] == path[|path| - 1]
    ensures UpTo(idx, below, c + |path|, CursorAfter(idx, path[|path| - 1]))
  {
    hide Keyed, CursorAfter;
    assert below[c + (|path| - 1)] == path[|path| - 1];
    forall i | 0 <= i < c + |path| ensures Keyed(idx, below[i]) {
      if i >= c {
        assert below[c + (i - c)] == path[i - c];
      }
    }
  }

  lemma StartIs(idx: Index, below: seq<nat>, c: nat, s: Step, path: seq<nat>)
    requires s.Valid() && Chain(idx, below) && UpTo(idx, below, c, Cursor(s.prevright, s.prevsplit))
    requires WalkEnds(idx, s, path) && s.Downlink() != P_NONE
    requires c == 0 ==> below != [] && s.Downlink() == below[0]
    ensures path != [] && c < |below| && s.Start() == below[c]
  {
    hide ChildFits, Keyed;
    if c > 0 {
      ChainNext(idx, below, c - 1);
    }
  }

  /** The walk behind the last downlink. */
  lemma EndKeyed(idx: Index, below: seq<nat>, c: nat, s: Step)
    requires s.Valid() && Chain(idx, below) && UpTo(idx, below, c, Cursor(s.prevright, s.prevsplit)) && c > 0
    requires CanWalk(idx, s) && KeyedStep(s) && s.Downlink() == P_NONE
    ensures forall i :: 0 <= i < |below| ==> Keyed(idx, below[i])
  {
    hide Walk, KeyedStep, Keyed, WalkEnds;
    var path :| WalkEnds(idx, s, path);
    WalkEnd(idx, s, path);
    ChainNext(idx, below, c - 1);
    if c < |below| {
      forall i | 0 <= i < |path| ensures c + i < |below| && below[c + i] == path[i] && Keyed(idx, path[i]) {
        WalkIsSlice(idx, below, s, path, c, i);
        WalkKeyed(idx, s, path, i);
      }
      var last := |path| - 1;
      assert below[c + last] == path[last];
      ChainNext(idx, below, c + last);
      forall i | 0 <= i < |below| ensures Keyed(idx, below[i]) {
        if i >= c {
          assert below[c + (i - c)] == path[i - c];
        }
      }
    }
  }

  // ---------------------------------------------------------------- pages and levels

  lemma PageStepKeyed(idx: Index, p: Page, lowkey: Option<Tuple>, c: Cursor, off: nat)
    requires PagePass(idx, p, lowkey, c) && !p.leaf && !p.Ignore() && (off == INVALID_OFFSET || p.Data(off))
    requires lowkey.Some? ==> lowkey.value.atts != []
    ensures KeyedStep(StepOf(idx, p, lowkey, c, off))
  {
    hide ItemPass, RightPass, DownlinkPass, CursorAt;
    var s := StepOf(idx, p, lowkey, c, off);
    forall blk: nat | Separator(s, blk).Some? ensures Separator(s, blk).value.atts != [] {
      var o := if blk == s.Downlink() then s.off + 1 else s.off;
      assert p.Real(o) ==> p.Data(o) && OffsetPass(idx, p, lowkey, c, o);
      if blk == s.Downlink() && off == INVALID_OFFSET {
        assert o == 1;
      }
    }
  }

  lemma {:induction false} PageKeyed(idx: Index, p: Page, lowkey: Option<Tuple>, c: Cursor, off: nat,
                                     below: seq<nat>, from: nat) returns (to: nat)
    requires PagePass(idx, p, lowkey, c) && !p.leaf && !p.Ignore() && (lowkey.Some? ==> lowkey.value.atts != [])
    requires Chain(idx, below) && UpTo(idx, below, from, c)
    requires p.FirstDataKey() <= off <= |p.items| + 1 && P_NONE !in LinksTo(p, off)
    requires from == 0 && off > p.FirstDataKey() ==> below != [] && FirstDownlink(p) == below[0]
    ensures UpTo(idx, below, to, CursorAt(idx, p, c, off)) && (from > 0 || off > p.FirstDataKey() ==> to > 0)
    decreases off
  {
    hide UpTo, NattsOk, ItemPass, RightPass, ChildAbove, Chain, KeyedStep, CanWalk;
    if off == p.FirstDataKey() {
      to := from;
    } else {
      var o := off - 1;
      var mid := PageKeyed(idx, p, lowkey, c, o, below, from);
      assert p.Data(o) && OffsetPass(idx, p, lowkey, c, o);
      PageStepKeyed(idx, p, lowkey, c, o);
      to := StepKeyed(idx, below, mid, StepOf(idx, p, lowkey, c, o));
    }
  }

  lemma LowKeyKeyed(idx: Index, start: LevelStart, blks: seq<nat>, k: nat)
    requires Visits(idx, start, blks) && start.level > 0 && AllLive(idx, blks) && k <= |blks|
    ensures var lowkey := LowKey(idx, blks[..k]); lowkey.Some? ==> lowkey.value.atts != []
  {
    hide Visits, OffsetPass;
    if k > 0 {
      var q := InternalPage(idx, start, blks, k - 1);
      assert LeftOf(blks[..k]) == blks[k - 1];
    }
  }

  lemma {:induction false} LevelKeyed(idx: Index, start: LevelStart, blks: seq<nat>, below: seq<nat>, k: nat)
    returns (c: nat)
    requires LevelPass(idx, start, blks) && start.level > 0 && AllLive(idx, blks) && NoNullDownlinks(idx, blks)
    requires Chain(idx, below) && below != [] && below[0] == Downlinks(idx, blks)[0] && k < |blks|
    ensures UpTo(idx, below, c, LevelCursor(idx, blks[..k])) && (k > 0 ==> c > 0)
    decreases k
  {
    hide PagePass, Visits, Downlinks, UpTo, Chain, LowKey, CursorAfter;
    if k == 0 {
      c := 0;
      NothingPassed(idx, below);
    } else {
      var before := LevelKeyed(idx, start, blks, below, k - 1);
      var q := InternalPage(idx, start, blks, k - 1);
      c := PageLinksKeyed(idx, start, blks, below, k - 1, before);
      assert LeftOf(blks[..k]) == blks[k - 1] && blks[..k][..k - 1] == blks[..k - 1];
      NotLast(idx, start, blks, k - 1);
    }
  }

  lemma NothingPassed(idx: Index, below: seq<nat>)
    ensures UpTo(idx, below, 0, Outset)
  {
  }

  lemma NotLast(idx: Index, start: LevelStart, blks: seq<nat>, i: nat)
    requires LevelPass(idx, start, blks) && i + 1 < |blks|
    ensures blks[i] in idx.pages && !idx.pages[blks[i]].Rightmost()
  {
    hide Visits;
    VisitsLinked(idx, start, blks, i + 1);
  }

  /** All downlinks of page `k`. */
  lemma PageLinksKeyed(idx: Index, start: LevelStart, blks: seq<nat>, below: seq<nat>, k: nat, from: nat)
    returns (to: nat)
    requires LevelPass(idx, start, blks) && start.level > 0 && AllLive(idx, blks) && NoNullDownlinks(idx, blks)
    requires Chain(idx, below) && below != [] && below[0] == Downlinks(idx, blks)[0] && k < |blks|
    requires UpTo(idx, below, from, LevelCursor(idx, blks[..k])) && (k > 0 ==> from > 0)
    ensures var p := idx.pages[blks[k]];
            && |p.items| > 0 && p.Has(|p.items|) && to > 0
            && UpTo(idx, below, to, CursorAfter(idx, p.Item(|p.items|).link))
  {
    hide PagePass, Visits, Downlinks, UpTo, Chain, LowKey, LevelCursor, CursorAfter, LinksTo;
    var p := InternalPage(idx, start, blks, k);
    LowKeyKeyed(idx, start, blks, k);
    NoNullOnPage(idx, blks, k);
    if k == 0 {
      FirstDownlinkIsFirst(idx, blks);
    }
    to := PageKeyed(idx, p, LowKey(idx, blks[..k]), LevelCursor(idx, blks[..k]), |p.items| + 1, below, from);
  }

  lemma NoNullOnPage(idx: Index, blks: seq<nat>, k: nat)
    requires AllLive(idx, blks) && k < |blks| && NoNullDownlinks(idx, blks)
    ensures P_NONE !in PageDownlinks(idx.pages[blks[k]])
  {
    hide Downlinks, LinksTo;
    var p := idx.pages[blks[k]];
    forall x | x in PageDownlinks(p) ensures x != P_NONE {
      var off := LinkOf(p, |p.items| + 1, x);
      DownlinkAmong(idx, blks, k, off);
    }
  }

  lemma {:induction false} LinkOf(p: Page, off: nat, x: nat) returns (o: nat)
    requires off <= |p.items| + 1 && x in LinksTo(p, off)
    ensures p.Data(o) && p.Item(o).link == x
    decreases off
  {
    if x == p.Item(off - 1).link {
      o := off - 1;
    } else {
      o := LinkOf(p, off - 1, x);
    }
  }

  /** On the level below a live level that passes, every page is keyed. */
  lemma BelowKeyed(idx: Index, start: LevelStart, blks: seq<nat>, below: seq<nat>)
    requires LevelPass(idx, start, blks) && start.level > 0 && AllLive(idx, blks) && NoNullDownlinks(idx, blks)
    requires Chain(idx, below) && below != [] && below[0] == Downlinks(idx, blks)[0]
    ensures forall i :: 0 <= i < |below| ==> Keyed(idx, below[i])
  {
    hide PagePass, Visits, Downlinks, UpTo, Chain, LowKey, LevelCursor, CursorAfter, Keyed;
    var last := |blks| - 1;
    var c := LevelKeyed(idx, start, blks, below, last);
    c := PageLinksKeyed(idx, start, blks, below, last, c);
    var p := InternalPage(idx, start, blks, last);
    LowKeyKeyed(idx, start, blks, last);
    PageStepKeyed(idx, p, LowKey(idx, blks[..last]), LevelCursor(idx, blks[..last]), INVALID_OFFSET);
    LastWalk(idx, p, LowKey(idx, blks[..last]), LevelCursor(idx, blks[..last]));
    EndKeyed(idx, below, c, StepOf(idx, p, LowKey(idx, blks[..last]), LevelCursor(idx, blks[..last]), INVALID_OFFSET));
  }

  lemma LastWalk(idx: Index, p: Page, lowkey: Option<Tuple>, c: Cursor)
    requires PagePass(idx, p, lowkey, c) && !p.leaf && p.Rightmost() && |p.items| >= p.FirstDataKey()
    ensures var s := StepOf(idx, p, lowkey, c, INVALID_OFFSET);
            CanWalk(idx, s) && Cursor(s.prevright, s.prevsplit) == CursorAfter(idx, p.Item(|p.items|).link)
  {
    hide OffsetPass, CanWalk;
  }

  /** A page that a deletion left half-dead has a high key without attributes. An index of at least two
      levels with such a page below a live level is never accepted. */
  lemma HalfDeadReported(idx: Index, start: LevelStart, levels: seq<seq<nat>>, i: nat)
    requires start.leftmost != P_NONE && start.level > 0 && |levels| > 1 && i < |levels[1]|
    requires AllLive(idx, levels[0]) && NoNullDownlinks(idx, levels[0]) && levels[1][i] in idx.pages
    requires var p := idx.pages[levels[1][i]];
             p.halfDead && !p.incompleteSplit && p.Has(P_HIKEY) && p.Item(P_HIKEY).atts == []
    ensures !IndexPass(idx, start, levels)
  {
    hide PagePass, Visits, Downlinks;
    if IndexPass(idx, start, levels) {
      var blks, below := levels[0], levels[1];
      TopLevelPasses(idx, start, levels);
      var p := FirstInternal(idx, start, blks);
      var next := NextLevel(idx, blks).value;
      assert levels[1..][0] == below;
      TopLevelPasses(idx, next, levels[1..]);
      LevelIsChain(idx, next, below);
      BelowKeyed(idx, start, blks, below);
      DeadNotRightmost(idx, next, below, i);
    }
  }

  lemma LevelIsChain(idx: Index, start: LevelStart, blks: seq<nat>)
    requires LevelPass(idx, start, blks)
    ensures Chain(idx, blks) && blks[0] == start.leftmost
  {
    hide Visits;
    forall i: nat | i < |blks|
      ensures blks[i] != P_NONE && NextOf(idx, blks[i]) == Following(blks, i)
    {
      VisitsLinked(idx, start, blks, i);
      if i + 1 < |blks| {
        VisitsLinked(idx, start, blks, i + 1);
      }
    }
    VisitsLinked(idx, start, blks, 0);
  }

  lemma DeadNotRightmost(idx: Index, start: LevelStart, blks: seq<nat>, i: nat)
    requires Visits(idx, start, blks) && i < |blks| && blks[i] in idx.pages && idx.pages[blks[i]].halfDead
    ensures !idx.pages[blks[i]].Rightmost()
  {
    hide PagePass;
    VisitAt(idx, start, blks, i);
  }

  // ---------------------------------------------------------------- interrupted deletions

  /** First downlinks lead from block `d[0]` one level down each, past internal pages, to a half-dead
      leaf that is not deleted and names `top` in its high key. */
  ghost predicate DeletionPath(idx: Index, top: nat, level: nat, d: seq<nat>)
  {
    && d != [] && (forall i :: 0 <= i < |d| ==> Loads(idx, d[i]))
    && (forall i: nat :: i < |d| - 1 ==> InnerStep(idx, level, d, i))
    && var p := idx.pages[d[|d| - 1]];
       p.leaf && p.halfDead && !p.deleted && !p.Rightmost() && p.Item(P_HIKEY).link == top
  }

  predicate InnerStep(idx: Index, level: nat, d: seq<nat>, i: nat)
    requires i < |d| - 1 && d[i] in idx.pages
  {
    var p := idx.pages[d[i]];
    && !p.leaf && p.level == (level - 1 - i) % 0x1_0000_0000
    && p.Has(p.FirstDataKey()) && d[i + 1] == FirstDownlink(p)
  }

  lemma {:induction false} DescendsIsPath(idx: Index, top: nat, level: nat, blk: nat, d: seq<nat>)
    ensures Descends(idx, top, level, blk, d) <==> d != [] && d[0] == blk && DeletionPath(idx, top, level, d)
    decreases |d|
  {
    hide Sane;
    if |d| > 1 && blk == d[0] && Loads(idx, blk) {
      var p, tail := idx.pages[blk], d[1..];
      if !p.leaf && p.level == Below(level) && p.Has(p.FirstDataKey()) {
        DescendsIsPath(idx, top, p.level, FirstDownlink(p), tail);
        PathTail(idx, top, level, p.level, d);
      } else {
        assert DeletionPath(idx, top, level, d) ==> InnerStep(idx, level, d, 0);
      }
    }
  }

  lemma PathTail(idx: Index, top: nat, level: nat, below: nat, d: seq<nat>)
    requires |d| > 1 && Loads(idx, d[0]) && below == Below(level)
    ensures DeletionPath(idx, top, level, d) <==>
            InnerStep(idx, level, d, 0) && DeletionPath(idx, top, below, d[1..])
  {
    hide Sane;
    var tail := d[1..];
    forall i: nat | i < |tail| - 1 && tail[i] in idx.pages
      ensures InnerStep(idx, below, tail, i) <==> InnerStep(idx, level, d, i + 1)
    {
      assert (below - 1 - i) % 0x1_0000_0000 == (level - 2 - i) % 0x1_0000_0000;
    }
    if DeletionPath(idx, top, below, tail) && InnerStep(idx, level, d, 0) {
      forall i: nat | i < |d| - 1 ensures d[i] in idx.pages && InnerStep(idx, level, d, i) {
        if i > 0 {
          assert tail[i - 1] == d[i] && InnerStep(idx, below, tail, i - 1);
        }
      }
    }
  }

  /** An internal page that is no root and not the right half of an incomplete split may lack a downlink
      just when such a path leads from it to a leaf that names it. */
  lemma MissingOkIs(idx: Index, blk: nat)
    requires blk in idx.pages
    ensures var p := idx.pages[blk];
            MissingOk(idx, blk, false) <==>
            p.root || (!p.leaf && p.Has(p.FirstDataKey()) &&
                       exists d :: d != [] && d[0] == FirstDownlink(p) && DeletionPath(idx, blk, p.level, d))
  {
    hide Descends, DeletionPath;
    var p := idx.pages[blk];
    if p.Has(p.FirstDataKey()) {
      forall d ensures Descends(idx, blk, p.level, FirstDownlink(p), d) <==>
                       d != [] && d[0] == FirstDownlink(p) && DeletionPath(idx, blk, p.level, d)
      {
        DescendsIsPath(idx, blk, p.level, FirstDownlink(p), d);
      }
    }
  }
}
