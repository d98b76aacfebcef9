/** What acceptance of a whole index implies, across levels. */
module BtreeIndexTheorems {
  import opened Wrappers
  import opened BtreeKey
  import opened BtreePage
  import opened BtreeLevel
  import opened BtreeFinite
  import opened BtreeLevelTheorems
  import opened BtreeChainTheorems

  // ------------------------------------------- the child level is the next level

  /** Two chains of right links from the same page to the end of the level are equal. */
  lemma {:induction false} ChainsAgree(idx: Index, start: LevelStart, visited: seq<nat>, chain: seq<nat>, i: nat)
    requires LevelPass(idx, start, visited) && RightLinked(idx, chain)
    requires (forall j :: 0 <= j < |chain| ==> chain[j] != P_NONE)
    requires chain != [] && chain[0] == start.leftmost && NextOf(idx, chain[|chain| - 1]) == P_NONE
    requires i < |chain|
    ensures i < |visited| && visited[i] == chain[i]
    decreases i
  {
    hide Visits;
    if i > 0 {
      ChainsAgree(idx, start, visited, chain, i - 1);
      assert chain[i] == NextOf(idx, chain[i - 1]);
      if i < |visited| {
        VisitsLinked(idx, start, visited, i);
      }
    } else {
      VisitsLinked(idx, start, visited, 0);
    }
  }

  lemma {:induction false} FirstDownlinkIsFirst(idx: Index, visited: seq<nat>)
    requires AllLive(idx, visited) && visited != []
    requires |idx.pages[visited[0]].items| >= idx.pages[visited[0]].FirstDataKey()
    ensures Downlinks(idx, visited) != [] && Downlinks(idx, visited)[0] == FirstDownlink(idx.pages[visited[0]])
    decreases |visited|
  {
    var p := idx.pages[visited[0]];
    if |visited| == 1 {
      assert Downlinks(idx, visited[..0]) == [];
      FirstLink(p, |p.items| + 1);
      assert [] + PageDownlinks(p) == PageDownlinks(p);
    } else {
      FirstDownlinkIsFirst(idx, visited[..|visited| - 1]);
    }
  }

  lemma {:induction false} FirstLink(p: Page, off: nat)
    requires p.FirstDataKey() < off <= |p.items| + 1
    ensures LinksTo(p, off) != [] && LinksTo(p, off)[0] == FirstDownlink(p)
    decreases off
  {
    if off > p.FirstDataKey() + 1 {
      FirstLink(p, off - 1);
    }
  }

  lemma {:induction false} LinkAmong(p: Page, off: nat, o: nat)
    requires off <= |p.items| + 1 && p.FirstDataKey() <= o < off
    ensures p.Item(o).link in LinksTo(p, off)
    decreases off
  {
    if o < off - 1 {
      LinkAmong(p, off - 1, o);
    }
  }

  lemma {:induction false} DownlinkAmong(idx: Index, visited: seq<nat>, k: nat, off: nat)
    requires AllLive(idx, visited) && k < |visited| && idx.pages[visited[k]].Data(off)
    ensures idx.pages[visited[k]].Item(off).link in Downlinks(idx, visited)
    decreases |visited|
  {
    hide LinksTo;
    var init, p := visited[..|visited| - 1], idx.pages[visited[k]];
    if k < |init| {
      DownlinkAmong(idx, init, k, off);
    } else {
      LinkAmong(p, |p.items| + 1, off);
    }
  }

  /** The pages of the level are live, complete, and have no null downlink unless they are leaves. */
  predicate Settled(idx: Index, visited: seq<nat>)
  {
    && AllLive(idx, visited)
    && (forall i :: 0 <= i < |visited| ==> !idx.pages[visited[i]].incompleteSplit)
    && (NoNullDownlinks(idx, visited) || (visited != [] && idx.pages[visited[0]].leaf))
  }

  lemma SettledLinks(idx: Index, start: LevelStart, visited: seq<nat>)
    requires Visits(idx, start, visited) && visited != [] && start.level > 0 && Settled(idx, visited)
    ensures NoNullDownlinks(idx, visited)
  {
    hide PagePass, Visits, Downlinks;
    var p := InternalPage(idx, start, visited, 0);
  }

  /** Every child of an accepted level is a page of the next one. */
  lemma ChildIsVisited(idx: Index, start: LevelStart, visited: seq<nat>, next: LevelStart,
                       below: seq<nat>, k: nat, off: nat)
    returns (m: nat)
    requires LevelPass(idx, start, visited) && start.level > 0 && Settled(idx, visited)
    requires NextLevel(idx, visited) == Some(next) && LevelPass(idx, next, below)
    requires k < |visited| && idx.pages[visited[k]].Data(off)
    ensures m < |below| && below[m] == idx.pages[visited[k]].Item(off).link
  {
    hide PagePass, Visits;
    var p := InternalPage(idx, start, visited, 0);
    SettledLinks(idx, start, visited);
    FirstDownlinkIsFirst(idx, visited);
    var chain, found := DownlinksInOrder(idx, start, visited);
    assert next.leftmost == FirstDownlink(p);
    DownlinkAmong(idx, visited, k, off);
    var downs := Downlinks(idx, visited);
    var d :| 0 <= d < |downs| && downs[d] == idx.pages[visited[k]].Item(off).link;
    m := found[d];
    ChainsAgree(idx, next, below, chain, m);
  }

  lemma InternalPage(idx: Index, start: LevelStart, visited: seq<nat>, k: nat) returns (p: Page)
    requires Visits(idx, start, visited) && start.level > 0 && AllLive(idx, visited) && k < |visited|
    ensures p == idx.pages[visited[k]] && !p.leaf && |p.items| >= p.FirstDataKey() && p.level == start.level
    ensures PagePass(idx, p, LowKey(idx, visited[..k]), LevelCursor(idx, visited[..k]))
  {
    hide PagePass;
    VisitAt(idx, start, visited, k);
    p := idx.pages[visited[k]];
    LiveIsInternal(idx, start, visited[..k], visited[k]);
  }

  lemma LeafPage(idx: Index, start: LevelStart, visited: seq<nat>, k: nat) returns (p: Page)
    requires Visits(idx, start, visited) && start.level == 0 && AllLive(idx, visited) && k < |visited|
    ensures p == idx.pages[visited[k]] && p.leaf
    ensures PagePass(idx, p, LowKey(idx, visited[..k]), LevelCursor(idx, visited[..k]))
  {
    hide PagePass;
    VisitAt(idx, start, visited, k);
    p := idx.pages[visited[k]];
  }

  // ------------------------------------------- separators bound subtrees

  /** `x` is a leaf item in the subtree of height `h` below block `blk`. */
  ghost predicate Under(idx: Index, blk: nat, h: nat, x: Tuple)
    decreases h
  {
    && blk in idx.pages
    && if h == 0 then exists off :: idx.pages[blk].Real(off) && idx.pages[blk].Item(off) == x
       else exists off :: idx.pages[blk].Data(off) && Under(idx, idx.pages[blk].Item(off).link, h - 1, x)
  }

  lemma {:induction false} IdenticalOrder(a: Tuple, b: Tuple, x: Tuple, n: nat, i: nat)
    requires PivotIdentical(a, b) && i <= n
    ensures LessFrom(a, x, n, i) == LessFrom(b, x, n, i)
    decreases n - i
  {
    if i < n {
      IdenticalOrder(a, b, x, n, i + 1);
    }
  }

  /** The upper bound of the subtree below a downlink: the next separator, or the high key
      of the page. */
  function UpperBound(p: Page, off: nat): Option<Tuple>
    requires p.Data(off)
  {
    if off < |p.items| then Some(p.Item(off + 1))
    else if p.Rightmost() then None
    else Some(p.Item(P_HIKEY))
  }

  /** The child of a downlink repeats the bound as its high key. */
  lemma ChildRepeatsBound(idx: Index, p: Page, lowkey: Option<Tuple>, c: Cursor, off: nat, child: Page)
    requires PagePass(idx, p, lowkey, c) && !p.leaf && p.Data(off) && p.Item(off).link != P_NONE
    requires p.Item(off).link in idx.pages && child == idx.pages[p.Item(off).link]
    requires !child.incompleteSplit && !child.Rightmost()
    ensures UpperBound(p, off).Some? && child.Has(P_HIKEY) &&
            PivotIdentical(child.Item(P_HIKEY), UpperBound(p, off).value)
  {
    hide NattsOk, ItemPass, RightPass, ChildAbove, WalkEnds, PivotIdentical;
    assert OffsetPass(idx, p, lowkey, c, off);
    WalkMatches(idx, StepOf(idx, p, lowkey, c, off));
  }

  lemma WalkMatches(idx: Index, s: Step)
    requires s.Valid() && CanWalk(idx, s) && s.Downlink() != P_NONE
    ensures s.Downlink() in idx.pages && HighKeyMatches(s, s.Downlink(), idx.pages[s.Downlink()])
  {
    hide MissingOk, HighKeyMatches;
    var path :| WalkEnds(idx, s, path);
    var last := |path| - 1;
    assert ChildFits(idx, s, path[last], SplitBefore(idx, s, path, last), last == 0);
  }

  /** No walk leads from the end of the level to a further downlink. */
  lemma NoWalkFromEnd(idx: Index, s: Step)
    requires s.Valid() && s.prevright == Some(P_NONE) && s.Downlink() != P_NONE
    ensures !CanWalk(idx, s)
  {
    hide ChildFits;
  }

  /** A child with a bound is not the rightmost page of its level: the next downlink, on
      the same page or on the next, is still to be met. */
  lemma ChildHasRight(idx: Index, start: LevelStart, visited: seq<nat>, k: nat, off: nat)
    requires LevelPass(idx, start, visited) && start.level > 0 && Settled(idx, visited)
    requires k < |visited| && idx.pages[visited[k]].Data(off) && UpperBound(idx.pages[visited[k]], off).Some?
    ensures NextOf(idx, idx.pages[visited[k]].Item(off).link) != P_NONE
  {
    hide PagePass, Visits, Downlinks, CursorAt, CursorAfter, LowKey, LevelCursor;
    var p := InternalPage(idx, start, visited, k);
    SettledLinks(idx, start, visited);
    DownlinkAmong(idx, visited, k, off);
    if off < |p.items| {
      DownlinkAmong(idx, visited, k, off + 1);
      SamePageCursor(idx, p, LevelCursor(idx, visited[..k]), off);
      WalkGoesOn(idx, p, LowKey(idx, visited[..k]), LevelCursor(idx, visited[..k]), off + 1, p.Item(off).link);
    } else {
      SiblingGoesOn(idx, start, visited, k, p);
    }
  }

  lemma SamePageCursor(idx: Index, p: Page, c: Cursor, off: nat)
    requires p.Data(off)
    ensures CursorAt(idx, p, c, off + 1) == CursorAfter(idx, p.Item(off).link)
  {
  }

  /** The last downlink of a page is followed by the first one of its right sibling. */
  lemma SiblingGoesOn(idx: Index, start: LevelStart, visited: seq<nat>, k: nat, p: Page)
    requires LevelPass(idx, start, visited) && start.level > 0 && Settled(idx, visited)
    requires k < |visited| && p == idx.pages[visited[k]] && !p.Rightmost()
    requires !p.leaf && |p.items| >= p.FirstDataKey()
    ensures NextOf(idx, p.Item(|p.items|).link) != P_NONE
  {
    hide PagePass, Visits, Downlinks;
    assert k + 1 < |visited|;
    var q := InternalPage(idx, start, visited, k + 1);
    var link := p.Item(|p.items|).link;
    assert LeftOf(visited[..k + 1]) == visited[k];
    SettledLinks(idx, start, visited);
    DownlinkAmong(idx, visited, k, |p.items|);
    DownlinkAmong(idx, visited, k + 1, q.FirstDataKey());
    WalkGoesOn(idx, q, LowKey(idx, visited[..k + 1]), LevelCursor(idx, visited[..k + 1]), q.FirstDataKey(), link);
  }

  /** The downlink at `off` is met on the way right from block `link`. */
  lemma WalkGoesOn(idx: Index, p: Page, lowkey: Option<Tuple>, c: Cursor, off: nat, link: nat)
    requires PagePass(idx, p, lowkey, c) && !p.leaf && p.Data(off) && p.Item(off).link != P_NONE && link != P_NONE
    requires CursorAt(idx, p, c, off) == CursorAfter(idx, link)
    ensures NextOf(idx, link) != P_NONE
  {
    hide ItemPass, RightPass, ChildAbove, NattsOk, WalkEnds;
    assert OffsetPass(idx, p, lowkey, c, off);
    NoWalkAfter(idx, StepOf(idx, p, lowkey, c, off), link);
  }

  lemma NoWalkAfter(idx: Index, s: Step, link: nat)
    requires s.Valid() && link != P_NONE && s.Downlink() != P_NONE
    requires Cursor(s.prevright, s.prevsplit) == CursorAfter(idx, link) && CanWalk(idx, s)
    ensures NextOf(idx, link) != P_NONE
  {
    if NextOf(idx, link) == P_NONE {
      NoWalkFromEnd(idx, s);
    }
  }

  /** All levels are settled. */
  predicate AllSettled(idx: Index, levels: seq<seq<nat>>)
  {
    forall i :: 0 <= i < |levels| ==> Settled(idx, levels[i])
  }

  /** The bound of a page that is not the rightmost holds for all leaf items below it. */
  lemma {:induction false} HighKeyBounds(idx: Index, start: LevelStart, levels: seq<seq<nat>>, k: nat, x: Tuple)
    requires start.leftmost != P_NONE && IndexPass(idx, start, levels) && AllSettled(idx, levels)
    requires k < |levels[0]| && Under(idx, levels[0][k], start.level, x) && !idx.pages[levels[0][k]].Rightmost()
    ensures idx.pages[levels[0][k]].Has(P_HIKEY) && AtMost(x, idx.pages[levels[0][k]].Item(P_HIKEY), idx.nkeyatts)
    decreases |levels|, 1
  {
    hide Visits, PagePass, LessFrom;
    var visited := levels[0];
    if start.level == 0 {
      var p := LeafPage(idx, start, visited, k);
      LeafBound(idx, p, LowKey(idx, visited[..k]), LevelCursor(idx, visited[..k]), x);
    } else {
      var p := InternalPage(idx, start, visited, k);
      var off: nat :| p.Data(off) && Under(idx, p.Item(off).link, start.level - 1, x);
      DownlinkBounds(idx, start, levels, k, off, x);
      if off < |p.items| {
        SeparatorBound(idx, p, LowKey(idx, visited[..k]), LevelCursor(idx, visited[..k]), off + 1);
        AtMostThenLess(x, p.Item(off + 1), p.Item(P_HIKEY), idx.nkeyatts);
      }
    }
  }

  lemma LeafBound(idx: Index, p: Page, lowkey: Option<Tuple>, c: Cursor, x: Tuple)
    requires PagePass(idx, p, lowkey, c) && p.leaf && !p.Ignore() && !p.Rightmost()
    requires exists off :: p.Real(off) && p.Item(off) == x
    ensures p.Has(P_HIKEY) && AtMost(x, p.Item(P_HIKEY), idx.nkeyatts)
  {
    hide RightPass, LessFrom, Compare;
    var off :| p.Real(off) && p.Item(off) == x;
    assert p.Data(off) && OffsetPass(idx, p, lowkey, c, off);
    NattsRegular(p, off, idx.nkeyatts);
    NattsRegular(p, P_HIKEY, idx.nkeyatts);
    InvariantsAreOrder(x, p, P_HIKEY, idx.nkeyatts);
  }

  lemma SeparatorBound(idx: Index, p: Page, lowkey: Option<Tuple>, c: Cursor, off: nat)
    requires PagePass(idx, p, lowkey, c) && !p.leaf && !p.Ignore() && !p.Rightmost() && p.Real(off)
    ensures Less(p.Item(off), p.Item(P_HIKEY), idx.nkeyatts)
  {
    hide RightPass, LessFrom, Compare, DownlinkPass;
    assert p.Data(off) && OffsetPass(idx, p, lowkey, c, off);
    NattsRegular(p, off, idx.nkeyatts);
    NattsRegular(p, P_HIKEY, idx.nkeyatts);
    InvariantsAreOrder(p.Item(off), p, P_HIKEY, idx.nkeyatts);
  }

  /** Every leaf item in the subtree below a downlink, whatever its height, is at most the
      next separator on the page, or the high key of the page if the downlink is the last
      one of a page that has a right sibling. */
  lemma {:induction false} DownlinkBounds(idx: Index, start: LevelStart, levels: seq<seq<nat>>, k: nat,
                                          off: nat, x: Tuple)
    requires start.leftmost != P_NONE && IndexPass(idx, start, levels) && AllSettled(idx, levels) && start.level > 0
    requires k < |levels[0]| && idx.pages[levels[0][k]].Data(off)
    requires Under(idx, idx.pages[levels[0][k]].Item(off).link, start.level - 1, x)
    ensures UpperBound(idx.pages[levels[0][k]], off).Some? ==>
      AtMost(x, UpperBound(idx.pages[levels[0][k]], off).value, idx.nkeyatts)
    decreases |levels|, 0
  {
    hide Visits, PagePass, LessFrom, NextLevel, Under, IndexPass, PivotIdentical;
    var next := Descend(idx, start, levels);
    var visited := levels[0];
    var p := InternalPage(idx, start, visited, k);
    if UpperBound(p, off).Some? {
      SettledLinks(idx, start, visited);
      DownlinkAmong(idx, visited, k, off);
      var m := ChildIsVisited(idx, start, visited, next, levels[1], k, off);
      ChildHasRight(idx, start, visited, k, off);
      HighKeyBounds(idx, next, levels[1..], m, x);
      var child := idx.pages[p.Item(off).link];
      ChildRepeatsBound(idx, p, LowKey(idx, visited[..k]), LevelCursor(idx, visited[..k]), off, child);
      IdenticalOrder(child.Item(P_HIKEY), UpperBound(p, off).value, x, idx.nkeyatts, 0);
    }
  }

  /** The levels below an internal level. */
  lemma Descend(idx: Index, start: LevelStart, levels: seq<seq<nat>>) returns (next: LevelStart)
    requires start.leftmost != P_NONE && IndexPass(idx, start, levels) && AllSettled(idx, levels) && start.level > 0
    ensures |levels| > 1 && LevelPass(idx, start, levels[0])
    ensures NextLevel(idx, levels[0]) == Some(next) && next.leftmost != P_NONE && next.level == start.level - 1
    ensures IndexPass(idx, next, levels[1..]) && AllSettled(idx, levels[1..])
    ensures levels[1..][0] == levels[1] && LevelPass(idx, next, levels[1])
  {
    hide LevelPass, Settled;
    next := NextLevel(idx, levels[0]).value;
    NextIsBelow(idx, start, levels[0], next);
    assert forall i :: 0 <= i < |levels| - 1 ==> levels[1..][i] == levels[i + 1];
  }

  lemma NextIsBelow(idx: Index, start: LevelStart, visited: seq<nat>, next: LevelStart)
    requires LevelPass(idx, start, visited) && start.level > 0 && Settled(idx, visited)
    requires NextLevel(idx, visited) == Some(next)
    ensures next.leftmost != P_NONE && next.level == start.level - 1
  {
    hide PagePass, Visits;
    var p := InternalPage(idx, start, visited, 0);
    SettledLinks(idx, start, visited);
    FirstDownlinkIsFirst(idx, visited);
  }

  /** The separator of a downlink is strictly below every item with a key on its child. */
  lemma ChildItemsAbove(idx: Index, start: LevelStart, levels: seq<seq<nat>>, k: nat, off: nat, o: nat)
    requires start.leftmost != P_NONE && IndexPass(idx, start, levels) && AllSettled(idx, levels) && start.level > 0
    requires k < |levels[0]| && idx.pages[levels[0][k]].Real(off)
    requires idx.pages[levels[0][k]].Item(off).link in idx.pages
    requires idx.pages[idx.pages[levels[0][k]].Item(off).link].Real(o)
    ensures var down := idx.pages[levels[0][k]].Item(off);
            Less(down, idx.pages[down.link].Item(o), idx.nkeyatts)
  {
    hide Visits, PagePass, LessFrom;
    var visited := levels[0];
    var p := InternalPage(idx, start, visited, k);
    var next := Descend(idx, start, levels);
    assert p.Data(off);
    var m := ChildIsVisited(idx, start, visited, next, levels[1], k, off);
    ChildRegular(idx, next, levels[1], m, o);
    SeparatorRegular(idx, p, LowKey(idx, visited[..k]), LevelCursor(idx, visited[..k]), off);
    var child := idx.pages[p.Item(off).link];
    InvariantsAreOrder(p.Item(off), child, o, idx.nkeyatts);
  }

  lemma SeparatorRegular(idx: Index, p: Page, lowkey: Option<Tuple>, c: Cursor, off: nat)
    requires PagePass(idx, p, lowkey, c) && !p.leaf && !p.Ignore() && p.Real(off) && p.Item(off).link in idx.pages
    ensures Regular(p.Item(off), idx.nkeyatts) && ChildAbove(idx, p.Item(off), p.Item(off).link)
  {
    assert p.Data(off) && OffsetPass(idx, p, lowkey, c, off);
    NattsRegular(p, off, idx.nkeyatts);
  }

  lemma ChildRegular(idx: Index, start: LevelStart, visited: seq<nat>, m: nat, o: nat)
    requires Visits(idx, start, visited) && m < |visited| && AllLive(idx, visited) && idx.pages[visited[m]].Real(o)
    ensures Regular(idx.pages[visited[m]].Item(o), idx.nkeyatts)
  {
    VisitAt(idx, start, visited, m);
    ItemsRegular(idx, idx.pages[visited[m]], LowKey(idx, visited[..m]), LevelCursor(idx, visited[..m]), o);
  }

  // ------------------------------------------- the null downlink

  /** A root page whose only downlink is the null block number. */
  function Stump(): Index
  {
    Index(map[1 := Page(0, 0, 1, false, true, false, false, false, [Tuple([], None, true, P_NONE)])], 1)
  }

  lemma StumpPasses()
    ensures PagePass(Stump(), Stump().pages[1], None, Outset)
  {
    var idx, p := Stump(), Stump().pages[1];
    var s, t := StepOf(idx, p, None, Outset, 1), StepOf(idx, p, None, Outset, INVALID_OFFSET);
    assert WalkEnds(idx, s, []) && WalkEnds(idx, t, []);
    assert OffsetPass(idx, p, None, Outset, 1);
  }

  /** Such an index is accepted, though it has no leaf level. */
  lemma NullDownlinkAccepted()
    ensures IndexPass(Stump(), LevelStart(1, 1, true), [[1]])
    ensures !NoNullDownlinks(Stump(), [1])
  {
    hide PagePass;
    var idx, start := Stump(), LevelStart(1, 1, true);
    StumpPasses();
    assert Visits(idx, start, []);
    VisitsMore(idx, start, [], 1);
    assert [] + [1] == [1];
    assert LevelPass(idx, start, [1]);
    assert [[1]][1..] == [];
    assert IndexPass(idx, LevelStart(0, P_NONE, false), []);
    assert LinksTo(idx.pages[1], 2) == [P_NONE];
    assert Downlinks(idx, []) + [P_NONE] == Downlinks(idx, [1]);
  }
}
