/** What an accepted walk of an internal level implies about the level below: its
    downlinks, read from left to right, are met in that order on the child level. */
module BtreeChainTheorems {
  import opened Wrappers
  import opened BtreeKey
  import opened BtreePage
  import opened BtreeLevel

  /** The blocks that the data items of a page below `off` lead to. */
  function LinksTo(p: Page, off: nat): seq<nat>
    requires off <= |p.items| + 1
  {
    if off <= p.FirstDataKey() then [] else LinksTo(p, off - 1) + [p.Item(off - 1).link]
  }

  function PageDownlinks(p: Page): seq<nat>
  {
    LinksTo(p, |p.items| + 1)
  }

  /** The downlinks of a level: those of its live pages, from left to right. */
  function Downlinks(idx: Index, visited: seq<nat>): seq<nat>
  {
    if visited == [] then []
    else
      Downlinks(idx, visited[..|visited| - 1]) +
      (if LeftOf(visited) in idx.pages && !idx.pages[LeftOf(visited)].Ignore()
       then PageDownlinks(idx.pages[LeftOf(visited)]) else [])
  }

  /** A page that lies on the child level without a downlink: it is ignorable, the root,
      the right half of an incomplete split, or the head of an interrupted deletion. */
  ghost predicate Skippable(idx: Index, chain: seq<nat>, i: nat)
    requires i < |chain|
  {
    && i > 0 && chain[i] in idx.pages && chain[i - 1] in idx.pages
    && (idx.pages[chain[i]].Ignore() || MissingOk(idx, chain[i], idx.pages[chain[i - 1]].incompleteSplit))
  }

  /** `chain` is the child level from its leftmost page on, each page the right sibling of
      the one before; the downlinks lie on it in order, at the positions `found`, and all
      other pages may be skipped. */
  ghost predicate Chained(idx: Index, chain: seq<nat>, found: seq<nat>, downs: seq<nat>)
  {
    && |found| == |downs|
    && RightLinked(idx, chain)
    && (forall i :: 0 <= i < |chain| ==> chain[i] != P_NONE && Loads(idx, chain[i]))
    && (chain != [] ==> idx.pages[chain[0]].Leftmost() && |found| > 0 && found[0] == 0)
    && (forall k :: 0 <= k < |found| ==> found[k] < |chain| && chain[found[k]] == downs[k])
    && (forall k, l :: 0 <= k < l < |found| ==> found[k] < found[l])
    && (forall i :: 0 <= i < |chain| && i !in found ==> Skippable(idx, chain, i))
  }

  /** Between downlinks the chain ends at the last one, where the cursor stands. */
  ghost predicate Midway(idx: Index, chain: seq<nat>, found: seq<nat>, downs: seq<nat>, c: Cursor)
  {
    && Chained(idx, chain, found, downs)
    && if downs == [] then chain == [] && c == Outset
       else found[|found| - 1] == |chain| - 1 && c == CursorAfter(idx, downs[|downs| - 1])
  }

  lemma RightLinkedAppend(idx: Index, a: seq<nat>, b: seq<nat>)
    requires RightLinked(idx, a) && RightLinked(idx, b)
    requires a != [] && b != [] ==> b[0] == NextOf(idx, a[|a| - 1])
    ensures RightLinked(idx, a + b)
  {
    var s := a + b;
    forall i, j | 0 <= i && j == i + 1 < |s| ensures s[j] == NextOf(idx, s[i]) {
      if j < |a| {
        assert s[j] == a[j] && s[i] == a[i];
      } else if i >= |a| {
        assert s[j] == b[j - |a|] && s[i] == b[i - |a|];
      }
    }
  }

  /** The pages of a walk, but for the downlink at its end, may be skipped. */
  lemma WalkSkips(idx: Index, chain: seq<nat>, found: seq<nat>, downs: seq<nat>, s: Step, path: seq<nat>, i: nat)
    requires s.Valid() && Midway(idx, chain, found, downs, Cursor(s.prevright, s.prevsplit))
    requires Walk(idx, s, path) && i < |path| && path[i] != s.Downlink()
    requires P_NONE !in downs
    ensures Skippable(idx, chain + path, |chain| + i)
  {
    var all, k := chain + path, |chain| + i;
    assert all[k] == path[i] && ChildFits(idx, s, path[i], SplitBefore(idx, s, path, i), i == 0);
    if i > 0 {
      assert all[k - 1] == path[i - 1] && ChildFits(idx, s, path[i - 1], SplitBefore(idx, s, path, i - 1), i == 1);
    } else {
      assert downs != [];
      assert all[k - 1] == chain[|chain| - 1] == downs[|downs| - 1];
    }
  }

  /** Chain and walk joined. */
  lemma Join(idx: Index, chain: seq<nat>, found: seq<nat>, downs: seq<nat>, s: Step, path: seq<nat>)
    requires s.Valid() && Midway(idx, chain, found, downs, Cursor(s.prevright, s.prevsplit))
    requires P_NONE !in downs && WalkEnds(idx, s, path)
    ensures RightLinked(idx, chain + path)
    ensures forall i :: 0 <= i < |chain + path| ==> (chain + path)[i] != P_NONE && Loads(idx, (chain + path)[i])
    ensures forall i ::
              0 <= i < |chain + path| && i !in found && (s.Downlink() == P_NONE || i != |chain + path| - 1) ==>
                Skippable(idx, chain + path, i)
  {
    hide MissingOk, HighKeyMatches, Sane;
    var all := chain + path;
    if downs != [] {
      assert chain[|chain| - 1] == downs[|downs| - 1];
    }
    RightLinkedAppend(idx, chain, path);
    forall i | 0 <= i < |all| ensures all[i] != P_NONE && Loads(idx, all[i]) {
      if i >= |chain| {
        assert ChildFits(idx, s, path[i - |chain|], SplitBefore(idx, s, path, i - |chain|), i == |chain|);
      }
    }
    forall i | 0 <= i < |all| && i !in found && (s.Downlink() == P_NONE || i != |all| - 1)
      ensures Skippable(idx, all, i)
    {
      if i < |chain| {
        assert Skippable(idx, chain, i);
      } else {
        WalkSkips(idx, chain, found, downs, s, path, i - |chain|);
      }
    }
  }

  lemma NotFound(found: seq<nat>, last: nat, i: nat)
    requires i !in found + [last]
    ensures i !in found && i != last
  {
  }

  lemma PathEnds(idx: Index, s: Step, path: seq<nat>)
    requires s.Valid() && WalkEnds(idx, s, path) && s.Downlink() != P_NONE
    ensures |path| > 0 && path[|path| - 1] == s.Downlink()
    ensures ChildFits(idx, s, path[0], SplitBefore(idx, s, path, 0), true)
    ensures Cursor(s.prevright, s.prevsplit) == Outset ==> |path| == 1
  {
  }

  lemma FoundExtends(chain: seq<nat>, path: seq<nat>, found: seq<nat>, downs: seq<nat>, d: nat)
    requires |found| == |downs| && path != [] && path[|path| - 1] == d
    requires forall k :: 0 <= k < |found| ==> found[k] < |chain| && chain[found[k]] == downs[k]
    requires forall k, l :: 0 <= k < l < |found| ==> found[k] < found[l]
    ensures var all, more, links := chain + path, found + [|chain| + |path| - 1], downs + [d];
            && (forall k :: 0 <= k < |more| ==> more[k] < |all| && all[more[k]] == links[k])
            && (forall k, l :: 0 <= k < l < |more| ==> more[k] < more[l])
  {
  }

  /** A walk to the next downlink extends the chain. */
  lemma ChainExtends(idx: Index, chain: seq<nat>, found: seq<nat>, downs: seq<nat>, s: Step, path: seq<nat>)
    requires s.Valid() && Midway(idx, chain, found, downs, Cursor(s.prevright, s.prevsplit))
    requires P_NONE !in downs && WalkEnds(idx, s, path) && s.Downlink() != P_NONE
    ensures |path| > 0
    ensures Midway(idx, chain + path, found + [|chain| + |path| - 1], downs + [s.Downlink()],
                   CursorAfter(idx, s.Downlink()))
  {
    hide Skippable, RightLinked, WalkEnds;
    Join(idx, chain, found, downs, s, path);
    PathEnds(idx, s, path);
    var all, last := chain + path, |chain| + |path| - 1;
    FoundExtends(chain, path, found, downs, s.Downlink());
    forall i | 0 <= i < |all| && i !in found + [last] ensures Skippable(idx, all, i) {
      NotFound(found, last, i);
    }
    if chain == [] {
      assert ChildFits(idx, s, path[0], SplitBefore(idx, s, path, 0), true);
    }
  }

  /** The walk that finishes a level leads to its rightmost page. */
  lemma ChainEnds(idx: Index, chain: seq<nat>, found: seq<nat>, downs: seq<nat>, s: Step, path: seq<nat>)
    requires s.Valid() && Midway(idx, chain, found, downs, Cursor(s.prevright, s.prevsplit)) && downs != []
    requires P_NONE !in downs && WalkEnds(idx, s, path) && s.Downlink() == P_NONE
    ensures Chained(idx, chain + path, found, downs) && chain + path != []
    ensures NextOf(idx, (chain + path)[|chain + path| - 1]) == P_NONE
  {
    hide Skippable;
    Join(idx, chain, found, downs, s, path);
    assert chain[|chain| - 1] == downs[|downs| - 1];
  }

  /** No downlink of the level is the null block number. */
  predicate NoNullDownlinks(idx: Index, visited: seq<nat>)
  {
    P_NONE !in Downlinks(idx, visited)
  }

  lemma {:induction false} PageChain(idx: Index, p: Page, lowkey: Option<Tuple>, c: Cursor, off: nat,
                                     chain: seq<nat>, found: seq<nat>, downs: seq<nat>)
    returns (chain2: seq<nat>, found2: seq<nat>)
    requires PagePass(idx, p, lowkey, c) && !p.leaf && Midway(idx, chain, found, downs, c)
    requires p.FirstDataKey() <= off <= |p.items| + 1
    requires P_NONE !in downs && P_NONE !in LinksTo(p, off)
    ensures Midway(idx, chain2, found2, downs + LinksTo(p, off), CursorAt(idx, p, c, off))
    decreases off
  {
    hide Midway, WalkEnds, NattsOk, ItemPass, RightPass, ChildAbove;
    if off == p.FirstDataKey() {
      chain2, found2 := chain, found;
      assert downs + [] == downs;
    } else {
      var o, before, link := off - 1, downs + LinksTo(p, off - 1), p.Item(off - 1).link;
      assert before + [link] == downs + LinksTo(p, off);
      var chain1, found1 := PageChain(idx, p, lowkey, c, o, chain, found, downs);
      assert p.Data(o) && OffsetPass(idx, p, lowkey, c, o);
      var path :| WalkEnds(idx, StepOf(idx, p, lowkey, c, o), path);
      ChainExtends(idx, chain1, found1, before, StepOf(idx, p, lowkey, c, o), path);
      chain2, found2 := chain1 + path, found1 + [|chain1| + |path| - 1];
    }
  }

  lemma LiveIsInternal(idx: Index, start: LevelStart, before: seq<nat>, blk: nat)
    requires VisitPass(idx, start, before, blk) && start.level > 0 && !idx.pages[blk].Ignore()
    ensures !idx.pages[blk].leaf && |idx.pages[blk].items| >= idx.pages[blk].FirstDataKey()
    ensures PageDownlinks(idx.pages[blk]) != []
    ensures PagePass(idx, idx.pages[blk], LowKey(idx, before), LevelCursor(idx, before))
  {
  }

  lemma {:induction false} LevelChain(idx: Index, start: LevelStart, visited: seq<nat>)
    returns (chain: seq<nat>, found: seq<nat>)
    requires Visits(idx, start, visited) && start.level > 0 && NoNullDownlinks(idx, visited)
    requires visited != [] ==> NextOf(idx, LeftOf(visited)) != P_NONE
    ensures Midway(idx, chain, found, Downlinks(idx, visited), LevelCursor(idx, visited))
    decreases |visited|
  {
    hide PagePass, LinksTo;
    if visited == [] {
      chain, found := [], [];
    } else {
      var before, blk := visited[..|visited| - 1], LeftOf(visited);
      chain, found := LevelChain(idx, start, before);
      var p := idx.pages[blk];
      if p.Ignore() {
        assert Downlinks(idx, before) + [] == Downlinks(idx, before);
      } else {
        LiveIsInternal(idx, start, before, blk);
        chain, found := PageChain(idx, p, LowKey(idx, before), LevelCursor(idx, before), |p.items| + 1,
                                  chain, found, Downlinks(idx, before));
      }
    }
  }

  /** The downlinks of an accepted internal level, read from left to right, occur in that
      order on the chain of right links of the level below, from its leftmost page to its
      end, and every page in between may be skipped. */
  lemma {:induction false} DownlinksInOrder(idx: Index, start: LevelStart, visited: seq<nat>)
    returns (chain: seq<nat>, found: seq<nat>)
    requires LevelPass(idx, start, visited) && start.level > 0 && NoNullDownlinks(idx, visited)
    ensures Downlinks(idx, visited) != []
    ensures Chained(idx, chain, found, Downlinks(idx, visited))
    ensures chain != [] && NextOf(idx, chain[|chain| - 1]) == P_NONE
  {
    hide PagePass, Midway, LinksTo;
    var before, blk := visited[..|visited| - 1], LeftOf(visited);
    chain, found := LevelChain(idx, start, before);
    var p := idx.pages[blk];
    LiveIsInternal(idx, start, before, blk);
    chain, found := LastPageChain(idx, p, LowKey(idx, before), LevelCursor(idx, before), chain, found,
                                  Downlinks(idx, before));
  }

  lemma LastPageChain(idx: Index, p: Page, lowkey: Option<Tuple>, c: Cursor,
                      chain: seq<nat>, found: seq<nat>, downs: seq<nat>)
    returns (chain2: seq<nat>, found2: seq<nat>)
    requires PagePass(idx, p, lowkey, c) && !p.leaf && p.Rightmost() && Midway(idx, chain, found, downs, c)
    requires P_NONE !in downs && P_NONE !in PageDownlinks(p) && |p.items| >= p.FirstDataKey()
    ensures Chained(idx, chain2, found2, downs + PageDownlinks(p))
    ensures chain2 != [] && NextOf(idx, chain2[|chain2| - 1]) == P_NONE
  {
    hide Midway, OffsetPass, Chained, WalkEnds;
    var chain1, found1 := PageChain(idx, p, lowkey, c, |p.items| + 1, chain, found, downs);
    var s := StepOf(idx, p, lowkey, c, INVALID_OFFSET);
    var path :| WalkEnds(idx, s, path);
    ChainEnds(idx, chain1, found1, downs + PageDownlinks(p), s, path);
    chain2, found2 := chain1 + path, found1;
  }

  /** Such a chain exists exactly when no downlink is the null block number. */
  lemma ChainedIffNoNull(idx: Index, start: LevelStart, visited: seq<nat>)
    requires LevelPass(idx, start, visited) && start.level > 0
    ensures (exists chain, found :: Chained(idx, chain, found, Downlinks(idx, visited))) <==>
            NoNullDownlinks(idx, visited)
  {
    hide LevelPass, Skippable, RightLinked, Loads;
    if NoNullDownlinks(idx, visited) {
      var chain, found := DownlinksInOrder(idx, start, visited);
    }
    if chain, found :| Chained(idx, chain, found, Downlinks(idx, visited)) {
      ChainedNotNull(idx, chain, found, Downlinks(idx, visited));
    }
  }

  lemma ChainedNotNull(idx: Index, chain: seq<nat>, found: seq<nat>, downs: seq<nat>)
    requires Chained(idx, chain, found, downs)
    ensures P_NONE !in downs
  {
    hide Skippable, RightLinked, Loads;
    forall k | 0 <= k < |downs| ensures downs[k] != P_NONE {
      assert chain[found[k]] == downs[k];
    }
  }
}
