/** Order across subtrees of an accepted index, and how far lower bounds reach. */
module BtreeOrderTheorems {
  import opened Wrappers
  import opened BtreeKey
  import opened BtreePage
  import opened BtreeLevel
  import opened BtreeLevelTheorems
  import opened BtreeChainTheorems
  import opened BtreeIndexTheorems

  // ------------------------------------------- positions of children

  lemma {:induction false} LinksAt(p: Page, off: nat, o: nat)
    requires p.FirstDataKey() <= o < off <= |p.items| + 1
    ensures |LinksTo(p, off)| == off - p.FirstDataKey() && LinksTo(p, off)[o - p.FirstDataKey()] == p.Item(o).link
    decreases off
  {
    if o < off - 1 {
      LinksAt(p, off - 1, o);
    } else if off > p.FirstDataKey() + 1 {
      LinksAt(p, off - 1, o - 1);
    } else {
      assert LinksTo(p, off - 1) == [];
    }
  }

  /** Where the downlink at offset `off` of page `k` stands among the downlinks of the level. */
  function Place(idx: Index, visited: seq<nat>, k: nat, off: nat): int
    requires k < |visited| && visited[k] in idx.pages
  {
    |Downlinks(idx, visited[..k])| + off - idx.pages[visited[k]].FirstDataKey()
  }

  lemma PageLinks(idx: Index, visited: seq<nat>, k: nat)
    requires AllLive(idx, visited) && k < |visited|
    ensures Downlinks(idx, visited[..k + 1]) == Downlinks(idx, visited[..k]) + PageDownlinks(idx.pages[visited[k]])
  {
    assert visited[..k + 1][..k] == visited[..k];
  }

  lemma {:induction false} LinksPrefix(idx: Index, visited: seq<nat>, k: nat, m: nat)
    requires AllLive(idx, visited) && k <= m <= |visited|
    ensures Downlinks(idx, visited[..k]) <= Downlinks(idx, visited[..m])
    decreases m - k
  {
    hide Downlinks;
    if k < m {
      LinksPrefix(idx, visited, k, m - 1);
      PageLinks(idx, visited, m - 1);
    }
  }

  lemma PlaceOf(idx: Index, visited: seq<nat>, k: nat, off: nat)
    requires AllLive(idx, visited) && k < |visited| && idx.pages[visited[k]].Data(off)
    ensures 0 <= Place(idx, visited, k, off) < |Downlinks(idx, visited[..k + 1])| <= |Downlinks(idx, visited)|
    ensures Downlinks(idx, visited)[Place(idx, visited, k, off)] == idx.pages[visited[k]].Item(off).link
  {
    hide Downlinks, LinksTo;
    var p := idx.pages[visited[k]];
    PageLinks(idx, visited, k);
    LinksAt(p, |p.items| + 1, off);
    LinksPrefix(idx, visited, k + 1, |visited|);
    assert visited[..|visited|] == visited;
  }

  predicate Before(k: nat, off: nat, m: nat, o: nat) { k < m || (k == m && off < o) }

  lemma PlacesInOrder(idx: Index, visited: seq<nat>, k: nat, off: nat, m: nat, o: nat)
    requires AllLive(idx, visited) && k < |visited| && m < |visited| && Before(k, off, m, o)
    requires idx.pages[visited[k]].Data(off) && idx.pages[visited[m]].Data(o)
    ensures Place(idx, visited, k, off) < Place(idx, visited, m, o)
  {
    hide Downlinks;
    PlaceOf(idx, visited, k, off);
    if k < m {
      LinksPrefix(idx, visited, k + 1, m);
    }
  }

  /** Children of an accepted level lie on the next level in the order of their downlinks. */
  lemma ChildrenInOrder(idx: Index, start: LevelStart, visited: seq<nat>, next: LevelStart, below: seq<nat>,
                        k: nat, off: nat, m: nat, o: nat) returns (a: nat, b: nat)
    requires LevelPass(idx, start, visited) && start.level > 0 && Settled(idx, visited)
    requires NextLevel(idx, visited) == Some(next) && LevelPass(idx, next, below)
    requires k < |visited| && idx.pages[visited[k]].Data(off)
    requires m < |visited| && idx.pages[visited[m]].Data(o) && Before(k, off, m, o)
    ensures a < b < |below|
    ensures below[a] == idx.pages[visited[k]].Item(off).link && below[b] == idx.pages[visited[m]].Item(o).link
  {
    hide PagePass, Visits, Downlinks;
    var p := InternalPage(idx, start, visited, 0);
    SettledLinks(idx, start, visited);
    FirstDownlinkIsFirst(idx, visited);
    var chain, found := DownlinksInOrder(idx, start, visited);
    PlaceOf(idx, visited, k, off);
    PlaceOf(idx, visited, m, o);
    PlacesInOrder(idx, visited, k, off, m, o);
    a, b := found[Place(idx, visited, k, off)], found[Place(idx, visited, m, o)];
    ChainsAgree(idx, next, below, chain, a);
    ChainsAgree(idx, next, below, chain, b);
  }

  // ------------------------------------------- leaves

  lemma {:induction false} LastBelowFirst(idx: Index, start: LevelStart, visited: seq<nat>, k: nat, m: nat)
    requires Visits(idx, start, visited) && LiveLeaves(idx, visited) && k < m < |visited|
    ensures var d := DataItems(idx.pages[visited[k]]);
      Less(d[|d| - 1], DataItems(idx.pages[visited[m]])[0], idx.nkeyatts)
    decreases m
  {
    hide Visits, LessFrom, DataItems;
    VisitedAcross(idx, start, visited, m - 1);
    if k < m - 1 {
      LastBelowFirst(idx, start, visited, k, m - 1);
      VisitedIncreasing(idx, start, visited, m - 1);
      var d, e, f := DataItems(idx.pages[visited[k]]), DataItems(idx.pages[visited[m - 1]]),
                     DataItems(idx.pages[visited[m]]);
      LessTransitive(d[|d| - 1], e[0], e[|e| - 1], idx.nkeyatts, 0);
      LessTransitive(d[|d| - 1], e[|e| - 1], f[0], idx.nkeyatts, 0);
    }
  }

  lemma LeavesInOrder(idx: Index, start: LevelStart, visited: seq<nat>, k: nat, m: nat, i: nat, j: nat)
    requires Visits(idx, start, visited) && LiveLeaves(idx, visited) && k < m < |visited|
    requires i < |DataItems(idx.pages[visited[k]])| && j < |DataItems(idx.pages[visited[m]])|
    ensures Less(DataItems(idx.pages[visited[k]])[i], DataItems(idx.pages[visited[m]])[j], idx.nkeyatts)
  {
    hide Visits, LessFrom, DataItems;
    var d, e, n := DataItems(idx.pages[visited[k]]), DataItems(idx.pages[visited[m]]), idx.nkeyatts;
    LastBelowFirst(idx, start, visited, k, m);
    VisitedIncreasing(idx, start, visited, k);
    VisitedIncreasing(idx, start, visited, m);
    LessTransitive(d[i], d[|d| - 1], e[0], n, 0);
    LessTransitive(d[i], e[0], e[j], n, 0);
  }

  /** The last level consists of live leaves that are not empty. */
  predicate FullLeaves(idx: Index, levels: seq<seq<nat>>)
  {
    levels != [] && LiveLeaves(idx, levels[|levels| - 1])
  }

  lemma LeafItemAt(idx: Index, visited: seq<nat>, k: nat, x: Tuple) returns (i: nat)
    requires LiveLeaves(idx, visited) && k < |visited| && Under(idx, visited[k], 0, x)
    ensures i < |DataItems(idx.pages[visited[k]])| && DataItems(idx.pages[visited[k]])[i] == x
  {
    var p := idx.pages[visited[k]];
    var off: nat :| p.Real(off) && p.Item(off) == x;
    i := off - p.FirstDataKey();
  }

  lemma LeafLevelIsLast(idx: Index, start: LevelStart, levels: seq<seq<nat>>)
    requires start.leftmost != P_NONE && IndexPass(idx, start, levels) && AllSettled(idx, levels)
    requires start.level == 0 && FullLeaves(idx, levels)
    ensures |levels| == 1 && LevelPass(idx, start, levels[0]) && LiveLeaves(idx, levels[0])
  {
    hide PagePass, Visits, LiveLeaves;
    var visited := levels[0];
    assert Settled(idx, visited);
    var p := LeafPage(idx, start, visited, 0);
    assert NextLevel(idx, visited) == Some(LevelStart(0, P_NONE, false));
    assert IndexPass(idx, LevelStart(0, P_NONE, false), levels[1..]);
  }

  // ------------------------------------------- subtrees

  /** Whatever lies below a page is less than whatever lies below a page to its right, at any
      height. */
  lemma {:induction false} SubtreesInOrder(idx: Index, start: LevelStart, levels: seq<seq<nat>>, k: nat,
                                           m: nat, x: Tuple, y: Tuple)
    requires start.leftmost != P_NONE && IndexPass(idx, start, levels) && AllSettled(idx, levels)
    requires FullLeaves(idx, levels)
    requires k < m < |levels[0]| && Under(idx, levels[0][k], start.level, x) && Under(idx, levels[0][m], start.level, y)
    ensures Less(x, y, idx.nkeyatts)
    decreases |levels|
  {
    hide Visits, PagePass, LessFrom, NextLevel, IndexPass, AllSettled, LiveLeaves;
    var visited := levels[0];
    if start.level == 0 {
      LeafLevelIsLast(idx, start, levels);
      var i := LeafItemAt(idx, visited, k, x);
      var j := LeafItemAt(idx, visited, m, y);
      LeavesInOrder(idx, start, visited, k, m, i, j);
    } else {
      var next := Descend(idx, start, levels);
      LevelSettled(idx, levels);
      var p := InternalPage(idx, start, visited, k);
      var q := InternalPage(idx, start, visited, m);
      var off: nat :| p.Data(off) && Under(idx, p.Item(off).link, start.level - 1, x);
      var o: nat :| q.Data(o) && Under(idx, q.Item(o).link, start.level - 1, y);
      var a, b := ChildrenInOrder(idx, start, visited, next, levels[1], k, off, m, o);
      SubtreesInOrder(idx, next, levels[1..], a, b, x, y);
    }
  }

  lemma LevelSettled(idx: Index, levels: seq<seq<nat>>)
    requires AllSettled(idx, levels) && |levels| > 0
    ensures Settled(idx, levels[0])
  {
  }

  /** The first item of the leftmost leaf below a block. */
  function FirstItem(idx: Index, blk: nat, h: nat): Option<Tuple>
    decreases h
  {
    if blk !in idx.pages || !idx.pages[blk].Has(idx.pages[blk].FirstDataKey()) then None
    else if h == 0 then Some(idx.pages[blk].Item(idx.pages[blk].FirstDataKey()))
    else FirstItem(idx, FirstDownlink(idx.pages[blk]), h - 1)
  }

  /** It is there, and is the least of all items below. */
  lemma {:induction false} FirstIsLeast(idx: Index, start: LevelStart, levels: seq<seq<nat>>, k: nat, x: Tuple)
    requires start.leftmost != P_NONE && IndexPass(idx, start, levels) && AllSettled(idx, levels)
    requires FullLeaves(idx, levels)
    requires k < |levels[0]|
    ensures FirstItem(idx, levels[0][k], start.level).Some?
    ensures Under(idx, levels[0][k], start.level, FirstItem(idx, levels[0][k], start.level).value)
    ensures Under(idx, levels[0][k], start.level, x) ==>
      var first := FirstItem(idx, levels[0][k], start.level).value; x == first || Less(first, x, idx.nkeyatts)
    decreases |levels|
  {
    hide Visits, PagePass, LessFrom, NextLevel, IndexPass, AllSettled;
    var visited, n := levels[0], idx.nkeyatts;
    LevelSettled(idx, levels);
    if start.level == 0 {
      LeafLevelIsLast(idx, start, levels);
      LeafFirst(idx, start, visited, k, x);
    } else {
      var next := Descend(idx, start, levels);
      var p := InternalPage(idx, start, visited, k);
      var first := p.FirstDataKey();
      var a := ChildIsVisited(idx, start, visited, next, levels[1], k, first);
      FirstIsLeast(idx, next, levels[1..], a, x);
      assert p.Data(first);
      if off: nat :| p.Data(off) && Under(idx, p.Item(off).link, start.level - 1, x) {
        if off > first {
          var b, c := ChildrenInOrder(idx, start, visited, next, levels[1], k, first, k, off);
          SubtreesInOrder(idx, next, levels[1..], b, c, FirstItem(idx, levels[1][b], next.level).value, x);
        }
      }
    }
  }

  lemma LeafFirst(idx: Index, start: LevelStart, visited: seq<nat>, k: nat, x: Tuple)
    requires Visits(idx, start, visited) && LiveLeaves(idx, visited) && k < |visited|
    ensures FirstItem(idx, visited[k], 0).Some? && Under(idx, visited[k], 0, FirstItem(idx, visited[k], 0).value)
    ensures Under(idx, visited[k], 0, x) ==>
      var first := FirstItem(idx, visited[k], 0).value; x == first || Less(first, x, idx.nkeyatts)
  {
    hide Visits, LessFrom;
    var p := idx.pages[visited[k]];
    assert p.Real(p.FirstDataKey());
    VisitedIncreasing(idx, start, visited, k);
    if Under(idx, visited[k], 0, x) {
      var i := LeafItemAt(idx, visited, k, x);
    }
  }

  /** Everything below a downlink exceeds its separator if and only if the first item of the
      leftmost leaf below does. */
  lemma LowerBoundIff(idx: Index, start: LevelStart, levels: seq<seq<nat>>, k: nat, off: nat)
    requires start.leftmost != P_NONE && IndexPass(idx, start, levels) && AllSettled(idx, levels)
    requires FullLeaves(idx, levels)
    requires start.level > 0 && k < |levels[0]| && idx.pages[levels[0][k]].Real(off)
    ensures var sep := idx.pages[levels[0][k]].Item(off); var first := FirstItem(idx, sep.link, start.level - 1);
      && first.Some?
      && ((forall x :: Under(idx, sep.link, start.level - 1, x) ==> Less(sep, x, idx.nkeyatts))
          <==> Less(sep, first.value, idx.nkeyatts))
  {
    hide Visits, PagePass, LessFrom, NextLevel, IndexPass, AllSettled, Under, FirstItem;
    var visited, n := levels[0], idx.nkeyatts;
    var next := Descend(idx, start, levels);
    LevelSettled(idx, levels);
    var sep, h := idx.pages[visited[k]].Item(off), start.level - 1;
    assert idx.pages[visited[k]].Data(off);
    var a := ChildIsVisited(idx, start, visited, next, levels[1], k, off);
    FirstIsLeast(idx, next, levels[1..], a, sep);
    var first := FirstItem(idx, sep.link, h).value;
    if Less(sep, first, n) {
      forall x | Under(idx, sep.link, h, x) ensures Less(sep, x, n) {
        FirstIsLeast(idx, next, levels[1..], a, x);
        LessTransitive(sep, first, x, n, 0);
      }
    }
  }
}
