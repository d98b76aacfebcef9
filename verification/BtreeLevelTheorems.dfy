/** What an accepted walk of one level implies about the whole level. */
module BtreeLevelTheorems {
  import opened Wrappers
  import opened BtreeKey
  import opened BtreePage
  import opened BtreeLevel
  import opened BtreeFinite

  // ---------------------------------------------------------------- no cycles

  /** No page of the walk is half-dead. */
  predicate AllLive(idx: Index, visited: seq<nat>)
  {
    forall i :: 0 <= i < |visited| ==> visited[i] in idx.pages && !idx.pages[visited[i]].Ignore()
  }

  lemma LiveVisit(idx: Index, start: LevelStart, visited: seq<nat>, i: nat)
    requires Visits(idx, start, visited) && AllLive(idx, visited) && i < |visited|
    ensures visited[i] != P_NONE
    ensures idx.pages[visited[i]].prev == if i == 0 then P_NONE else visited[i - 1]
  {
    hide PagePass;
    VisitAt(idx, start, visited, i);
    assert i > 0 ==> LeftOf(visited[..i]) == visited[i - 1];
  }

  /** Left links that agree with right links rule out every cycle: two visits of one block
      would mean two visits of its left sibling, down to the leftmost page, which has none. */
  lemma {:induction false} NoBlockTwice(idx: Index, start: LevelStart, visited: seq<nat>, i: nat, j: nat)
    requires Visits(idx, start, visited) && AllLive(idx, visited) && i < j < |visited|
    ensures visited[i] != visited[j]
    decreases i
  {
    hide Visits;
    LiveVisit(idx, start, visited, i);
    LiveVisit(idx, start, visited, j);
    LiveVisit(idx, start, visited, j - 1);
    if i > 0 {
      NoBlockTwice(idx, start, visited, i - 1, j - 1);
    }
  }

  /** A walk without half-dead pages is no longer than the index has pages. */
  lemma WalkIsFinite(idx: Index, start: LevelStart, visited: seq<nat>)
    requires Visits(idx, start, visited) && AllLive(idx, visited)
    ensures |visited| <= |idx.pages|
  {
    forall i, j | 0 <= i < j < |visited| ensures visited[i] != visited[j] {
      NoBlockTwice(idx, start, visited, i, j);
    }
    DistinctCount(visited, idx.pages.Keys);
  }

  /** A level that passes has no deleted page, and its rightmost page is live. */
  lemma NoDeletedPage(idx: Index, start: LevelStart, visited: seq<nat>)
    requires LevelPass(idx, start, visited)
    ensures forall i :: 0 <= i < |visited| ==> visited[i] in idx.pages && !idx.pages[visited[i]].deleted
    ensures !idx.pages[visited[|visited| - 1]].Ignore()
  {
    hide Visits, LivePass, Sane;
    forall i | 0 <= i < |visited| ensures visited[i] in idx.pages && !idx.pages[visited[i]].deleted {
      VisitAt(idx, start, visited, i);
    }
    VisitAt(idx, start, visited, |visited| - 1);
  }

  // ---------------------------------------------------------------- leaf order

  /** The data items of a page. */
  function DataItems(p: Page): seq<Tuple>
  {
    if |p.items| < p.FirstDataKey() then [] else p.items[p.FirstDataKey() - 1..]
  }

  function PageItems(idx: Index, visited: seq<nat>): seq<seq<Tuple>>
  {
    seq(|visited|, i requires 0 <= i < |visited| =>
      if visited[i] in idx.pages then DataItems(idx.pages[visited[i]]) else [])
  }

  function Concat(blocks: seq<seq<Tuple>>): seq<Tuple>
  {
    if blocks == [] then [] else Concat(blocks[..|blocks| - 1]) + blocks[|blocks| - 1]
  }

  /** The data items of a level from left to right. */
  function LevelItems(idx: Index, visited: seq<nat>): seq<Tuple>
  {
    Concat(PageItems(idx, visited))
  }

  ghost predicate Increasing(s: seq<Tuple>, n: nat)
  {
    forall i, j :: 0 <= i < j < |s| ==> Less(s[i], s[j], n)
  }

  /** Every leaf page is live and holds an item. */
  predicate LiveLeaves(idx: Index, visited: seq<nat>)
  {
    forall i :: 0 <= i < |visited| ==>
      && visited[i] in idx.pages && !idx.pages[visited[i]].Ignore() && idx.pages[visited[i]].leaf
      && DataItems(idx.pages[visited[i]]) != []
  }

  lemma ItemsRegular(idx: Index, p: Page, lowkey: Option<Tuple>, c: Cursor, off: nat)
    requires PagePass(idx, p, lowkey, c) && p.Real(off) && !p.Ignore()
    ensures Regular(p.Item(off), idx.nkeyatts)
  {
    assert p.Data(off);
    NattsRegular(p, off, idx.nkeyatts);
  }

  lemma Neighbours(idx: Index, p: Page, lowkey: Option<Tuple>, c: Cursor, off: nat)
    requires PagePass(idx, p, lowkey, c) && !p.Ignore() && p.Real(off) && off < |p.items|
    ensures Less(p.Item(off), p.Item(off + 1), idx.nkeyatts)
  {
    hide RightPass, DownlinkPass, LessFrom, Compare;
    assert p.Data(off) && p.Real(off + 1);
    assert OffsetPass(idx, p, lowkey, c, off);
    ItemsRegular(idx, p, lowkey, c, off);
    ItemsRegular(idx, p, lowkey, c, off + 1);
    InvariantsAreOrder(p.Item(off), p, off + 1, idx.nkeyatts);
  }

  /** Within a page, neighbours are in order, and so are all. */
  lemma {:induction false} PageOrdered(idx: Index, p: Page, lowkey: Option<Tuple>, c: Cursor, i: nat, j: nat)
    requires PagePass(idx, p, lowkey, c) && !p.Ignore() && p.Real(i) && i < j <= |p.items|
    ensures Less(p.Item(i), p.Item(j), idx.nkeyatts)
    decreases j - i
  {
    Neighbours(idx, p, lowkey, c, j - 1);
    if i < j - 1 {
      PageOrdered(idx, p, lowkey, c, i, j - 1);
      LessTransitive(p.Item(i), p.Item(j - 1), p.Item(j), idx.nkeyatts, 0);
    }
  }

  lemma DataIncreasing(idx: Index, p: Page, lowkey: Option<Tuple>, c: Cursor)
    requires PagePass(idx, p, lowkey, c) && !p.Ignore() && p.leaf
    ensures Increasing(DataItems(p), idx.nkeyatts)
  {
    var s, first := DataItems(p), p.FirstDataKey();
    forall i, j | 0 <= i < j < |s| ensures Less(s[i], s[j], idx.nkeyatts) {
      assert p.Real(first + i);
      PageOrdered(idx, p, lowkey, c, first + i, first + j);
    }
  }

  /** The last item of a page is below the first one of its right sibling. */
  lemma AcrossPages(idx: Index, p: Page, lowkey: Option<Tuple>, c: Cursor, q: Page, lowkey2: Option<Tuple>, c2: Cursor)
    requires PagePass(idx, p, lowkey, c) && PagePass(idx, q, lowkey2, c2) && !p.Rightmost()
    requires p.next in idx.pages && q == idx.pages[p.next]
    requires !p.Ignore() && p.leaf && DataItems(p) != [] && !q.Ignore() && q.leaf && DataItems(q) != []
    ensures Less(DataItems(p)[|DataItems(p)| - 1], DataItems(q)[0], idx.nkeyatts)
  {
    var m, first := |p.items|, q.FirstDataKey();
    assert p.Real(m) && p.Data(m) && q.Real(first);
    assert OffsetPass(idx, p, lowkey, c, m);
    var path :| Lands(idx, p.next, path) && BelowFirst(p, idx.pages[path[|path| - 1]]);
    assert |path| == 1 by {
      assert |path| > 1 ==> Passable(idx.pages[path[0]]);
    }
    assert FirstKey(q) == Some(q.Item(first));
    ItemsRegular(idx, p, lowkey, c, m);
    ItemsRegular(idx, q, lowkey2, c2, first);
    InvariantsAreOrder(q.Item(first), p, m, idx.nkeyatts);
  }

  lemma IncreasingAppend(s: seq<Tuple>, t: seq<Tuple>, n: nat)
    requires Increasing(s, n) && Increasing(t, n)
    requires s != [] && t != [] ==> Less(s[|s| - 1], t[0], n)
    ensures Increasing(s + t, n)
  {
    var u := s + t;
    forall i, j | 0 <= i < j < |u| ensures Less(u[i], u[j], n) {
      if i < |s| <= j {
        var last, head := s[|s| - 1], t[0];
        if i < |s| - 1 { LessTransitive(s[i], last, head, n, 0); }
        if j > |s| { LessTransitive(s[i], head, t[j - |s|], n, 0); }
      }
    }
  }

  lemma VisitedIncreasing(idx: Index, start: LevelStart, visited: seq<nat>, k: nat)
    requires Visits(idx, start, visited) && LiveLeaves(idx, visited) && k < |visited|
    ensures Increasing(DataItems(idx.pages[visited[k]]), idx.nkeyatts)
  {
    VisitAt(idx, start, visited, k);
    DataIncreasing(idx, idx.pages[visited[k]], LowKey(idx, visited[..k]), LevelCursor(idx, visited[..k]));
  }

  lemma VisitedAcross(idx: Index, start: LevelStart, visited: seq<nat>, k: nat)
    requires Visits(idx, start, visited) && LiveLeaves(idx, visited) && k + 1 < |visited|
    ensures var d := DataItems(idx.pages[visited[k]]);
      Less(d[|d| - 1], DataItems(idx.pages[visited[k + 1]])[0], idx.nkeyatts)
  {
    VisitAt(idx, start, visited, k);
    VisitAt(idx, start, visited, k + 1);
    assert LeftOf(visited[..k + 1]) == visited[k];
    AcrossPages(idx, idx.pages[visited[k]], LowKey(idx, visited[..k]), LevelCursor(idx, visited[..k]),
                idx.pages[visited[k + 1]], LowKey(idx, visited[..k + 1]), LevelCursor(idx, visited[..k + 1]));
  }

  lemma {:induction false} ConcatIncreasing(blocks: seq<seq<Tuple>>, n: nat)
    requires forall k :: 0 <= k < |blocks| ==> blocks[k] != [] && Increasing(blocks[k], n)
    requires forall k, m :: 0 <= k && m == k + 1 < |blocks| ==> Less(blocks[k][|blocks[k]| - 1], blocks[m][0], n)
    ensures Increasing(Concat(blocks), n)
    ensures blocks != [] ==>
      var s, d := Concat(blocks), blocks[|blocks| - 1];
      s != [] && s[|s| - 1] == d[|d| - 1]
    decreases |blocks|
  {
    if blocks != [] {
      var m := |blocks| - 1;
      var init := blocks[..m];
      ConcatIncreasing(init, n);
      assert m > 0 ==> init[m - 1] == blocks[m - 1];
      IncreasingAppend(Concat(init), blocks[m], n);
    }
  }

  /** On an accepted leaf level of live, non-empty pages all items, taken from left to
      right over all pages, are in strictly increasing order. */
  lemma LeafItemsIncreasing(idx: Index, start: LevelStart, visited: seq<nat>)
    requires LevelPass(idx, start, visited) && LiveLeaves(idx, visited)
    ensures Increasing(LevelItems(idx, visited), idx.nkeyatts)
  {
    var blocks := PageItems(idx, visited);
    forall k | 0 <= k < |blocks| ensures blocks[k] != [] && Increasing(blocks[k], idx.nkeyatts) {
      VisitedIncreasing(idx, start, visited, k);
    }
    forall k, m | 0 <= k && m == k + 1 < |blocks|
      ensures Less(blocks[k][|blocks[k]| - 1], blocks[m][0], idx.nkeyatts)
    {
      VisitedAcross(idx, start, visited, k);
    }
    ConcatIncreasing(blocks, idx.nkeyatts);
  }
}
