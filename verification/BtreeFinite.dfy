/** Walks that follow links and end are no longer than the index has pages. */
module BtreeFinite {
  import opened BtreePage
  import opened BtreeLevel

  /** Every element is what `next` makes of the one before. */
  ghost predicate Follows(path: seq<nat>, next: nat -> nat)
  {
    forall i, j :: 0 <= i && j == i + 1 < |path| ==> path[j] == next(path[i])
  }

  lemma {:induction false} DistinctCount(s: seq<nat>, keys: set<nat>)
    requires forall i, j :: 0 <= i < j < |s| ==> s[i] != s[j]
    requires forall i :: 0 <= i < |s| ==> s[i] in keys
    ensures |s| <= |keys|
    decreases |s|
  {
    if s != [] {
      var n := |s| - 1;
      assert forall i :: 0 <= i < n ==> s[..n][i] == s[i];
      DistinctCount(s[..n], keys - {s[n]});
    }
  }

  /** From equal elements on, a path repeats itself. */
  lemma {:induction false} Repeats(path: seq<nat>, next: nat -> nat, i: nat, j: nat, d: nat)
    requires Follows(path, next) && i <= j && j + d < |path| && path[i] == path[j]
    ensures path[i + d] == path[j + d]
    decreases d
  {
    if d > 0 {
      Repeats(path, next, i, j, d - 1);
      assert path[i + d] == next(path[i + d - 1]) && path[j + d] == next(path[j + d - 1]);
    }
  }

  /** A path that stops where `done` holds for the first time has no element twice. */
  lemma StopsOnce(path: seq<nat>, next: nat -> nat, done: nat -> bool, keys: set<nat>)
    requires Follows(path, next) && (forall i :: 0 <= i < |path| ==> path[i] in keys)
    requires forall i :: 0 <= i < |path| ==> (done(path[i]) <==> i == |path| - 1)
    ensures |path| <= |keys|
  {
    forall i, j | 0 <= i < j < |path| ensures path[i] != path[j] {
      if path[i] == path[j] {
        var d := |path| - 1 - j;
        Repeats(path, next, i, j, d);
      }
    }
    DistinctCount(path, keys);
  }

  lemma WalkBound(idx: Index, s: Step, path: seq<nat>)
    requires s.Valid() && WalkEnds(idx, s, path)
    ensures |path| <= |idx.pages|
  {
    hide MissingOk, HighKeyMatches;
    forall i | 0 <= i < |path| ensures path[i] in idx.pages {
      assert ChildFits(idx, s, path[i], SplitBefore(idx, s, path, i), i == 0);
    }
    var next := (b: nat) => NextOf(idx, b);
    if s.Downlink() != P_NONE {
      StopsOnce(path, next, (b: nat) => b == s.Downlink(), idx.pages.Keys);
    } else {
      LevelEndsOnce(idx, path);
      StopsOnce(path, next, (b: nat) => NextOf(idx, b) == P_NONE, idx.pages.Keys);
    }
  }

  lemma LevelEndsOnce(idx: Index, path: seq<nat>)
    requires RightLinked(idx, path) && (forall i :: 0 <= i < |path| ==> path[i] != P_NONE)
    requires path != [] ==> NextOf(idx, path[|path| - 1]) == P_NONE
    ensures forall i :: 0 <= i < |path| ==> (NextOf(idx, path[i]) == P_NONE <==> i == |path| - 1)
  {
    forall i | 0 <= i < |path| - 1 ensures NextOf(idx, path[i]) != P_NONE {
      assert path[i + 1] == NextOf(idx, path[i]);
    }
  }

  lemma LandsBound(idx: Index, blk: nat, path: seq<nat>)
    requires Lands(idx, blk, path)
    ensures |path| <= |idx.pages|
  {
    StopsOnce(path, (b: nat) => NextOf(idx, b), (b: nat) => b in idx.pages && !Passable(idx.pages[b]), idx.pages.Keys);
  }

  function FirstBelow(idx: Index, blk: nat): nat
  {
    if blk in idx.pages && idx.pages[blk].Has(idx.pages[blk].FirstDataKey()) then FirstDownlink(idx.pages[blk])
    else P_NONE
  }

  lemma {:induction false} DescentFollows(idx: Index, top: nat, level: nat, blk: nat, d: seq<nat>)
    requires Descends(idx, top, level, blk, d)
    ensures Follows(d, (b: nat) => FirstBelow(idx, b))
    ensures forall i :: 0 <= i < |d| ==> d[i] in idx.pages && (idx.pages[d[i]].leaf <==> i == |d| - 1)
    decreases |d|
  {
    var p := idx.pages[blk];
    if !p.leaf {
      var rest := d[1..];
      DescentFollows(idx, top, p.level, FirstDownlink(p), rest);
      forall i, j | 0 <= i && j == i + 1 < |d| ensures d[j] == FirstBelow(idx, d[i]) {
        if i > 0 {
          assert rest[j - 1] == FirstBelow(idx, rest[i - 1]);
        }
      }
      forall i | 0 <= i < |d| ensures d[i] in idx.pages && (idx.pages[d[i]].leaf <==> i == |d| - 1) {
        if i > 0 {
          assert rest[i - 1] == d[i];
        }
      }
    }
  }

  lemma DescentBound(idx: Index, top: nat, level: nat, blk: nat, d: seq<nat>)
    requires Descends(idx, top, level, blk, d)
    ensures |d| <= |idx.pages|
  {
    DescentFollows(idx, top, level, blk, d);
    StopsOnce(d, (b: nat) => FirstBelow(idx, b), (b: nat) => b in idx.pages && idx.pages[b].leaf, idx.pages.Keys);
  }

  lemma {:induction false} VisitsLinked(idx: Index, start: LevelStart, visited: seq<nat>, i: nat)
    requires Visits(idx, start, visited) && i < |visited|
    ensures visited[i] != P_NONE && visited[i] in idx.pages
    ensures visited[i] == if i == 0 then start.leftmost else NextOf(idx, visited[i - 1])
  {
    hide PagePass;
    VisitAt(idx, start, visited, i);
    assert i > 0 ==> LeftOf(visited[..i]) == visited[i - 1];
  }

  lemma LevelBound(idx: Index, start: LevelStart, visited: seq<nat>)
    requires LevelPass(idx, start, visited)
    ensures |visited| <= |idx.pages|
  {
    hide Visits;
    forall i | 0 <= i < |visited| ensures visited[i] != P_NONE && visited[i] in idx.pages {
      VisitsLinked(idx, start, visited, i);
    }
    forall i, j | 0 <= i && j == i + 1 < |visited| ensures visited[j] == NextOf(idx, visited[i]) {
      VisitsLinked(idx, start, visited, j);
    }
    LevelEndsOnce(idx, visited);
    StopsOnce(visited, (b: nat) => NextOf(idx, b), (b: nat) => NextOf(idx, b) == P_NONE, idx.pages.Keys);
  }
}
