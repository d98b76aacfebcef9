/** When the walk of a level comes to an end, whatever the links. */
module BtreeCircleTheorems {
  import opened Wrappers
  import opened BtreeKey
  import opened BtreePage
  import opened BtreeLevel
  import opened BtreeFinite

  /** The block that `n` right links lead to. */
  function Reach(idx: Index, blk: nat, n: nat): nat
  {
    if n == 0 then blk else NextOf(idx, Reach(idx, blk, n - 1))
  }

  predicate Ignorable(idx: Index, blk: nat) { blk in idx.pages && idx.pages[blk].Ignore() }

  /** The right links from `blk` lead to a half-dead page, and from there back to it, within
      `len` blocks. */
  ghost predicate CircleWithin(idx: Index, blk: nat, len: nat)
  {
    exists i: nat, j: nat ::
      i < j < len && Ignorable(idx, Reach(idx, blk, i)) && Reach(idx, blk, j) == Reach(idx, blk, i)
  }

  ghost predicate Circle(idx: Index, blk: nat)
  {
    exists i: nat, j: nat :: i < j && Ignorable(idx, Reach(idx, blk, i)) && Reach(idx, blk, j) == Reach(idx, blk, i)
  }

  lemma {:induction false} WalkReaches(idx: Index, start: LevelStart, visited: seq<nat>, i: nat)
    requires Visits(idx, start, visited) && i < |visited|
    ensures visited[i] == Reach(idx, start.leftmost, i)
    decreases i
  {
    hide Visits;
    VisitsLinked(idx, start, visited, i);
    if i > 0 {
      WalkReaches(idx, start, visited, i - 1);
    }
  }

  /** A live page on the walk has the page before it as left link. */
  lemma LiveLink(idx: Index, start: LevelStart, visited: seq<nat>, i: nat)
    requires Visits(idx, start, visited) && i < |visited|
    ensures visited[i] != P_NONE && visited[i] in idx.pages
    ensures !Ignorable(idx, visited[i]) ==> idx.pages[visited[i]].prev == if i == 0 then P_NONE else visited[i - 1]
  {
    hide PagePass;
    VisitAt(idx, start, visited, i);
    assert i > 0 ==> LeftOf(visited[..i]) == visited[i - 1];
  }

  /** If a block is visited twice, a half-dead one is, no later: a live page is visited twice only
      if its left sibling was. */
  lemma {:induction false} DeadRepeats(idx: Index, start: LevelStart, visited: seq<nat>, i: nat, j: nat)
      returns (a: nat, b: nat)
    requires Visits(idx, start, visited) && i < j < |visited| && visited[i] == visited[j]
    ensures a < b <= j && visited[a] == visited[b] && Ignorable(idx, visited[a])
    decreases i
  {
    hide Visits;
    LiveLink(idx, start, visited, i);
    LiveLink(idx, start, visited, j);
    LiveLink(idx, start, visited, j - 1);
    if Ignorable(idx, visited[i]) {
      a, b := i, j;
    } else {
      a, b := DeadRepeats(idx, start, visited, i - 1, j - 1);
    }
  }

  ghost predicate Repeated(s: seq<nat>)
  {
    exists i, j :: 0 <= i < j < |s| && s[i] == s[j]
  }

  /** A walk visits a block twice if and only if its links lead to a half-dead page and back to
      it within the length of the walk. */
  lemma RepeatsIffCircle(idx: Index, start: LevelStart, visited: seq<nat>)
    requires Visits(idx, start, visited)
    ensures Repeated(visited) <==> CircleWithin(idx, start.leftmost, |visited|)
  {
    hide Visits, Reach;
    forall i: nat | i < |visited| ensures visited[i] == Reach(idx, start.leftmost, i) {
      WalkReaches(idx, start, visited, i);
    }
    if i: nat, j: nat :| i < j < |visited| && visited[i] == visited[j] {
      var a, b := DeadRepeats(idx, start, visited, i, j);
      assert Ignorable(idx, Reach(idx, start.leftmost, a)) &&
             Reach(idx, start.leftmost, b) == Reach(idx, start.leftmost, a);
    }
    if CircleWithin(idx, start.leftmost, |visited|) {
      var i: nat, j: nat :| i < j < |visited| && Ignorable(idx, Reach(idx, start.leftmost, i))
        && Reach(idx, start.leftmost, j) == Reach(idx, start.leftmost, i);
      assert visited[i] == visited[j];
    }
  }

  /** Without such a circle no walk is longer than the index has pages. */
  lemma NoCircleBound(idx: Index, start: LevelStart, visited: seq<nat>)
    requires Visits(idx, start, visited) && !Circle(idx, start.leftmost)
    ensures |visited| <= |idx.pages|
  {
    hide Visits, Reach;
    RepeatsIffCircle(idx, start, visited);
    forall i | 0 <= i < |visited| ensures visited[i] in idx.pages {
      LiveLink(idx, start, visited, i);
    }
    DistinctCount(visited, idx.pages.Keys);
  }

  lemma {:induction false} ReachAdds(idx: Index, blk: nat, i: nat, n: nat)
    ensures Reach(idx, blk, i + n) == Reach(idx, Reach(idx, blk, i), n)
    decreases n
  {
    if n > 0 {
      ReachAdds(idx, blk, i, n - 1);
    }
  }

  lemma {:induction false} EndStays(idx: Index, blk: nat, i: nat, n: nat)
    requires WellFormed(idx) && Reach(idx, blk, i) == P_NONE
    ensures Reach(idx, blk, i + n) == P_NONE
    decreases n
  {
    if n > 0 {
      EndStays(idx, blk, i, n - 1);
    }
  }

  /** On a circle of `n` links the same block comes back for ever. */
  lemma {:induction false} ComesBack(idx: Index, blk: nat, i: nat, n: nat, rounds: nat)
    requires Reach(idx, blk, i + n) == Reach(idx, blk, i)
    ensures Reach(idx, blk, i + n * rounds) == Reach(idx, blk, i)
    decreases rounds
  {
    if rounds > 0 {
      ComesBack(idx, blk, i, n, rounds - 1);
      var before := n * (rounds - 1);
      ReachAdds(idx, blk, i + before, n);
      ReachAdds(idx, blk, i, n);
      assert n * rounds == before + n;
    }
  }

  /** With a circle no walk reaches the end of the level. */
  lemma CircleHasNoEnd(idx: Index, start: LevelStart, w: seq<nat>)
    requires WellFormed(idx) && Circle(idx, start.leftmost)
    ensures !LevelPass(idx, start, w)
  {
    hide Visits, Reach;
    if LevelPass(idx, start, w) {
      var blk, last := start.leftmost, |w| - 1;
      var i: nat, j: nat :| i < j && Ignorable(idx, Reach(idx, blk, i)) && Reach(idx, blk, j) == Reach(idx, blk, i);
      WalkReaches(idx, start, w, last);
      ReachStep(idx, blk, last);
      ComesBack(idx, blk, i, j - i, |w|);
      AtLeast(j - i, |w|);
      EndStays(idx, blk, |w|, i + (j - i) * |w| - |w|);
    }
  }

  lemma ReachStep(idx: Index, blk: nat, n: nat)
    ensures Reach(idx, blk, n + 1) == NextOf(idx, Reach(idx, blk, n))
  {
  }

  lemma AtLeast(n: nat, m: nat)
    requires n > 0
    ensures n * m >= m
  {
  }

  /** Every block that a walk comes to passes its checks. */
  ghost predicate NeverFails(idx: Index, start: LevelStart)
  {
    forall w :: Visits(idx, start, w) && Upcoming(idx, start, w) != P_NONE ==>
      VisitPass(idx, start, w, Upcoming(idx, start, w))
  }

  /** Some walk of `n` pages passes. */
  ghost predicate GoesOnFor(idx: Index, start: LevelStart, n: nat)
  {
    exists w :: Visits(idx, start, w) && |w| == n
  }

  /** As long as the level has not ended, the walk goes on. */
  lemma {:induction false} WalksOn(idx: Index, start: LevelStart, n: nat) returns (w: seq<nat>)
    requires NeverFails(idx, start) && start.leftmost != P_NONE && forall v :: !LevelPass(idx, start, v)
    ensures Visits(idx, start, w) && |w| == n
    decreases n
  {
    hide VisitPass;
    w := [];
    if n > 0 {
      w := WalksOn(idx, start, n - 1);
      assert !LevelPass(idx, start, w);
      var blk := Upcoming(idx, start, w);
      VisitsMore(idx, start, w, blk);
      w := w + [blk];
    }
  }

  /** Walks of a level differ only in how far they go. */
  lemma OneWalk(idx: Index, start: LevelStart, v: seq<nat>, w: seq<nat>)
    requires Visits(idx, start, v) && Visits(idx, start, w) && |v| <= |w|
    ensures v == w[..|v|]
  {
    hide Visits, Reach;
    forall i | 0 <= i < |v| ensures v[i] == w[i] {
      WalkReaches(idx, start, v, i);
      WalkReaches(idx, start, w, i);
    }
  }

  /** A walk that goes further shows that the next page passes. */
  lemma LongerPasses(idx: Index, start: LevelStart, v: seq<nat>, w: seq<nat>)
    requires Visits(idx, start, v) && Visits(idx, start, w) && |v| < |w|
    ensures VisitPass(idx, start, v, Upcoming(idx, start, v)) && Upcoming(idx, start, v) == w[|v|] != P_NONE
  {
    hide Visits;
    OneWalk(idx, start, v, w);
    VisitAt(idx, start, w, |v|);
  }

  /** On a level that passes no page fails its checks. */
  lemma PassNeverFails(idx: Index, start: LevelStart, w: seq<nat>)
    requires LevelPass(idx, start, w)
    ensures NeverFails(idx, start)
  {
    hide Visits, VisitPass;
    forall v | Visits(idx, start, v) && Upcoming(idx, start, v) != P_NONE
      ensures VisitPass(idx, start, v, Upcoming(idx, start, v))
    {
      if |v| < |w| {
        LongerPasses(idx, start, v, w);
      } else {
        OneWalk(idx, start, w, v);
        if |v| > |w| {
          LongerPasses(idx, start, w, v);
        }
      }
    }
  }

  /** Nor does one on a level that can be walked for ever. */
  lemma EndlessNeverFails(idx: Index, start: LevelStart)
    requires forall n: nat :: GoesOnFor(idx, start, n)
    ensures NeverFails(idx, start)
  {
    hide Visits, VisitPass;
    forall v | Visits(idx, start, v) && Upcoming(idx, start, v) != P_NONE
      ensures VisitPass(idx, start, v, Upcoming(idx, start, v))
    {
      assert GoesOnFor(idx, start, |v| + 1);
      var w :| Visits(idx, start, w) && |w| == |v| + 1;
      LongerPasses(idx, start, v, w);
    }
  }

  /** The walk of a level passes if and only if no page fails its checks and no half-dead page that
      its links lead to lies on a circle. It goes on for ever if and only if no page fails and one
      does. */
  lemma EndsIffNoCircle(idx: Index, start: LevelStart)
    requires WellFormed(idx) && start.leftmost != P_NONE
    ensures (exists w :: LevelPass(idx, start, w)) <==> NeverFails(idx, start) && !Circle(idx, start.leftmost)
    ensures (forall n: nat :: GoesOnFor(idx, start, n)) <==> NeverFails(idx, start) && Circle(idx, start.leftmost)
  {
    hide Visits, Reach, LevelPass, NeverFails, Circle, GoesOnFor;
    if w :| LevelPass(idx, start, w) {
      PassNeverFails(idx, start, w);
    }
    if forall n: nat :: GoesOnFor(idx, start, n) {
      EndlessNeverFails(idx, start);
    }
    if Circle(idx, start.leftmost) {
      forall w ensures !LevelPass(idx, start, w) { CircleHasNoEnd(idx, start, w); }
      if NeverFails(idx, start) {
        forall n: nat ensures GoesOnFor(idx, start, n) { GoesOn(idx, start, n); }
      }
    } else {
      NotEndless(idx, start);
      if NeverFails(idx, start) && forall w :: !LevelPass(idx, start, w) {
        GoesOn(idx, start, |idx.pages| + 1);
      }
    }
  }

  lemma GoesOn(idx: Index, start: LevelStart, n: nat)
    requires NeverFails(idx, start) && start.leftmost != P_NONE && forall v :: !LevelPass(idx, start, v)
    ensures GoesOnFor(idx, start, n)
  {
    hide Visits, LevelPass, NeverFails;
    var w := WalksOn(idx, start, n);
  }

  lemma NotEndless(idx: Index, start: LevelStart)
    requires !Circle(idx, start.leftmost)
    ensures !GoesOnFor(idx, start, |idx.pages| + 1)
  {
    hide Visits, Circle;
    forall w | Visits(idx, start, w) ensures |w| <= |idx.pages| { NoCircleBound(idx, start, w); }
  }

  // ---------------------------------------------------------------- such an index

  function DeadPage(next: nat): Page
  {
    Page(9, next, 0, true, false, false, true, false, [Tuple([], None, true, 0)])
  }

  /** Three half-dead pages in a circle, whose left links are not looked at. */
  function Ring(): Index
  {
    Index(map[1 := DeadPage(2), 2 := DeadPage(3), 3 := DeadPage(1)], 1)
  }

  lemma {:induction false} RingVisits(w: seq<nat>)
    requires Visits(Ring(), LevelStart(0, 1, true), w)
    ensures 1 <= Upcoming(Ring(), LevelStart(0, 1, true), w) <= 3
    ensures LeftOf(w) != Upcoming(Ring(), LevelStart(0, 1, true), w)
    decreases |w|
  {
    if w != [] {
      RingVisits(w[..|w| - 1]);
    }
  }

  lemma RingPass(before: seq<nat>, blk: nat)
    requires 1 <= blk <= 3 && LeftOf(before) != blk
    ensures VisitPass(Ring(), LevelStart(0, 1, true), before, blk)
  {
  }

  /** No page fails its checks, and the walk goes on for ever. */
  lemma HalfDeadCircle()
    ensures NeverFails(Ring(), LevelStart(0, 1, true)) && Circle(Ring(), 1)
    ensures forall n: nat :: GoesOnFor(Ring(), LevelStart(0, 1, true), n)
  {
    hide VisitPass, Visits;
    var idx, start := Ring(), LevelStart(0, 1, true);
    forall w | Visits(idx, start, w) && Upcoming(idx, start, w) != P_NONE
      ensures VisitPass(idx, start, w, Upcoming(idx, start, w))
    {
      RingVisits(w);
      RingPass(w, Upcoming(idx, start, w));
    }
    assert Reach(idx, 1, 1) == 2 && Reach(idx, 1, 2) == 3 && Reach(idx, 1, 3) == 1 && Reach(idx, 1, 0) == 1;
    assert Ignorable(idx, Reach(idx, 1, 0));
    EndsIffNoCircle(idx, start);
  }
}
