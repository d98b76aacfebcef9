/** Covering sorted integers with a given number of intervals, and when a cover is as small
    as can be. */
module IntCover {

  datatype Range = Range(lo: int, hi: int)

  predicate Within(z: int, r: Range) { r.lo <= z <= r.hi }

  /** The integers from `lo` to `hi`. */
  function Run(lo: int, hi: int): (s: set<int>)
    ensures forall z :: z in s <==> lo <= z <= hi
    ensures |s| == if hi < lo then 0 else hi - lo + 1
    decreases hi - lo
  {
    if hi < lo then {} else Run(lo, hi - 1) + {hi}
  }

  function RangePoints(r: Range): set<int> { Run(r.lo, r.hi) }

  /** The integers that a list of intervals covers. */
  function Points(rs: seq<Range>): set<int>
  {
    if rs == [] then {} else Points(rs[..|rs| - 1]) + RangePoints(rs[|rs| - 1])
  }

  lemma {:induction false} PointsOf(rs: seq<Range>, z: int)
    ensures z in Points(rs) <==> exists j :: 0 <= j < |rs| && Within(z, rs[j])
    decreases |rs|
  {
    hide Run;
    if rs != [] {
      var n := |rs| - 1;
      PointsOf(rs[..n], z);
      if j :| 0 <= j < |rs| && Within(z, rs[j]) {
        assert j < n ==> Within(z, rs[..n][j]);
      }
      if z in Points(rs[..n]) {
        var j :| 0 <= j < n && Within(z, rs[..n][j]);
        assert Within(z, rs[j]);
      }
    }
  }

  predicate Increasing(x: seq<int>)
  {
    forall i, j :: 0 <= i < j < |x| ==> x[i] < x[j]
  }

  ghost predicate CoversAll(rs: seq<Range>, x: seq<int>)
  {
    forall i :: 0 <= i < |x| ==> x[i] in Points(rs)
  }

  // ---------------------------------------------------------------- gaps

  /** Gap `g` lies between elements `g - 1` and `g`; filling it costs the integers in between. */
  function Filling(x: seq<int>, g: nat): int
    requires 0 < g < |x|
  {
    x[g] - x[g - 1] - 1
  }

  /** Number of chosen gaps up to element `m`, and what filling them costs. `b[g]` tells
      whether gap `g` is chosen. */
  function Count(b: seq<bool>, m: nat): nat
    requires m < |b|
  {
    if m == 0 then 0 else Count(b, m - 1) + if b[m] then 1 else 0
  }

  function Cost(x: seq<int>, b: seq<bool>, m: nat): int
    requires |b| == |x| && m < |x|
  {
    if m == 0 then 0 else Cost(x, b, m - 1) + if b[m] then Filling(x, m) else 0
  }

  /** No chosen gap is wider than one that is not chosen. */
  ghost predicate Thrifty(x: seq<int>, b: seq<bool>)
    requires |b| == |x|
  {
    forall g, h :: 0 < g < |x| && 0 < h < |x| && b[g] && !b[h] ==> Filling(x, g) <= Filling(x, h)
  }

  /** A width that separates the chosen gaps from the others. */
  ghost predicate Threshold(x: seq<int>, b: seq<bool>, t: int)
    requires |b| == |x|
  {
    forall g :: 0 < g < |x| ==> if b[g] then Filling(x, g) <= t else t <= Filling(x, g)
  }

  lemma {:induction false} ThresholdUpTo(x: seq<int>, b: seq<bool>, m: nat) returns (t: int)
    requires |b| == |x| && m < |x| && Thrifty(x, b) && Increasing(x)
    ensures t >= 0
    ensures forall g :: 0 < g <= m && b[g] ==> Filling(x, g) <= t
    ensures t == 0 || exists g :: 0 < g <= m && b[g] && Filling(x, g) == t
    decreases m
  {
    if m == 0 {
      t := 0;
    } else {
      t := ThresholdUpTo(x, b, m - 1);
      if b[m] && Filling(x, m) > t {
        t := Filling(x, m);
      }
    }
  }

  lemma ThresholdExists(x: seq<int>, b: seq<bool>) returns (t: int)
    requires |b| == |x| && x != [] && Thrifty(x, b) && Increasing(x)
    ensures t >= 0 && Threshold(x, b, t)
  {
    t := ThresholdUpTo(x, b, |x| - 1);
    forall h | 0 < h < |x| && !b[h] ensures t <= Filling(x, h) {
      if t > 0 {
        var g :| 0 < g < |x| && b[g] && Filling(x, g) == t;
      }
    }
  }

  /** Choosing other gaps costs at least the threshold for each gap more. */
  lemma {:induction false} ExchangeUpTo(x: seq<int>, b: seq<bool>, c: seq<bool>, t: int, m: nat)
    requires |b| == |c| == |x| && m < |x| && Threshold(x, b, t)
    ensures Cost(x, c, m) - Cost(x, b, m) >= t * (Count(c, m) - Count(b, m))
    decreases m
  {
    if m > 0 {
      ExchangeUpTo(x, b, c, t, m - 1);
      var d := Count(c, m - 1) - Count(b, m - 1);
      assert t * (d + 1) == t * d + t && t * (d - 1) == t * d - t;
    }
  }

  /** A thrifty choice is the cheapest of all choices of at least as many gaps. */
  lemma ThriftyIsCheapest(x: seq<int>, b: seq<bool>, c: seq<bool>)
    requires |b| == |c| == |x| && x != [] && Increasing(x) && Thrifty(x, b)
    requires Count(c, |x| - 1) >= Count(b, |x| - 1)
    ensures Cost(x, b, |x| - 1) <= Cost(x, c, |x| - 1)
  {
    hide Count, Cost, Threshold, Thrifty;
    var t := ThresholdExists(x, b);
    ExchangeUpTo(x, b, c, t, |x| - 1);
    Product(t, Count(c, |x| - 1) - Count(b, |x| - 1));
  }

  lemma Product(a: int, b: int)
    requires a >= 0 && b >= 0
    ensures a * b >= 0
  {
  }

  // ---------------------------------------------------------------- any cover

  /** The gaps that a set of integers fills. */
  function Filled(x: seq<int>, s: set<int>): (b: seq<bool>)
    ensures |b| == |x|
    ensures forall g :: 0 < g < |x| ==> (b[g] <==> Run(x[g - 1], x[g]) <= s)
  {
    seq(|x|, g requires 0 <= g < |x| => g > 0 && Run(x[g - 1], x[g]) <= s)
  }

  ghost function UpTo(s: set<int>, top: int): set<int> { set z | z in s && z <= top }

  /** A set that contains all elements has, up to each of them, at least the elements and
      the fillings of the gaps it fills. */
  lemma {:induction false} PointsUpTo(x: seq<int>, s: set<int>, m: nat)
    requires Increasing(x) && m < |x| && forall i :: 0 <= i < |x| ==> x[i] in s
    ensures |UpTo(s, x[m])| >= m + 1 + Cost(x, Filled(x, s), m)
    decreases m
  {
    hide Run, Filled;
    var b := Filled(x, s);
    if m == 0 {
      Subset({x[0]}, UpTo(s, x[0]));
    } else {
      PointsUpTo(x, s, m - 1);
      var low, all := UpTo(s, x[m - 1]), UpTo(s, x[m]);
      var more := if b[m] then Run(x[m - 1] + 1, x[m]) else {x[m]};
      assert more <= s by {
        assert b[m] ==> Run(x[m - 1], x[m]) <= s;
      }
      Disjoint(low, more, all);
    }
  }

  lemma Disjoint(a: set<int>, b: set<int>, c: set<int>)
    requires a !! b && a <= c && b <= c
    ensures |a| + |b| <= |c|
  {
    assert |a + b| == |a| + |b|;
    Subset(a + b, c);
  }

  lemma {:induction false} Subset(a: set<int>, b: set<int>)
    requires a <= b
    ensures |a| <= |b|
  {
    assert b == a + (b - a);
  }

  /** The intervals that contain one of the first elements. */
  ghost function Used(x: seq<int>, rs: seq<Range>, m: nat): set<int>
    requires m <= |x|
  {
    set j | 0 <= j < |rs| && exists i :: 0 <= i < m && Within(x[i], rs[j])
  }

  /** Each gap that is not filled separates intervals. */
  lemma {:induction false} GapsNeedRanges(x: seq<int>, rs: seq<Range>, m: nat)
    requires Increasing(x) && m < |x| && CoversAll(rs, x)
    ensures |Used(x, rs, m + 1)| >= 1 + m - Count(Filled(x, Points(rs)), m)
    decreases m
  {
    hide Run, Points, RangePoints, Filled;
    PointsOf(rs, x[m]);
    var j :| 0 <= j < |rs| && Within(x[m], rs[j]);
    var used := Used(x, rs, m + 1);
    assert j in used;
    if m == 0 {
      Subset({j}, used);
    } else {
      GapsNeedRanges(x, rs, m - 1);
      var before := Used(x, rs, m);
      assert before <= used;
      if Filled(x, Points(rs))[m] {
        Subset(before, used);
      } else {
        NewRange(x, rs, m, j);
        Subset(before + {j}, used);
      }
    }
  }

  lemma NewRange(x: seq<int>, rs: seq<Range>, m: nat, j: nat)
    requires Increasing(x) && 0 < m < |x| && !Filled(x, Points(rs))[m]
    requires j < |rs| && Within(x[m], rs[j])
    ensures j !in Used(x, rs, m)
  {
    hide Run, Points, RangePoints;
    var z :| z in Run(x[m - 1], x[m]) && z !in Points(rs);
    PointsOf(rs, z);
    assert !Within(z, rs[j]);
  }

  lemma {:induction false} BelowCount(s: set<int>, n: nat)
    requires forall j :: j in s ==> 0 <= j < n
    ensures |s| <= n
  {
    Subset(s, Run(0, n - 1));
  }

  /** Any cover by `k` intervals covers at least as many integers as the elements and the
      fillings of a thrifty choice of all but `k - 1` gaps. */
  lemma CoverCosts(x: seq<int>, rs: seq<Range>, b: seq<bool>)
    requires Increasing(x) && x != [] && CoversAll(rs, x)
    requires |b| == |x| && Thrifty(x, b) && Count(b, |x| - 1) <= |x| - |rs|
    ensures |Points(rs)| >= |x| + Cost(x, b, |x| - 1)
  {
    var s, m := Points(rs), |x| - 1;
    var c := Filled(x, s);
    GapsNeedRanges(x, rs, m);
    BelowCount(Used(x, rs, m + 1), |rs|);
    ThriftyIsCheapest(x, b, c);
    PointsUpTo(x, s, m);
    Subset(UpTo(s, x[m]), s);
  }

  // ---------------------------------------------------------------- the cover of a choice

  /** Positions at which intervals start, from `lo` on, with `n` as the end of the last one. */
  ghost predicate Steps(cuts: seq<nat>, lo: nat, n: nat)
  {
    && cuts != [] && cuts[0] == lo && cuts[|cuts| - 1] == n
    && forall i, j :: 0 <= i < j < |cuts| ==> cuts[i] < cuts[j]
  }

  /** The intervals that start at the elements `cuts`, each reaching up to the next. */
  ghost function RangesOf(x: seq<int>, cuts: seq<nat>): (rs: seq<Range>)
    requires Steps(cuts, 0, |x|)
    ensures |rs| == |cuts| - 1
    ensures forall i :: 0 <= i < |rs| ==> rs[i] == Range(x[cuts[i]], x[cuts[i + 1] - 1])
  {
    seq(|cuts| - 1, i requires 0 <= i < |cuts| - 1 => Range(x[cuts[i]], x[cuts[i + 1] - 1]))
  }

  /** The gaps inside the intervals. */
  ghost function Chosen(cuts: seq<nat>, n: nat): (b: seq<bool>)
    ensures |b| == n && forall g :: 0 <= g < n ==> (b[g] <==> g !in cuts)
  {
    seq(n, g requires 0 <= g < n => g !in cuts)
  }

  /** Intervals in ascending order with no integer in common. */
  ghost predicate Ascending(rs: seq<Range>)
  {
    && (forall i :: 0 <= i < |rs| ==> rs[i].lo <= rs[i].hi)
    && forall i, j :: 0 <= i < j < |rs| ==> rs[i].hi < rs[j].lo
  }

  /** Total length of intervals. */
  ghost function Length(rs: seq<Range>): int
  {
    if rs == [] then 0 else Length(rs[..|rs| - 1]) + (rs[|rs| - 1].hi - rs[|rs| - 1].lo + 1)
  }

  lemma {:induction false} PointsOfAscending(rs: seq<Range>)
    requires Ascending(rs)
    ensures |Points(rs)| == Length(rs)
    decreases |rs|
  {
    hide Run;
    if rs != [] {
      var n := |rs| - 1;
      var a, b := Points(rs[..n]), RangePoints(rs[n]);
      PointsOfAscending(rs[..n]);
      forall z | z in a ensures z !in b {
        PointsOf(rs[..n], z);
      }
      assert |a + b| == |a| + |b|;
    }
  }

  /** No element lies strictly between two cuts that follow each other. */
  lemma NotCut(cuts: seq<nat>, n: nat, p: nat, g: nat)
    requires Steps(cuts, 0, n) && p + 1 < |cuts| && cuts[p] < g < cuts[p + 1]
    ensures g !in cuts
  {
  }

  lemma {:induction false} RunCost(x: seq<int>, cuts: seq<nat>, p: nat, m: nat)
    requires Steps(cuts, 0, |x|) && p + 1 < |cuts| && cuts[p] <= m < cuts[p + 1] <= |x|
    ensures cuts[p] < |x|
    ensures var b := Chosen(cuts, |x|); var c := cuts[p];
            && Cost(x, b, m) == Cost(x, b, c) + x[m] - x[c] - (m - c)
            && Count(b, m) == Count(b, c) + (m - c)
    decreases m
  {
    hide Chosen;
    if m > cuts[p] {
      RunCost(x, cuts, p, m - 1);
      NotCut(cuts, |x|, p, m);
    }
  }

  lemma CutBelow(cuts: seq<nat>, n: nat, p: nat)
    requires Steps(cuts, 0, n) && p < |cuts|
    ensures cuts[p] <= n && (p + 1 < |cuts| ==> cuts[p] < n) && (p > 0 ==> cuts[p] > 0)
  {
  }

  lemma {:induction false} CutsCost(x: seq<int>, cuts: seq<nat>, p: nat)
    requires Steps(cuts, 0, |x|) && 0 < p < |cuts|
    ensures 0 < cuts[p] <= |x|
    ensures Length(RangesOf(x, cuts)[..p]) == cuts[p] + Cost(x, Chosen(cuts, |x|), cuts[p] - 1)
    ensures Count(Chosen(cuts, |x|), cuts[p] - 1) == cuts[p] - p
    decreases p
  {
    hide Chosen, RangesOf;
    CutBelow(cuts, |x|, p);
    var rs, b := RangesOf(x, cuts), Chosen(cuts, |x|);
    var c, m := cuts[p - 1], cuts[p] - 1;
    assert c in cuts;
    RunCost(x, cuts, p - 1, m);
    assert rs[..p][..p - 1] == rs[..p - 1];
    if p > 1 {
      CutsCost(x, cuts, p - 1);
    }
  }

  /** The intervals of a choice are disjoint and ascending, cover everything, and cover as many
      integers as there are elements and fillings of the chosen gaps. */
  lemma RangesOfCuts(x: seq<int>, cuts: seq<nat>)
    requires Increasing(x) && x != [] && Steps(cuts, 0, |x|)
    ensures Ascending(RangesOf(x, cuts)) && CoversAll(RangesOf(x, cuts), x)
    ensures |Points(RangesOf(x, cuts))| == |x| + Cost(x, Chosen(cuts, |x|), |x| - 1)
    ensures Count(Chosen(cuts, |x|), |x| - 1) == |x| - (|cuts| - 1)
  {
    hide Chosen, RangesOf, Points, Length, Cost, Count;
    var rs := RangesOf(x, cuts);
    RangesAscend(x, cuts);
    forall i | 0 <= i < |x| ensures x[i] in Points(rs) {
      ElementCovered(x, cuts, i);
    }
    PointsOfAscending(rs);
    CutsCost(x, cuts, |cuts| - 1);
    assert rs[..|rs|] == rs;
  }

  lemma ElementCovered(x: seq<int>, cuts: seq<nat>, i: nat)
    requires Increasing(x) && Steps(cuts, 0, |x|) && i < |x|
    ensures x[i] in Points(RangesOf(x, cuts))
  {
    hide RangesOf, Points;
    var rs := RangesOf(x, cuts);
    var p := CutAt(cuts, 0, |x|, i);
    PointsOf(rs, x[i]);
    assert rs[p] == Range(x[cuts[p]], x[cuts[p + 1] - 1]);
    assert Within(x[i], rs[p]);
  }

  lemma RangesAscend(x: seq<int>, cuts: seq<nat>)
    requires Increasing(x) && Steps(cuts, 0, |x|)
    ensures Ascending(RangesOf(x, cuts))
  {
    hide RangesOf;
    var rs := RangesOf(x, cuts);
    forall i | 0 <= i < |rs| ensures rs[i].lo <= rs[i].hi {
      assert cuts[i] <= cuts[i + 1] - 1 < |x|;
      assert rs[i] == Range(x[cuts[i]], x[cuts[i + 1] - 1]);
    }
    forall i, j | 0 <= i < j < |rs| ensures rs[i].hi < rs[j].lo {
      var a, b := cuts[i + 1] - 1, cuts[j];
      assert a < b;
      assert rs[i] == Range(x[cuts[i]], x[a]);
      assert rs[j] == Range(x[b], x[cuts[j + 1] - 1]);
    }
  }

  lemma {:induction false} CutAt(cuts: seq<nat>, lo: nat, n: nat, i: nat) returns (p: nat)
    requires Steps(cuts, lo, n) && lo <= i < n
    ensures p + 1 < |cuts| && cuts[p] <= i < cuts[p + 1]
    decreases |cuts|
  {
    if i < cuts[1] {
      p := 0;
    } else {
      p := CutAt(cuts[1..], cuts[1], n, i);
      p := p + 1;
    }
  }

  /** No cover by at most `k` intervals covers fewer integers. */
  ghost predicate Cheapest(rs: seq<Range>, x: seq<int>, k: nat)
  {
    forall other: seq<Range> :: |other| <= k && CoversAll(other, x) ==> |Points(rs)| <= |Points(other)|
  }

  /** Leaving the widest gaps open gives the cheapest cover. */
  lemma ThriftyCoverIsCheapest(x: seq<int>, cuts: seq<nat>)
    requires Increasing(x) && x != [] && Steps(cuts, 0, |x|) && Thrifty(x, Chosen(cuts, |x|))
    ensures Cheapest(RangesOf(x, cuts), x, |cuts| - 1)
  {
    hide Chosen, RangesOf, Points, Cost, Count, Thrifty, CoversAll;
    RangesOfCuts(x, cuts);
    forall other: seq<Range> | |other| <= |cuts| - 1 && CoversAll(other, x)
      ensures |Points(RangesOf(x, cuts))| <= |Points(other)|
    {
      CoverCosts(x, other, Chosen(cuts, |x|));
    }
  }
}
