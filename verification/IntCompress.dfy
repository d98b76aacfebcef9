/** The range compression of integer keys, done in place in one array. */
module IntCompress {
  import opened IntCover
  import opened MachineInt
  import opened Growth

  predicate Int32(x: seq<int>)
  {
    forall i :: 0 <= i < |x| ==> INT32_MIN <= x[i] <= INT32_MAX
  }

  /** The intervals that a flat list of bounds stands for. */
  function Pairs(s: seq<int>): (rs: seq<Range>)
    ensures |rs| == |s| / 2
    ensures forall i :: 0 <= i < |rs| ==> rs[i] == Range(s[2 * i], s[2 * i + 1])
  {
    seq(|s| / 2, i requires 0 <= i < |s| / 2 => Range(s[2 * i], s[2 * i + 1]))
  }

  ghost predicate Rising(cuts: seq<nat>, n: nat)
  {
    && (forall i :: 0 <= i < |cuts| ==> cuts[i] <= n)
    && forall i, j :: 0 <= i < j < |cuts| ==> cuts[i] < cuts[j]
  }

  /** The bounds of the intervals between the cuts. */
  ghost function Flat(x: seq<int>, cuts: seq<nat>): (s: seq<int>)
    requires Rising(cuts, |x|)
    ensures |s| == if |cuts| < 2 then 0 else 2 * (|cuts| - 1)
  {
    if |cuts| < 2 then [] else assert cuts[0] < cuts[1]; [x[cuts[0]], x[cuts[1] - 1]] + Flat(x, cuts[1..])
  }

  lemma {:induction false} FlatAt(x: seq<int>, cuts: seq<nat>, t: nat)
    requires Rising(cuts, |x|) && t + 1 < |cuts|
    ensures cuts[t] < cuts[t + 1]
    ensures Flat(x, cuts)[2 * t] == x[cuts[t]] && Flat(x, cuts)[2 * t + 1] == x[cuts[t + 1] - 1]
    decreases t
  {
    if t > 0 {
      FlatAt(x, cuts[1..], t - 1);
    }
  }

  lemma PairsOfFlat(x: seq<int>, cuts: seq<nat>)
    requires Steps(cuts, 0, |x|)
    ensures Pairs(Flat(x, cuts)) == RangesOf(x, cuts)
  {
    hide Pairs, RangesOf, Flat;
    var a, b := Pairs(Flat(x, cuts)), RangesOf(x, cuts);
    forall t | 0 <= t < |b| ensures a[t] == b[t] {
      FlatAt(x, cuts, t);
    }
  }

  /** Taking out a cut takes out the two bounds around its gap. */
  lemma {:induction false} FlatWithout(x: seq<int>, cuts: seq<nat>, p: nat)
    requires Rising(cuts, |x|) && 0 < p < |cuts| - 1
    ensures Rising(cuts[..p] + cuts[p + 1..], |x|)
    ensures Flat(x, cuts[..p] + cuts[p + 1..]) == Flat(x, cuts)[..2 * p - 1] + Flat(x, cuts)[2 * p + 1..]
    decreases p
  {
    hide Flat;
    var less := cuts[..p] + cuts[p + 1..];
    RisingWithout(cuts, |x|, p);
    FlatStep(x, cuts);
    FlatStep(x, less);
    var head, rest := [x[cuts[0]], x[cuts[1] - 1]], Flat(x, cuts[1..]);
    if p == 1 {
      FlatStep(x, cuts[1..]);
      assert less[1..] == cuts[1..][1..];
      assert rest == [x[cuts[1]], x[cuts[2] - 1]] + Flat(x, cuts[1..][1..]);
    } else {
      FlatWithout(x, cuts[1..], p - 1);
      assert less[1..] == cuts[1..][..p - 1] + cuts[1..][p..];
      assert head + (rest[..2 * p - 3] + rest[2 * p - 1..]) == (head + rest)[..2 * p - 1] + (head + rest)[2 * p + 1..];
    }
  }

  lemma RisingWithout(cuts: seq<nat>, n: nat, p: nat)
    requires Rising(cuts, n) && 0 < p < |cuts| - 1
    ensures Rising(cuts[..p] + cuts[p + 1..], n) && Rising(cuts[1..], n)
  {
  }

  lemma FlatStep(x: seq<int>, cuts: seq<nat>)
    requires Rising(cuts, |x|) && |cuts| >= 2
    ensures Rising(cuts[1..], |x|) && cuts[0] < cuts[1]
    ensures Flat(x, cuts) == [x[cuts[0]], x[cuts[1] - 1]] + Flat(x, cuts[1..])
  {
  }

  /** All gaps from position `lo` on that are not cuts cost nothing. */
  ghost predicate OnlyFree(x: seq<int>, cuts: seq<nat>, lo: nat)
  {
    forall g :: lo < g < |x| && g !in cuts ==> Filling(x, g) == 0
  }

  // ---------------------------------------------------------------- merging consecutive integers

  /** Walks down while the integers are consecutive and merges are left. */
  method ExtendRun(dr: array<int>, top: nat, left: nat) returns (start: int, i: nat, lenr: nat)
    requires top < dr.Length
    ensures i <= top && start == dr[i] && lenr == left - (top - i)
    ensures forall g :: i < g <= top ==> dr[g] == dr[g - 1] + 1
    ensures i == 0 || lenr == 0 || dr[i - 1] != start - 1
  {
    start, i, lenr := dr[top], top, left;
    while i > 0 && lenr > 0 && dr[i - 1] == start - 1
      invariant i <= top && start == dr[i] && lenr == left - (top - i)
      invariant forall g :: i < g <= top ==> dr[g] == dr[g - 1] + 1
    {
      start, i, lenr := start - 1, i - 1, lenr - 1;
    }
  }

  /** The state of the merge: up to position `i` the array is as it was, and from position
      `2 * (j + 1)` on it holds the ranges made so far. */
  ghost predicate Merging(s: seq<int>, x: seq<int>, cuts: seq<nat>, i: int, j: int)
  {
    && |s| == 2 * |x| && -1 <= i <= j < |x| && s[..i + 1] == x[..i + 1]
    && Steps(cuts, i + 1, |x|) && |cuts| == |x| - j && OnlyFree(x, cuts, i + 1)
    && Rising(cuts, |x|) && s[2 * (j + 1)..] == Flat(x, cuts)
  }

  lemma MergingKeeps(s: seq<int>, x: seq<int>, cuts: seq<nat>, i: int, j: int)
    requires Merging(s, x, cuts, i, j)
    ensures |s| == 2 * |x| && -1 <= i <= j < |x|
    ensures forall g :: 0 <= g <= i ==> s[g] == x[g]
  {
    hide Steps, OnlyFree, Rising, Flat;
    forall g | 0 <= g <= i ensures s[g] == x[g] {
      assert s[..i + 1][g] == x[..i + 1][g];
    }
  }

  /** Writes the range of the elements `i` to `top`. */
  method PutRange(dr: array<int>, ghost x: seq<int>, ghost cuts: seq<nat>, i: nat, ghost top: nat,
                  j: nat, lo: int, hi: int)
    requires Merging(dr[..], x, cuts, top, j) && i <= top && lo == x[i] && hi == x[top]
    requires forall g :: i < g <= top ==> x[g] == x[g - 1] + 1
    modifies dr
    ensures Merging(dr[..], x, [i] + cuts, i - 1, j - 1)
  {
    hide Steps, OnlyFree, Rising, Flat;
    ghost var was := dr[..];
    dr[2 * j] := lo;
    dr[2 * j + 1] := hi;
    assert dr[2 * (j + 1)..] == was[2 * (j + 1)..];
    assert dr[..i] == was[..top + 1][..i] == x[..top + 1][..i] == x[..i];
    Prepend(dr[..], x, cuts, i, top, j);
  }

  /** Turns the integers into ranges at the end of the array, from right to left. */
  method MergeRuns(dr: array<int>, n: nat, k: nat, ghost x: seq<int>) returns (j: int, ghost cuts: seq<nat>)
    requires dr.Length == 2 * n && 0 < k <= n && x == dr[..n]
    modifies dr
    ensures 0 <= j <= n - k && Merging(dr[..], x, cuts, -1, j - 1)
  {
    hide Merging;
    var lenr, i := n - k, n - 1;
    j := i;
    cuts := [n];
    NothingMerged(dr[..], x);
    while i > 0 && lenr > 0
      invariant -1 <= i <= j < n && lenr >= 0 && lenr + (j - i) == n - k
      invariant Merging(dr[..], x, cuts, i, j)
    {
      MergingKeeps(dr[..], x, cuts, i, j);
      var end := dr[i];
      ghost var top := i;
      var start;
      start, i, lenr := ExtendRun(dr, i, lenr);
      PutRange(dr, x, cuts, i, top, j, start, end);
      cuts := [i] + cuts;
      i, j := i - 1, j - 1;
    }
    while i >= 0
      invariant -1 <= i <= j < n && j - i <= n - k
      invariant Merging(dr[..], x, cuts, i, j)
    {
      MergingKeeps(dr[..], x, cuts, i, j);
      PutRange(dr, x, cuts, i, i, j, dr[i], dr[i]);
      cuts := [i] + cuts;
      i, j := i - 1, j - 1;
    }
    j := j + 1;
  }

  lemma NothingMerged(s: seq<int>, x: seq<int>)
    requires |s| == 2 * |x| && s[..|x|] == x
    ensures Merging(s, x, [|x|], |x| - 1, |x| - 1)
  {
  }

  lemma Prepend(s: seq<int>, x: seq<int>, cuts: seq<nat>, i: nat, top: nat, j: nat)
    requires |s| == 2 * |x| && i <= top < |x| && top <= j < |x|
    requires Steps(cuts, top + 1, |x|) && Rising(cuts, |x|) && OnlyFree(x, cuts, top + 1)
    requires forall g :: i < g <= top ==> x[g] == x[g - 1] + 1
    requires s[2 * j] == x[i] && s[2 * j + 1] == x[top] && s[2 * (j + 1)..] == Flat(x, cuts)
    ensures Steps([i] + cuts, i, |x|) && Rising([i] + cuts, |x|) && OnlyFree(x, [i] + cuts, i)
    ensures s[2 * j..] == Flat(x, [i] + cuts)
  {
    var more := [i] + cuts;
    assert more[1..] == cuts;
    assert s[2 * j..] == [s[2 * j], s[2 * j + 1]] + s[2 * (j + 1)..];
    forall g | i < g < |x| && g !in more ensures Filling(x, g) == 0 {
      assert g != cuts[0];
    }
  }

  // ---------------------------------------------------------------- closing the narrowest gaps

  /** Width of the gap before interval `t` of a flat list of bounds. */
  function Gap(s: seq<int>, t: nat): int
    requires 0 < t && 2 * t < |s|
  {
    s[2 * t] - s[2 * t - 1]
  }

  /** The first of the narrowest gaps. */
  method NarrowestGap(dr: array<int>, len: nat) returns (cand: nat)
    requires 4 <= len <= dr.Length && len % 2 == 0 && Int32(dr[..len])
    ensures cand % 2 == 0 && 2 <= cand < len
    ensures forall t :: 0 < t < len / 2 ==> Gap(dr[..len], cand / 2) <= Gap(dr[..len], t)
  {
    var min := INT64_MAX;
    var i := 2;
    cand := 1;
    while i < len
      invariant 2 <= i <= len && i % 2 == 0
      invariant i == 2 ==> min == INT64_MAX
      invariant i > 2 ==> cand % 2 == 0 && 2 <= cand < i && min == Gap(dr[..len], cand / 2)
      invariant forall t :: 0 < t < i / 2 ==> min <= Gap(dr[..len], t)
    {
      assert dr[i] - dr[i - 1] == Gap(dr[..len], i / 2);
      if min > dr[i] - dr[i - 1] {
        min := dr[i] - dr[i - 1];
        cand := i;
      }
      i := i + 2;
    }
  }

  /** Moves `count` elements down within the array. */
  method MoveDown(dr: array<int>, to: nat, from: nat, count: nat)
    requires to <= from && from + count <= dr.Length
    modifies dr
    ensures dr[to..to + count] == old(dr[from..from + count])
    ensures dr[..to] == old(dr[..to])
  {
    forall t | 0 <= t < count {
      dr[to + t] := dr[from + t];
    }
  }

  /** Leaving out the narrowest open gap keeps the choice thrifty. */
  lemma DropNarrowest(x: seq<int>, cuts: seq<nat>, s: seq<int>, p: nat)
    requires Increasing(x) && Steps(cuts, 0, |x|) && Thrifty(x, Chosen(cuts, |x|))
    requires 0 < p < |cuts| - 1 && Rising(cuts, |x|) && s == Flat(x, cuts)
    requires forall t :: 0 < t < |s| / 2 ==> Gap(s, p) <= Gap(s, t)
    ensures var less := cuts[..p] + cuts[p + 1..]; Steps(less, 0, |x|) && Thrifty(x, Chosen(less, |x|))
  {
    hide Flat, Chosen, Increasing, Rising, Filling, Gap;
    var less := cuts[..p] + cuts[p + 1..];
    StepsWithout(cuts, |x|, p);
    var b, c := Chosen(cuts, |x|), Chosen(less, |x|);
    forall g, h | 0 < g < |x| && 0 < h < |x| && c[g] && !c[h] ensures Filling(x, g) <= Filling(x, h) {
      var t :| 0 <= t < |less| && less[t] == h;
      var u := if t < p then t else t + 1;
      assert cuts[u] == h && !b[h];
      if !b[g] {
        assert g == cuts[p];
        InnerCut(cuts, |x|, u);
        GapIsFilling(x, cuts, p);
        GapIsFilling(x, cuts, u);
      }
    }
  }

  lemma StepsWithout(cuts: seq<nat>, n: nat, p: nat)
    requires Steps(cuts, 0, n) && 0 < p < |cuts| - 1
    ensures var less := cuts[..p] + cuts[p + 1..];
            Steps(less, 0, n) && forall g :: g in less <==> g in cuts && g != cuts[p]
  {
    var less := cuts[..p] + cuts[p + 1..];
    forall g | g in cuts && g != cuts[p] ensures g in less {
      var i :| 0 <= i < |cuts| && cuts[i] == g;
      assert less[if i < p then i else i - 1] == g;
    }
  }

  lemma InnerCut(cuts: seq<nat>, n: nat, u: nat)
    requires Steps(cuts, 0, n) && u < |cuts| && 0 < cuts[u] < n
    ensures 0 < u < |cuts| - 1
  {
  }

  lemma GapIsFilling(x: seq<int>, cuts: seq<nat>, t: nat)
    requires Steps(cuts, 0, |x|) && Rising(cuts, |x|) && 0 < t < |cuts| - 1
    ensures 0 < cuts[t] < |x| && Gap(Flat(x, cuts), t) == Filling(x, cuts[t]) + 1
  {
    hide Flat;
    FlatAt(x, cuts, t);
    FlatAt(x, cuts, t - 1);
  }

  /** Bounds of the cover by a thrifty choice. */
  ghost predicate Closing(s: seq<int>, x: seq<int>, cuts: seq<nat>)
  {
    && Increasing(x) && Int32(x) && Steps(cuts, 0, |x|) && Thrifty(x, Chosen(cuts, |x|))
    && Rising(cuts, |x|) && s == Flat(x, cuts)
  }

  /** Closes the narrowest gap. */
  method CloseOne(dr: array<int>, len: nat, ghost x: seq<int>, ghost cuts: seq<nat>) returns (ghost less: seq<nat>)
    requires 4 <= len <= dr.Length && len == 2 * (|cuts| - 1) && Closing(dr[..len], x, cuts)
    modifies dr
    ensures |less| == |cuts| - 1 && Closing(dr[..len - 2], x, less)
  {
    hide Flat, Steps, Thrifty, Chosen, Increasing, Rising;
    FlatInt32(x, cuts);
    var cand := NarrowestGap(dr, len);
    ghost var p, s := cand / 2, dr[..len];
    DropNarrowest(x, cuts, s, p);
    FlatWithout(x, cuts, p);
    MoveDown(dr, cand - 1, cand + 1, len - cand - 1);
    less := cuts[..p] + cuts[p + 1..];
    assert dr[..len - 2] == s[..cand - 1] + s[cand + 1..];
  }

  /** Closes the narrowest gap until `k` ranges are left. */
  method CloseGaps(dr: array<int>, count: nat, k: nat, ghost x: seq<int>, ghost start: seq<nat>)
      returns (len: nat, ghost cuts: seq<nat>)
    requires 0 < k <= count && 2 * count <= dr.Length && |start| == count + 1 && Closing(dr[..2 * count], x, start)
    modifies dr
    ensures len == 2 * k && |cuts| == k + 1 && Closing(dr[..len], x, cuts)
  {
    hide Closing;
    len, cuts := 2 * count, start;
    while len > k * 2
      invariant 2 * k <= len <= dr.Length && len == 2 * (|cuts| - 1) && Closing(dr[..len], x, cuts)
      decreases len
    {
      cuts := CloseOne(dr, len, x, cuts);
      len := len - 2;
    }
  }

  /** The two passes over the array: from the elements to `k` ranges. */
  method ToRanges(dr: array<int>, n: nat, k: nat, ghost x: seq<int>) returns (len: nat, ghost cuts: seq<nat>)
    requires dr.Length == 2 * n && 0 < k <= n && x == dr[..n] && Increasing(x) && Int32(x)
    modifies dr
    ensures len == 2 * k && |cuts| == k + 1 && Closing(dr[..len], x, cuts)
  {
    hide Increasing, Int32, Closing, Merging;
    var j;
    j, cuts := MergeRuns(dr, n, k, x);
    MergedAll(dr[..], x, cuts, j);
    ghost var merged, count := dr[..][2 * j..], 2 * (n - j);
    assert dr[2 * j..2 * j + count] == merged;
    if j != 0 {
      MoveDown(dr, 0, 2 * j, 2 * (n - j));
      assert dr[..count] == dr[0..0 + count];
    }
    assert dr[..2 * (n - j)] == merged;
    len, cuts := CloseGaps(dr, n - j, k, x, cuts);
  }

  lemma {:induction false} FlatElements(x: seq<int>, cuts: seq<nat>)
    requires Rising(cuts, |x|)
    ensures forall i :: 0 <= i < |Flat(x, cuts)| ==> Flat(x, cuts)[i] in x
    decreases |cuts|
  {
    if |cuts| >= 2 {
      FlatStep(x, cuts);
      FlatElements(x, cuts[1..]);
    }
  }

  lemma FlatInt32(x: seq<int>, cuts: seq<nat>)
    requires Rising(cuts, |x|) && Int32(x)
    ensures Int32(Flat(x, cuts))
  {
    FlatElements(x, cuts);
  }

  lemma FreeIsThrifty(x: seq<int>, cuts: seq<nat>)
    requires Increasing(x) && OnlyFree(x, cuts, 0)
    ensures Thrifty(x, Chosen(cuts, |x|))
  {
  }

  // ---------------------------------------------------------------- size of a compressed key

  const MAXNUMELTS: nat := 67_108_863

  ghost predicate Sorted(s: seq<int>)
  {
    forall i, j :: 0 <= i < j < |s| ==> s[i] <= s[j]
  }

  /** What the first `m` ranges count: a range that starts where the one before ends counts
      nothing. */
  ghost function Counted(s: seq<int>, m: nat): int
    requires 2 * m <= |s|
  {
    if m == 0 then 0
    else
      var t := m - 1;
      Counted(s, t) + if t == 0 || s[2 * t] != s[2 * t - 1] then s[2 * t + 1] - s[2 * t] + 1 else 0
  }

  /** Elements of the ranges that count nothing, less the one they share. */
  ghost function Uncounted(s: seq<int>, m: nat): int
    requires 2 * m <= |s|
  {
    if m == 0 then 0
    else
      var t := m - 1;
      Uncounted(s, t) + if t == 0 || s[2 * t] != s[2 * t - 1] then 0 else s[2 * t + 1] - s[2 * t]
  }

  /** A range that starts where the one before ends and goes further. */
  predicate Joins(s: seq<int>, t: nat)
    requires 2 * t + 1 < |s|
  {
    t > 0 && s[2 * t] == s[2 * t - 1] && s[2 * t + 1] > s[2 * t]
  }

  ghost predicate AnyJoins(s: seq<int>)
  {
    exists t: nat :: 2 * t + 1 < |s| && Joins(s, t)
  }

  lemma {:induction false} UncountedIsJoins(s: seq<int>, m: nat)
    requires 2 * m <= |s| && Sorted(s)
    ensures Uncounted(s, m) >= 0
    ensures Uncounted(s, m) == 0 <==> forall t: nat :: t < m ==> !Joins(s, t)
    decreases m
  {
    if m > 0 {
      UncountedIsJoins(s, m - 1);
      assert s[2 * (m - 1)] <= s[2 * (m - 1) + 1];
      assert Uncounted(s, m) == 0 <==> Uncounted(s, m - 1) == 0 && !Joins(s, m - 1);
    }
  }

  lemma {:induction false} CountedPoints(s: seq<int>, m: nat)
    requires 2 * m <= |s| && Sorted(s)
    ensures |Points(Pairs(s)[..m])| == Counted(s, m) + Uncounted(s, m)
    decreases m
  {
    hide Run, Pairs, Points;
    if m > 0 {
      var t := m - 1;
      var rs := Pairs(s);
      CountedPoints(s, t);
      PointsStep(rs, m);
      LastPoint(s, t);
      AddRange(Points(rs[..t]), s[2 * t], s[2 * t + 1]);
    } else {
      NoPoints(Pairs(s)[..m]);
    }
  }

  lemma NoPoints(rs: seq<Range>)
    requires rs == []
    ensures Points(rs) == {}
  {
  }

  lemma PointsStep(rs: seq<Range>, m: nat)
    requires 0 < m <= |rs|
    ensures Points(rs[..m]) == Points(rs[..m - 1]) + Run(rs[m - 1].lo, rs[m - 1].hi)
  {
    hide Run;
    assert rs[..m][..m - 1] == rs[..m - 1];
  }

  lemma AddRange(a: set<int>, lo: int, hi: int)
    requires lo <= hi && forall z :: z in a ==> z <= lo
    ensures |a + Run(lo, hi)| == |a| + (hi - lo) + if lo in a then 0 else 1
  {
    hide Run;
    var more := Run(lo + 1, hi);
    if lo in a {
      assert a + Run(lo, hi) == a + more;
      assert |a + more| == |a| + |more|;
    } else {
      assert |a + Run(lo, hi)| == |a| + |Run(lo, hi)|;
    }
  }

  /** Up to range `t` no point lies above its start, and only the end of the range before can
      be at its start. */
  lemma LastPoint(s: seq<int>, t: nat)
    requires 2 * t + 1 < |s| && Sorted(s)
    ensures forall z :: z in Points(Pairs(s)[..t]) ==> z <= s[2 * t]
    ensures s[2 * t] in Points(Pairs(s)[..t]) <==> t > 0 && s[2 * t] == s[2 * t - 1]
  {
    hide Run, Pairs, Points;
    var rs := Pairs(s)[..t];
    forall z | z in Points(rs) ensures z <= s[2 * t] {
      PointsOf(rs, z);
    }
    PointsOf(rs, s[2 * t]);
    if t > 0 {
      assert rs[t - 1] == Range(s[2 * (t - 1)], s[2 * (t - 1) + 1]);
      if s[2 * t] == s[2 * t - 1] {
        assert Within(s[2 * t], rs[t - 1]);
      }
    }
  }

  /** The size of an expanded key as the compressed key tells it; -1 when it exceeds an int. */
  method InternalSize(s: seq<int>) returns (size: int)
    requires |s| % 2 == 0
    ensures var c := Counted(s, |s| / 2); size == if INT32_MIN <= c <= INT32_MAX then c else -1
  {
    size := 0;
    var i := 0;
    while i < |s|
      invariant 0 <= i <= |s| && i % 2 == 0 && size == Counted(s, i / 2)
    {
      if i == 0 || s[i] != s[i - 1] {
        size := size + s[i + 1] - s[i] + 1;
      }
      i := i + 2;
    }
    if size > INT32_MAX || size < INT32_MIN {
      size := -1;
    }
  }

  // ---------------------------------------------------------------- compression

  /** A key that compression may give for the elements `x`. */
  ghost predicate Compressed(x: seq<int>, s: seq<int>, k: nat)
  {
    if |x| < 2 * k then s == x
    else
      && |s| == 2 * k && Ascending(Pairs(s)) && CoversAll(Pairs(s), x) && Cheapest(Pairs(s), x, k)
      && (forall i :: 0 <= i < |s| ==> s[i] in x)
      && |Points(Pairs(s))| <= MAXNUMELTS
  }

  datatype Compression = Key(s: seq<int>) | TooSparse | TooLong

  /** Bytes of an array of `n` integers, with its header. */
  function ArrayBytes(n: nat): nat { 24 + 4 * n }

  /** Compression of an internal key to `k` ranges. It fails just when there is no memory for twice
      its elements, or when no cover by `k` intervals is small enough. */
  method Compress(key: seq<int>, k: nat) returns (r: Compression)
    requires k > 0 && Increasing(key) && Int32(key)
    ensures r.Key? ==> Compressed(key, r.s, k)
    ensures r.TooLong? <==> |key| >= 2 * k && ArrayBytes(2 * |key|) > MAX_ALLOC
    ensures r.TooSparse? ==> |key| >= 2 * k
    ensures r.TooSparse? ==> forall rs :: |rs| <= k && CoversAll(rs, key) ==> |Points(rs)| > MAXNUMELTS
  {
    hide Increasing, Closing, Points, Pairs, Counted, CoversAll, Cheapest, Ascending;
    if |key| < 2 * k {
      return Key(key);
    }
    var n := |key|;
    if ArrayBytes(2 * n) > MAX_ALLOC {
      return TooLong;
    }
    var dr := new int[2 * n](i requires i >= 0 => if i < n then key[i] else 0);
    assert dr[..n] == key;
    var len, cuts := ToRanges(dr, n, k, key);
    var s := dr[..len];
    CompressedSize(s, key, cuts);
    var lenr := InternalSize(s);
    if lenr < 0 || lenr > MAXNUMELTS {
      CheapestTooLarge(s, key, k);
      return TooSparse;
    }
    return Key(s);
  }

  lemma MergedAll(s: seq<int>, x: seq<int>, cuts: seq<nat>, j: int)
    requires Merging(s, x, cuts, -1, j - 1) && Increasing(x) && Int32(x)
    ensures |cuts| == |x| - j + 1 && Closing(s[2 * j..], x, cuts)
  {
    hide Flat, Rising;
    FreeIsThrifty(x, cuts);
  }

  lemma CheapestTooLarge(s: seq<int>, x: seq<int>, k: nat)
    requires Cheapest(Pairs(s), x, k) && |Points(Pairs(s))| > MAXNUMELTS
    ensures forall rs :: |rs| <= k && CoversAll(rs, x) ==> |Points(rs)| > MAXNUMELTS
  {
    hide CoversAll, Points, Pairs;
  }

  lemma CompressedSize(s: seq<int>, x: seq<int>, cuts: seq<nat>)
    requires x != [] && Closing(s, x, cuts)
    ensures |s| % 2 == 0 && Ascending(Pairs(s)) && CoversAll(Pairs(s), x) && Cheapest(Pairs(s), x, |cuts| - 1)
    ensures forall i :: 0 <= i < |s| ==> s[i] in x
    ensures |Points(Pairs(s))| == Counted(s, |s| / 2)
  {
    hide Flat, Increasing, Chosen, Thrifty, Points, Pairs, Counted, Ascending, Cheapest, CoversAll;
    PairsOfFlat(x, cuts);
    RangesOfCuts(x, cuts);
    ThriftyCoverIsCheapest(x, cuts);
    FlatElements(x, cuts);
    AscendingCount(s);
  }

  lemma {:induction false} BoundsSorted(s: seq<int>, i: nat, j: nat)
    requires |s| % 2 == 0 && Ascending(Pairs(s)) && i < j < |s|
    ensures s[i] <= s[j] && (i / 2 < j / 2 ==> s[i] < s[j])
  {
    hide Pairs;
    var rs := Pairs(s);
    var a, b := rs[i / 2], rs[j / 2];
    assert s[i] == a.lo || s[i] == a.hi;
    assert s[j] == b.lo || s[j] == b.hi;
  }

  /** Ranges that do not touch are counted in full. */
  lemma AscendingCount(s: seq<int>)
    requires |s| % 2 == 0 && Ascending(Pairs(s))
    ensures Sorted(s) && !AnyJoins(s)
    ensures |Points(Pairs(s))| == Counted(s, |s| / 2)
  {
    hide Pairs, Points, Counted, Uncounted, Ascending;
    forall i, j | 0 <= i < j < |s| ensures s[i] <= s[j] {
      BoundsSorted(s, i, j);
    }
    forall t: nat | 2 * t + 1 < |s| ensures !Joins(s, t) {
      if t > 0 {
        BoundsSorted(s, 2 * t - 1, 2 * t);
      }
    }
    CountedPoints(s, |s| / 2);
    UncountedIsJoins(s, |s| / 2);
    assert Pairs(s)[..|s| / 2] == Pairs(s);
  }
}
