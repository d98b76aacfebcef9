/** Expanding compressed keys, the tests that a search makes on them, and whole searches. */
module IntGist {
  import opened Wrappers
  import opened IntCover
  import opened IntCompress
  import opened MachineInt
  import opened QuerySyntax
  import opened QueryItems
  import opened QueryInput

  ghost function Elements(s: seq<int>): set<int> { set z | z in s }

  // ---------------------------------------------------------------- expansion

  datatype Expansion = AsStored | Expanded(elems: seq<int>) | TooBig | Undefined
  datatype Fill = Filled | Overrun | Wrapped

  /** The elements written so far. */
  ghost predicate Written(s: seq<int>, z: set<int>)
  {
    Increasing(s) && Elements(s) == z
  }

  lemma WrittenCount(s: seq<int>, z: set<int>)
    requires Written(s, z)
    ensures |s| == |z|
    decreases |s|
  {
    if s != [] {
      var n := |s| - 1;
      assert s == s[..n] + [s[n]];
      WrittenCount(s[..n], Elements(s[..n]));
      assert s[n] !in s[..n];
      assert z == Elements(s[..n]) + {s[n]};
    } else {
      assert z == {};
    }
  }

  lemma WriteOne(s: seq<int>, z: set<int>, j: int)
    requires Written(s, z) && forall y :: y in z ==> y < j
    ensures Written(s + [j], z + {j})
  {
    forall i | 0 <= i < |s| ensures s[i] < j { assert s[i] in z; }
  }

  /** The largest element is the last one written. */
  lemma LastIsLargest(s: seq<int>, z: set<int>, j: int)
    requires Written(s, z) && s != [] && forall y :: y in z ==> y <= j
    ensures s[|s| - 1] == j <==> j in z
  {
    assert s[|s| - 1] in z;
    if j in z {
      var i :| 0 <= i < |s| && s[i] == j;
    }
  }

  /** Writes one element unless it is there already; a write past the end of the buffer ends
      the model's run. */
  method WriteElement(dr: array<int>, from: nat, j: int, ghost z: set<int>) returns (w: nat, ok: bool)
    requires from <= dr.Length && Written(dr[..from], z) && forall y :: y in z ==> y <= j
    modifies dr
    ensures w <= dr.Length
    ensures ok ==> Written(dr[..w], z + {j})
    ensures !ok ==> |z + {j}| > dr.Length
  {
    hide Written;
    ghost var was := dr[..from];
    WrittenCount(was, z);
    if from > 0 {
      LastIsLargest(was, z, j);
    }
    if from == 0 || dr[from - 1] != j {
      if from == dr.Length {
        assert |z + {j}| == |z| + 1;
        return from, false;
      }
      WriteOne(was, z, j);
      dr[from] := j;
      assert dr[..from + 1] == was + [j];
      return from + 1, true;
    }
    assert z + {j} == z;
    return from, true;
  }

  /** Writes one range, without the first element when it is there already. The step past the
      largest int ends the model's run. */
  method FillRange(dr: array<int>, from: nat, lo: int, hi: int, ghost before: set<int>) returns (w: nat, f: Fill)
    requires from <= dr.Length && lo <= hi <= INT32_MAX
    requires Written(dr[..from], before) && forall y :: y in before ==> y <= lo
    modifies dr
    ensures w <= dr.Length
    ensures f.Filled? ==> hi < INT32_MAX && Written(dr[..w], before + Run(lo, hi))
    ensures f.Overrun? ==> |before + Run(lo, hi)| > dr.Length
    ensures f.Wrapped? ==> hi == INT32_MAX
  {
    hide Run, Written;
    w := from;
    var j := lo;
    assert before + Run(lo, lo - 1) == before;
    while j <= hi
      invariant lo <= j <= hi + 1 && j <= INT32_MAX && w <= dr.Length
      invariant Written(dr[..w], before + Run(lo, j - 1))
      decreases hi - j
    {
      ghost var z := before + Run(lo, j - 1);
      assert z + {j} == before + Run(lo, j);
      var ok;
      w, ok := WriteElement(dr, w, j, z);
      if !ok {
        Subset(z + {j}, before + Run(lo, hi));
        return w, Overrun;
      }
      if j == INT32_MAX {
        return w, Wrapped;
      }
      j := j + 1;
    }
    f := Filled;
  }

  /** Writes range `t`. */
  method FillNext(dr: array<int>, from: nat, din: seq<int>, t: nat) returns (w: nat, ok: bool)
    requires |din| % 2 == 0 && Sorted(din) && Int32(din) && 2 * t + 1 < |din|
    requires from <= dr.Length && Written(dr[..from], Points(Pairs(din)[..t]))
    modifies dr
    ensures w <= dr.Length
    ensures ok ==> Written(dr[..w], Points(Pairs(din)[..t + 1])) && din[2 * t + 1] < INT32_MAX
    ensures !ok ==> |Points(Pairs(din))| > dr.Length || din[|din| - 1] == INT32_MAX
  {
    hide Points, Pairs, Written, Run;
    ghost var rs := Pairs(din);
    assert rs[t] == Range(din[2 * t], din[2 * t + 1]);
    LastPoint(din, t);
    PointsStep(rs, t + 1);
    PointsPrefix(rs, t + 1);
    assert 2 * t + 1 < |din| - 1 ==> din[2 * t + 1] <= din[|din| - 1];
    var f;
    w, f := FillRange(dr, from, din[2 * t], din[2 * t + 1], Points(rs[..t]));
    ok := f == Filled;
  }

  /** Writes all ranges, one after the other. */
  method FillAll(dr: array<int>, din: seq<int>) returns (w: nat, ok: bool)
    requires |din| % 2 == 0 && Sorted(din) && Int32(din)
    modifies dr
    ensures w <= dr.Length
    ensures ok ==> Written(dr[..w], Points(Pairs(din))) && (|din| > 0 ==> din[|din| - 1] < INT32_MAX)
    ensures !ok ==> |Points(Pairs(din))| > dr.Length || (|din| > 0 && din[|din| - 1] == INT32_MAX)
  {
    hide Points, Pairs, Written, Run;
    w := 0;
    var i: nat := 0;
    NoPoints(Pairs(din)[..0]);
    NothingWritten(dr[..w]);
    while i < |din|
      invariant 0 <= i <= |din| && i % 2 == 0 && w <= dr.Length
      invariant Written(dr[..w], Points(Pairs(din)[..i / 2]))
      invariant i > 0 ==> din[i - 1] < INT32_MAX
    {
      w, ok := FillNext(dr, w, din, i / 2);
      if !ok {
        return;
      }
      i := i + 2;
    }
    assert Pairs(din)[..|din| / 2] == Pairs(din);
    ok := true;
  }

  /** A stored key that is kept, or whose ranges come in pairs of bounds, are written completely into
      the buffer measured by InternalSize, and do not end at the largest int. */
  ghost predicate Expandable(s: seq<int>, k: nat)
  {
    || |s| < 2 * k
    || (&& |s| % 2 == 0 && Counted(s, |s| / 2) <= MAXNUMELTS && !AnyJoins(s)
        && (s != [] ==> s[|s| - 1] < INT32_MAX))
  }

  /** The integers that an expandable key stands for. */
  ghost function Meant(s: seq<int>, k: nat): set<int>
  {
    if |s| < 2 * k then Elements(s) else Points(Pairs(s))
  }

  /** Expansion of a stored key. It gives the integers of the ranges in ascending order just when
      the key is expandable. */
  method Decompress(din: seq<int>, k: nat) returns (r: Expansion)
    requires k > 0 && Sorted(din) && Int32(din)
    ensures r.AsStored? <==> |din| < 2 * k
    ensures r.TooBig? <==> |din| >= 2 * k && |din| % 2 == 0 && Counted(din, |din| / 2) > MAXNUMELTS
    ensures r.Expanded? <==> |din| >= 2 * k && Expandable(din, k)
    ensures r.Expanded? ==> |r.elems| == Counted(din, |din| / 2) && Written(r.elems, Meant(din, k))
  {
    hide Counted, Points, Pairs, Written, Run, AnyJoins;
    if |din| < 2 * k {
      return AsStored;
    }
    if |din| % 2 == 1 {
      return Undefined;
    }
    ghost var all := Points(Pairs(din));
    CountedAll(din);
    var lenr := InternalSize(din);
    if lenr < 0 || lenr > MAXNUMELTS {
      return TooBig;
    }
    var dr := new int[lenr];
    var w, ok := FillAll(dr, din);
    if !ok {
      return Undefined;
    }
    WrittenCount(dr[..w], all);
    assert dr[..w] == dr[..];
    return Expanded(dr[..]);
  }

  lemma NothingWritten(s: seq<int>)
    requires s == []
    ensures Written(s, {})
  {
  }

  lemma CountedAll(s: seq<int>)
    requires |s| % 2 == 0 && Sorted(s)
    ensures 0 <= Counted(s, |s| / 2) <= |Points(Pairs(s))|
    ensures Counted(s, |s| / 2) == |Points(Pairs(s))| <==> !AnyJoins(s)
  {
    hide Points, Pairs, Joins;
    CountedPoints(s, |s| / 2);
    UncountedIsJoins(s, |s| / 2);
    CountedNotNegative(s, |s| / 2);
    assert Pairs(s)[..|s| / 2] == Pairs(s);
  }

  lemma {:induction false} CountedNotNegative(s: seq<int>, m: nat)
    requires 2 * m <= |s| && Sorted(s)
    ensures Counted(s, m) >= 0
    decreases m
  {
    if m > 0 {
      CountedNotNegative(s, m - 1);
    }
  }

  lemma {:induction false} PointsPrefix(rs: seq<Range>, m: nat)
    requires m <= |rs|
    ensures Points(rs[..m]) <= Points(rs) && |Points(rs[..m])| <= |Points(rs)|
    decreases |rs| - m
  {
    hide Run;
    if m < |rs| {
      PointsPrefix(rs, m + 1);
      PointsStep(rs, m + 1);
    } else {
      assert rs[..m] == rs;
    }
    Subset(Points(rs[..m]), Points(rs));
  }

  // ---------------------------------------------------------------- tests on expanded keys

  method InnerContains(a: seq<int>, b: seq<int>) returns (res: bool)
    requires Increasing(a) && Increasing(b)
    ensures res <==> Elements(b) <= Elements(a)
  {
    var i, j, n := 0, 0, 0;
    while i < |a| && j < |b|
      invariant 0 <= i <= |a| && 0 <= j <= |b| && n == j
      invariant forall t :: 0 <= t < j ==> b[t] in a
      invariant forall t :: 0 <= t < i && j < |b| ==> a[t] < b[j]
    {
      if a[i] < b[j] {
        i := i + 1;
      } else if a[i] == b[j] {
        n, i, j := n + 1, i + 1, j + 1;
      } else {
        break;
      }
    }
    if j < |b| {
      assert b[j] !in a;
      assert b[j] in Elements(b);
    }
    res := n == |b|;
  }

  method InnerOverlap(a: seq<int>, b: seq<int>) returns (res: bool)
    requires Sorted(a) && Sorted(b)
    ensures res <==> Elements(a) * Elements(b) != {}
  {
    var i, j := 0, 0;
    while i < |a| && j < |b|
      invariant 0 <= i <= |a| && 0 <= j <= |b|
      invariant forall t :: 0 <= t < i ==> a[t] !in b
      invariant forall t :: 0 <= t < j ==> b[t] !in a
    {
      if a[i] < b[j] {
        i := i + 1;
      } else if a[i] == b[j] {
        assert a[i] in Elements(a) * Elements(b);
        return true;
      } else {
        j := j + 1;
      }
    }
    return false;
  }

  method SameElements(a: seq<int>, b: seq<int>) returns (res: bool)
    requires Increasing(a) && Increasing(b)
    ensures res <==> Elements(a) == Elements(b)
  {
    hide Increasing;
    WrittenCount(a, Elements(a));
    WrittenCount(b, Elements(b));
    if |a| != |b| {
      return false;
    }
    var n := 0;
    while n < |a|
      invariant 0 <= n <= |a| && a[..n] == b[..n]
    {
      if a[n] != b[n] {
        DifferentAt(a, b, n);
        return false;
      }
      n := n + 1;
    }
    assert a == a[..n] && b == b[..n];
    return true;
  }

  lemma DifferentAt(a: seq<int>, b: seq<int>, n: nat)
    requires Increasing(a) && Increasing(b) && n < |a| == |b| && a[..n] == b[..n] && a[n] != b[n]
    ensures Elements(a) != Elements(b)
  {
    if a[n] < b[n] {
      SmallerMissing(a, b, n);
    } else {
      SmallerMissing(b, a, n);
    }
  }

  lemma SmallerMissing(a: seq<int>, b: seq<int>, n: nat)
    requires Increasing(a) && Increasing(b) && n < |a| == |b| && a[..n] == b[..n] && a[n] < b[n]
    ensures a[n] in Elements(a) && a[n] !in Elements(b)
  {
    forall i | 0 <= i < |b| ensures b[i] != a[n] {
      if i < n {
        assert b[i] == b[..n][i] == a[..n][i] == a[i];
      }
    }
  }

  /** A search condition; `tree` is the query that `items` stores. Arrays are sorted and without
      duplicates. */
  datatype Condition =
    | Overlap(query: seq<int>)
    | Same(query: seq<int>)
    | Contains(query: seq<int>)
    | ContainedBy(query: seq<int>)
    | Boolean(items: seq<Item>, tree: Expr)
    | Other

  ghost predicate Sound(c: Condition)
  {
    match c
    case Boolean(items, tree) => Linked(items, |items| - 1, tree)
    case Other => true
    case _ => Increasing(c.query)
  }

  /** Whether a set of integers meets the condition. */
  ghost predicate Matches(a: set<int>, c: Condition)
  {
    match c
    case Overlap(q) => a * Elements(q) != {}
    case Same(q) => a == Elements(q)
    case Contains(q) => Elements(q) <= a
    case ContainedBy(q) => a <= Elements(q)
    case Boolean(_, tree) => Meaning(tree, a)
    case Other => false
  }

  /** Some subset of the key matches. */
  ghost predicate SubsetMatches(key: set<int>, c: Condition)
  {
    exists a :: a <= key && Matches(a, c)
  }

  lemma SubsetMatchesIs(key: set<int>, c: Condition)
    requires !c.Boolean?
    ensures SubsetMatches(key, c) <==>
            match c
            case Overlap(q) => key * Elements(q) != {}
            case Same(q) => Elements(q) <= key
            case Contains(q) => Elements(q) <= key
            case ContainedBy(_) => true
            case Other => false
  {
    match c
    case Overlap(q) => assert key * Elements(q) != {} ==> Matches(key, c);
    case Same(q) => assert Matches(Elements(q), c);
    case Contains(q) => assert Elements(q) <= key ==> Matches(key, c);
    case ContainedBy(q) => assert Matches({}, c);
    case Other =>
  }

  /** The test of one index entry. On a leaf it is exact; on an internal entry it accepts just when
      some subset of the key matches, or for a boolean query when the key does with all negations taken
      to hold. */
  method Consistent(key: seq<int>, leaf: bool, c: Condition) returns (res: bool)
    requires Increasing(key) && Sound(c)
    ensures leaf ==> (res <==> Matches(Elements(key), c))
    ensures !leaf && !c.Boolean? ==> (res <==> SubsetMatches(Elements(key), c))
    ensures !leaf && c.Boolean? ==> (res <==> Loosely(c.tree, Elements(key)))
    ensures !leaf ==> forall a :: a <= Elements(key) && Matches(a, c) ==> res
  {
    hide SubsetMatches;
    if !c.Boolean? {
      SubsetMatchesIs(Elements(key), c);
    }
    match c {
      case Boolean(items, tree) =>
        res := ExecConsistent(key, leaf, items, tree);
      case Overlap(query) =>
        res := InnerOverlap(key, query);
      case Same(query) =>
        if leaf {
          res := SameElements(key, query);
        } else {
          res := InnerContains(key, query);
        }
      case Contains(query) =>
        res := InnerContains(key, query);
      case ContainedBy(query) =>
        if leaf {
          res := InnerContains(query, key);
        } else {
          res := true;
        }
      case Other =>
        res := false;
    }
  }

  method ExecConsistent(key: seq<int>, leaf: bool, items: seq<Item>, tree: Expr) returns (res: bool)
    requires Linked(items, |items| - 1, tree)
    ensures leaf ==> (res <==> Meaning(tree, Elements(key)))
    ensures !leaf ==> (res <==> Loosely(tree, Elements(key)))
    ensures !leaf ==> forall a :: a <= Elements(key) && Meaning(tree, a) ==> res
  {
    var chk := (i: nat) => i < |items| && items[i].node.Val? && items[i].node.n in key;
    res := Execute(items, |items| - 1, tree, leaf, chk);
    if leaf {
      ExecuteIsMeaning(items, |items| - 1, tree, chk, Elements(key));
    } else {
      LossyExecuteIs(items, |items| - 1, tree, chk, Elements(key));
      forall a | a <= Elements(key) ensures Meaning(tree, a) ==> res {
        LossyExecuteKeepsMatches(items, |items| - 1, tree, chk, a);
      }
    }
  }

  // ---------------------------------------------------------------- the tree

  /** An index entry: a stored row, or a page with its key. */
  datatype Entry = Row(key: seq<int>) | Page(key: seq<int>, entries: seq<Entry>)

  ghost predicate Below(v: seq<int>, t: Entry)
  {
    match t
    case Row(key) => v == key
    case Page(_, entries) => exists i :: 0 <= i < |entries| && Below(v, entries[i])
  }

  ghost predicate UnionOf(u: seq<int>, parts: seq<seq<int>>)
  {
    Increasing(u) && Int32(u) && forall z :: z in u <==> exists i :: 0 <= i < |parts| && z in parts[i]
  }

  /** A page key: the compressed union of expanded keys. */
  ghost predicate Formed(key: seq<int>, parts: seq<seq<int>>, k: nat)
  {
    exists u :: UnionOf(u, parts) && Compressed(u, key, k)
  }

  /** The key of the entry could be expanded, and its expansion is one of the parts. */
  ghost predicate HoldsExpansion(t: Entry, parts: seq<seq<int>>, k: nat)
  {
    Expandable(t.key, k) && exists i :: 0 <= i < |parts| && Elements(parts[i]) == Meant(t.key, k)
  }

  /** Rows as they are stored, of any length; each page key formed from the keys of its entries,
      and possibly others. */
  ghost predicate Valid(t: Entry, k: nat)
  {
    match t
    case Row(key) => Increasing(key) && Int32(key)
    case Page(key, entries) =>
      && (forall i :: 0 <= i < |entries| ==> Valid(entries[i], k))
      && exists parts ::
           Formed(key, parts, k) && forall i :: 0 <= i < |entries| ==> HoldsExpansion(entries[i], parts, k)
  }

  /** Keys as decompression meets them. */
  ghost predicate GoodKey(s: seq<int>, k: nat)
  {
    && Int32(s)
    && (Increasing(s) ||
        (|s| >= 2 * k && |s| % 2 == 0 && Ascending(Pairs(s)) && |Points(Pairs(s))| <= MAXNUMELTS))
  }

  lemma FormedIsGood(key: seq<int>, parts: seq<seq<int>>, k: nat)
    requires Formed(key, parts, k)
    ensures GoodKey(key, k)
  {
    hide Points, Pairs, Ascending, Cheapest, CoversAll, Increasing;
    var u :| UnionOf(u, parts) && Compressed(u, key, k);
    if |u| >= 2 * k {
      forall i | 0 <= i < |key| ensures INT32_MIN <= key[i] <= INT32_MAX { assert key[i] in u; }
    }
  }

  lemma KeyIsGood(t: Entry, k: nat)
    requires Valid(t, k)
    ensures GoodKey(t.key, k)
  {
    if t.Page? {
      var parts :|
        Formed(t.key, parts, k) && forall i :: 0 <= i < |t.entries| ==> HoldsExpansion(t.entries[i], parts, k);
      FormedIsGood(t.key, parts, k);
    }
  }

  /** What a page key expands to contains every part it was formed from. */
  lemma FormedCovers(key: seq<int>, parts: seq<seq<int>>, k: nat, i: nat)
    requires Formed(key, parts, k) && i < |parts|
    ensures Elements(parts[i]) <= Meant(key, k)
  {
    hide Points, Pairs, Ascending, Cheapest, Increasing;
    var u :| UnionOf(u, parts) && Compressed(u, key, k);
    forall z | z in parts[i] ensures z in Meant(key, k) {
      assert z in u;
    }
  }

  /** Through any number of levels a page key stands for whatever the rows below stand for. */
  lemma {:induction false} Covered(t: Entry, k: nat, v: seq<int>)
    requires Valid(t, k) && Below(v, t)
    ensures Meant(v, k) <= Meant(t.key, k)
    decreases t
  {
    if t.Page? {
      var parts :|
        Formed(t.key, parts, k) && forall i :: 0 <= i < |t.entries| ==> HoldsExpansion(t.entries[i], parts, k);
      var i :| 0 <= i < |t.entries| && Below(v, t.entries[i]);
      assert HoldsExpansion(t.entries[i], parts, k);
      var p :| 0 <= p < |parts| && Elements(parts[p]) == Meant(t.entries[i].key, k);
      Covered(t.entries[i], k, v);
      FormedCovers(t.key, parts, k, p);
    }
  }

  lemma GoodKeySorted(s: seq<int>, k: nat)
    requires GoodKey(s, k)
    ensures Sorted(s)
  {
    hide Points, Pairs, Ascending;
    if !Increasing(s) {
      AscendingCount(s);
    }
  }

  /** Expansion of the key of an index entry, if it has one. */
  method ExpandKey(s: seq<int>, k: nat) returns (e: Option<seq<int>>)
    requires GoodKey(s, k) && k > 0
    ensures e.Some? <==> Expandable(s, k)
    ensures e.Some? ==> Written(e.value, Meant(s, k))
  {
    hide Points, Pairs, Counted, AnyJoins, Ascending;
    GoodKeySorted(s, k);
    var r := Decompress(s, k);
    match r {
      case AsStored => e := Some(s);
      case Expanded(elems) => e := Some(elems);
      case _ => e := None;
    }
  }

  /** What the test of a row says: the row could be expanded, and its expansion matches. */
  ghost predicate RowMatches(v: seq<int>, k: nat, c: Condition)
  {
    Expandable(v, k) && Matches(Meant(v, k), c)
  }

  /** The test of a row succeeds and agrees with the row on every condition. */
  ghost predicate ReadsRight(key: seq<int>, k: nat)
  {
    Expandable(key, k) && forall c :: Sound(c) ==> (RowMatches(key, k, c) <==> Matches(Elements(key), c))
  }

  /** A search below one entry succeeds just when the key of the entry can be expanded, and then
      finds exactly the rows whose test says that they match. */
  method Search(t: Entry, k: nat, c: Condition) returns (found: Option<seq<seq<int>>>)
    requires Valid(t, k) && Sound(c) && k > 0
    ensures found.Some? <==> Expandable(t.key, k)
    ensures found.Some? ==> forall v :: v in found.value <==> Below(v, t) && RowMatches(v, k, c)
    decreases t
  {
    hide Matches, Sound, Expandable, Meant, GoodKey, Increasing;
    KeyIsGood(t, k);
    var e := ExpandKey(t.key, k);
    if e.None? {
      return None;
    }
    var ok := Consistent(e.value, t.Row?, c);
    match t {
      case Row(key) =>
        found := Some(if ok then [key] else []);
      case Page(_, entries) =>
        if !ok {
          forall v | Below(v, t) ensures !RowMatches(v, k, c) {
            Covered(t, k, v);
          }
          return Some([]);
        }
        var rows := [];
        var i := 0;
        while i < |entries|
          invariant 0 <= i <= |entries|
          invariant forall v :: v in rows <==>
                    exists m :: 0 <= m < i && Below(v, entries[m]) && RowMatches(v, k, c)
        {
          EntryExpandable(t, k, i);
          var more := Search(entries[i], k, c);
          rows := rows + more.value;
          i := i + 1;
        }
        found := Some(rows);
    }
  }

  /** Where all rows are read right, a search finds exactly the rows that match. */
  method SearchRightRows(t: Entry, k: nat, c: Condition) returns (found: Option<seq<seq<int>>>)
    requires Valid(t, k) && Sound(c) && k > 0 && forall v :: Below(v, t) ==> ReadsRight(v, k)
    ensures found.Some? <==> Expandable(t.key, k)
    ensures found.Some? ==> forall v :: v in found.value <==> Below(v, t) && Matches(Elements(v), c)
  {
    hide Matches, Sound, Expandable, Meant, RowMatches, Below, Valid;
    found := Search(t, k, c);
  }

  lemma EntryExpandable(t: Entry, k: nat, i: nat)
    requires Valid(t, k) && t.Page? && i < |t.entries|
    ensures Expandable(t.entries[i].key, k) && Valid(t.entries[i], k)
  {
    var parts :| forall j :: 0 <= j < |t.entries| ==> HoldsExpansion(t.entries[j], parts, k);
    assert HoldsExpansion(t.entries[i], parts, k);
  }

  // ---------------------------------------------------------------- page keys that are not expanded

  /** All integers of the parts. */
  ghost function AllOf(parts: seq<seq<int>>): set<int>
  {
    set i, z | 0 <= i < |parts| && z in parts[i] :: z
  }

  /** A page key can be expanded unless it is compressed and its integers reach the largest int. */
  lemma FormedExpandable(key: seq<int>, parts: seq<seq<int>>, k: nat)
    requires Formed(key, parts, k) && k > 0
    ensures Expandable(key, k) <==> |AllOf(parts)| < 2 * k || INT32_MAX !in AllOf(parts)
  {
    hide Points, Pairs, Ascending, Cheapest, Counted, AnyJoins;
    var u :| UnionOf(u, parts) && Compressed(u, key, k);
    forall z ensures z in Elements(u) <==> z in AllOf(parts) {
      assert z in Elements(u) <==> z in u;
    }
    WrittenCount(u, AllOf(parts));
    if |u| >= 2 * k {
      AscendingCount(key);
      assert key[|key| - 1] in u;
      if INT32_MAX in u {
        LargestIsLast(key, u);
      }
    }
  }

  lemma LargestIsLast(key: seq<int>, u: seq<int>)
    requires |key| % 2 == 0 && key != [] && Sorted(key) && CoversAll(Pairs(key), u) && INT32_MAX in u
    requires forall i :: 0 <= i < |key| ==> key[i] <= INT32_MAX
    ensures key[|key| - 1] == INT32_MAX
  {
    hide Points, Pairs;
    var rs := Pairs(key);
    PointsOf(rs, INT32_MAX);
    var j :| 0 <= j < |rs| && Within(INT32_MAX, rs[j]);
    assert rs[j] == Range(key[2 * j], key[2 * j + 1]);
    assert 2 * j + 1 < |key| - 1 ==> key[2 * j + 1] <= key[|key| - 1];
  }

  /** Two rows of one integer on a page of an index with one range: the page has a key, which
      no search can expand. */
  lemma LargestIntNotExpanded()
    ensures var parts := [[INT32_MAX - 1], [INT32_MAX]]; var key := [INT32_MAX - 1, INT32_MAX];
            && Formed(key, parts, 1) && !Expandable(key, 1)
            && Valid(Page(key, [Row(parts[0]), Row(parts[1])]), 1)
  {
    hide Formed, Counted, AnyJoins, HoldsExpansion;
    var parts, key := [[INT32_MAX - 1], [INT32_MAX]], [INT32_MAX - 1, INT32_MAX];
    LargestKeyFormed(parts, key);
    var rows := [Row(parts[0]), Row(parts[1])];
    ShortRowHeld(parts, 0);
    ShortRowHeld(parts, 1);
    assert forall i :: 0 <= i < |rows| ==> HoldsExpansion(rows[i], parts, 1) && Valid(rows[i], 1);
  }

  lemma ShortRowHeld(parts: seq<seq<int>>, i: nat)
    requires i < |parts| && |parts[i]| == 1
    ensures HoldsExpansion(Row(parts[i]), parts, 1)
  {
    assert Elements(parts[i]) == Meant(Row(parts[i]).key, 1);
  }

  lemma LargestKeyFormed(parts: seq<seq<int>>, key: seq<int>)
    requires parts == [[INT32_MAX - 1], [INT32_MAX]] && key == [INT32_MAX - 1, INT32_MAX]
    ensures Formed(key, parts, 1)
  {
    hide Points, Pairs;
    var rs := Pairs(key);
    assert rs[0] == Range(INT32_MAX - 1, INT32_MAX);
    forall z ensures z in Points(rs) <==> z in Elements(key) {
      PointsOf(rs, z);
      assert Within(z, rs[0]) <==> z in key;
    }
    assert Points(rs) == Elements(key);
    WrittenCount(key, Elements(key));
    forall other: seq<Range> | CoversAll(other, key) ensures |Points(rs)| <= |Points(other)| {
      assert Elements(key) <= Points(other);
      Subset(Elements(key), Points(other));
    }
    assert Compressed(key, key, 1);
    assert parts[0] == [INT32_MAX - 1] && parts[1] == [INT32_MAX];
    assert UnionOf(key, parts);
  }

  // ---------------------------------------------------------------- rows that are too long

  /** Every pair of bounds is a pair of consecutive integers. */
  ghost predicate Consecutive(s: seq<int>)
  {
    forall t: nat :: 2 * t + 1 < |s| ==> Pairs(s)[t].hi == Pairs(s)[t].lo + 1
  }

  lemma ConsecutiveKept(s: seq<int>)
    requires Increasing(s) && |s| % 2 == 0 && Consecutive(s)
    ensures Points(Pairs(s)) == Elements(s)
  {
    hide Points, Pairs;
    var rs := Pairs(s);
    forall z ensures z in Points(rs) <==> z in Elements(s) {
      PointsOf(rs, z);
      if j :| 0 <= j < |rs| && Within(z, rs[j]) {
        assert rs[j] == Range(s[2 * j], s[2 * j + 1]);
        assert z == s[2 * j] || z == s[2 * j + 1];
      }
      if i :| 0 <= i < |s| && s[i] == z {
        assert rs[i / 2] == Range(s[2 * (i / 2)], s[2 * (i / 2) + 1]);
        assert Within(z, rs[i / 2]);
      }
    }
  }

  lemma KeptConsecutive(s: seq<int>, t: nat)
    requires Increasing(s) && 2 * t + 1 < |s| && |s| % 2 == 0 && Points(Pairs(s)) == Elements(s)
    ensures s[2 * t + 1] == s[2 * t] + 1
  {
    hide Points, Pairs;
    var rs, z := Pairs(s), s[2 * t] + 1;
    assert rs[t] == Range(s[2 * t], s[2 * t + 1]);
    PointsOf(rs, z);
    assert Within(z, rs[t]);
    var i :| 0 <= i < |s| && s[i] == z;
    assert 2 * t < i;
  }

  /** A row of increasing integers can be expanded unless it is long and has an odd number of
      them, covers too many, or reaches the largest int. */
  lemma RowExpandable(key: seq<int>, k: nat)
    requires Increasing(key) && |key| >= 2 * k && |key| % 2 == 0
    ensures !AnyJoins(key) && Counted(key, |key| / 2) == |Points(Pairs(key))|
  {
    hide Points, Pairs, Counted;
    CountedAll(key);
  }

  /** A row is read right just when it is shorter than `2 * k`, or consists of pairs of consecutive
      integers, not too many of them and none the largest. */
  lemma LongRowExact(key: seq<int>, k: nat)
    requires Increasing(key) && Int32(key) && k > 0
    ensures ReadsRight(key, k) <==>
            || |key| < 2 * k
            || (|key| % 2 == 0 && |key| <= MAXNUMELTS && Consecutive(key) && key[|key| - 1] < INT32_MAX)
  {
    hide Points, Pairs, Counted, AnyJoins;
    if |key| >= 2 * k && |key| % 2 == 0 {
      RowExpandable(key, k);
      if Consecutive(key) {
        ConsecutiveKept(key);
        WrittenCount(key, Elements(key));
      } else {
        var t: nat :| 2 * t + 1 < |key| && Pairs(key)[t].hi != Pairs(key)[t].lo + 1;
        if Meant(key, k) == Elements(key) {
          KeptConsecutive(key, t);
        }
        var c := Same(key);
        assert Sound(c) && !RowMatches(key, k, c) && Matches(Elements(key), c);
      }
    }
  }

  /** A row of two integers in an index with one range, and a query it meets that is refused. */
  lemma LongRowLosesMatch()
    ensures var c := Boolean([Item(Val(15), 0), Item(Opr(NotOp), -1)], Not(Num(15)));
            Sound(c) && Expandable([10, 20], 1) && Matches(Elements([10, 20]), c) && !RowMatches([10, 20], 1, c)
  {
    hide Points, Pairs;
    var key := [10, 20];
    var rs := Pairs(key);
    assert rs[0] == Range(10, 20);
    PointsOf(rs, 15);
    assert Within(15, rs[0]);
    assert 15 in Meant(key, 1) && Meaning(Num(15), Meant(key, 1));
    RowExpandable(key, 1);
    assert Counted(key, 0) == 0 && Counted(key, 1) == 11;
  }

  /** Rows of consecutive integers up to the largest int, and of an odd number of integers, are not
      expanded. */
  lemma LongRowNotExpanded()
    ensures Consecutive([INT32_MAX - 1, INT32_MAX]) && !Expandable([INT32_MAX - 1, INT32_MAX], 1)
    ensures !Expandable([10, 20, 30], 1)
  {
  }
}
