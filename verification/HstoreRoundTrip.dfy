/** Input of a text as a store, and the round trip through text. */
module HstoreRoundTrip {
  import opened Wrappers
  import opened Growth
  import opened ByteOrder
  import opened HstoreFormat
  import opened HstoreBuilder
  import opened HstoreOps
  import opened HstoreMerge
  import opened HstoreText
  import opened HstorePrint
  import opened HstoreInput

  // ---------------------------------------------------------------- sorting

  /** Keys in order, equal ones next to each other. */
  ghost predicate Sorted(s: seq<Item>)
  {
    forall i, j :: 0 <= i < j < |s| ==> KeyCmp(s[i].key, s[j].key) <= 0
  }

  /** Any sorted arrangement of the pairs; nothing is said about the order of equal keys. */
  method SortPairs(s: seq<Item>) returns (r: seq<Item>)
    ensures Sorted(r) && multiset(r) == multiset(s)
  {
    hide Sorted;
    r := [];
    NothingSorted(r);
    var i := 0;
    while i < |s|
      invariant 0 <= i <= |s| && Sorted(r) && multiset(r) == multiset(s[..i])
    {
      r := InsertPair(r, s[i]);
      assert s[..i + 1] == s[..i] + [s[i]];
      i := i + 1;
    }
    assert s[..i] == s;
  }

  method InsertPair(s: seq<Item>, x: Item) returns (r: seq<Item>)
    requires Sorted(s)
    ensures Sorted(r) && multiset(r) == multiset(s) + multiset{x}
  {
    hide KeyCmp, Sorted;
    var j := |s|;
    while j > 0 && KeyCmp(x.key, s[j - 1].key) < 0
      invariant 0 <= j <= |s|
      invariant forall t :: j <= t < |s| ==> KeyCmp(x.key, s[t].key) < 0
    {
      j := j - 1;
    }
    SortedInsert(s, x, j);
    InsertMultiset(s, x, j);
    return s[..j] + [x] + s[j..];
  }

  lemma NothingSorted(s: seq<Item>)
    requires s == []
    ensures Sorted(s)
  {
  }

  lemma InsertMultiset(r: seq<Item>, x: Item, j: nat)
    requires j <= |r|
    ensures multiset(r[..j] + [x] + r[j..]) == multiset(r) + multiset{x}
  {
    assert r == r[..j] + r[j..];
  }

  lemma KeyCmpTransitive(a: bytes, b: bytes, c: bytes)
    requires KeyCmp(a, b) <= 0 && KeyCmp(b, c) <= 0
    ensures KeyCmp(a, c) <= 0
  {
    if |a| == |b| == |c| {
      LeTransitive(a, b, c);
    }
  }

  lemma SortedInsert(r: seq<Item>, x: Item, j: nat)
    requires Sorted(r) && j <= |r| && (j > 0 ==> KeyCmp(x.key, r[j - 1].key) >= 0)
    requires forall t :: j <= t < |r| ==> KeyCmp(x.key, r[t].key) < 0
    ensures Sorted(r[..j] + [x] + r[j..])
  {
    hide KeyCmp;
    forall t | 0 <= t < j ensures KeyCmp(r[t].key, x.key) <= 0 {
      KeyCmpFacts(x.key, r[j - 1].key);
      if t < j - 1 {
        KeyCmpTransitive(r[t].key, r[j - 1].key, x.key);
      }
    }
  }

  lemma FirstSame(a: seq<Item>, b: seq<Item>)
    requires Ordered(a) && Sorted(b) && multiset(a) == multiset(b) && a != [] && b != []
    ensures a[0] == b[0]
  {
    hide KeyCmp;
    assert a[0] in multiset(b) && b[0] in multiset(a);
    var t :| 0 <= t < |b| && b[t] == a[0];
    var j :| 0 <= j < |a| && a[j] == b[0];
    KeyCmpFacts(a[0].key, a[j].key);
    if j > 0 {
      assert KeyLt(a[0].key, a[j].key);
    }
  }

  lemma TailMultiset(a: seq<Item>, b: seq<Item>)
    requires a != [] && b != [] && a[0] == b[0] && multiset(a) == multiset(b)
    ensures multiset(a[1..]) == multiset(b[1..])
  {
    assert a == [a[0]] + a[1..] && b == [b[0]] + b[1..];
    assert multiset(a) == multiset{a[0]} + multiset(a[1..]);
    assert multiset(b) == multiset{b[0]} + multiset(b[1..]);
    assert multiset(a[1..]) == multiset(a) - multiset{a[0]};
    assert multiset(b[1..]) == multiset(b) - multiset{b[0]};
  }

  /** Pairs with different keys in order have only one sorted arrangement. */
  lemma {:induction false} SortedUnique(a: seq<Item>, b: seq<Item>)
    requires Ordered(a) && Sorted(b) && multiset(a) == multiset(b)
    ensures a == b
    decreases |a|
  {
    hide KeyCmp;
    assert |a| == |multiset(a)| == |multiset(b)| == |b|;
    if a != [] {
      FirstSame(a, b);
      TailMultiset(a, b);
      SortedUnique(a[1..], b[1..]);
      assert a == [a[0]] + a[1..] && b == [b[0]] + b[1..];
    }
  }

  // ---------------------------------------------------------------- unique keys

  /** The first pair of each key. */
  ghost function Dedup(s: seq<Item>): (d: seq<Item>)
    ensures |d| <= |s| && (s != [] ==> d != [])
  {
    if s == [] then []
    else
      var d, x := Dedup(s[..|s| - 1]), s[|s| - 1];
      if d != [] && d[|d| - 1].key == x.key then d else d + [x]
  }

  lemma {:induction false} DedupLast(s: seq<Item>)
    requires s != []
    ensures Dedup(s)[|Dedup(s)| - 1].key == s[|s| - 1].key
    ensures forall x :: x in Dedup(s) ==> x in s
    decreases |s|
  {
    if |s| > 1 {
      DedupLast(s[..|s| - 1]);
    }
  }

  lemma {:induction false} DedupOrdered(s: seq<Item>)
    requires Sorted(s)
    ensures Ordered(Dedup(s)) && KeysOf(Dedup(s)) == KeysOf(s)
    decreases |s|
  {
    hide KeyCmp, Dedup, KeysOf;
    if s == [] {
      DedupStart(s);
    } else {
      var n := |s| - 1;
      var d, x := Dedup(s[..n]), s[n];
      DedupOrdered(s[..n]);
      DedupStep(s, n);
      assert s == s[..n] + [x] && s[..n + 1] == s;
      KeysSnoc(s[..n], x);
      KeysSnoc(d, x);
      if n == 0 {
        DedupStart(s);
      } else {
        DedupLast(s[..n]);
        var y := d[|d| - 1];
        KeyCmpFacts(y.key, x.key);
        if y.key != x.key {
          OrderedSnoc(d, x);
        } else {
          KeyOfMember(d, |d| - 1);
          assert KeysOf(s[..n]) + {x.key} == KeysOf(s[..n]);
        }
      }
    }
  }

  lemma KeyOfMember(s: seq<Item>, i: nat)
    requires i < |s|
    ensures s[i].key in KeysOf(s)
  {
  }

  lemma KeysSnoc(s: seq<Item>, x: Item)
    ensures KeysOf(s + [x]) == KeysOf(s) + {x.key}
  {
    var t := s + [x];
    assert forall i :: 0 <= i < |s| ==> t[i] == s[i];
    assert t[|s|] == x;
  }

  lemma OrderedSnoc(d: seq<Item>, x: Item)
    requires Ordered(d) && (d != [] ==> KeyLt(d[|d| - 1].key, x.key))
    ensures Ordered(d + [x])
  {
    forall i | 0 <= i < |d| ensures KeyLt(d[i].key, x.key) {
      if i < |d| - 1 {
        KeyLtTransitive(d[i].key, d[|d| - 1].key, x.key);
      }
    }
  }

  lemma {:induction false} DedupOfOrdered(s: seq<Item>)
    requires Ordered(s)
    ensures Dedup(s) == s
    decreases |s|
  {
    hide KeyCmp, Dedup;
    if s == [] {
      DedupStart(s);
    } else {
      var n := |s| - 1;
      DedupOfOrdered(s[..n]);
      DedupStep(s, n);
      if n > 0 {
        KeyCmpFacts(s[n - 1].key, s[n].key);
        assert KeyLt(s[n - 1].key, s[n].key);
      }
      assert s == s[..n] + [s[n]] && s[..n + 1] == s;
    }
  }

  lemma DedupStart(s: seq<Item>)
    ensures Dedup(s[..0]) == [] && (s != [] ==> Dedup(s[..1]) == [s[0]])
    ensures s == [] ==> Dedup(s) == s
  {
    if s != [] {
      assert s[..1][..0] == [];
    }
  }

  lemma DedupStep(s: seq<Item>, n: nat)
    requires n < |s|
    ensures var d := Dedup(s[..n]);
            Dedup(s[..n + 1]) == if d != [] && d[|d| - 1].key == s[n].key then d else d + [s[n]]
  {
    assert s[..n + 1][..n] == s[..n];
  }

  /** Bytes that the pairs take in a store. */
  ghost function BytesFor(s: seq<Item>): nat
  {
    if s == [] then 0
    else BytesFor(s[..|s| - 1]) + |s[|s| - 1].key| + if s[|s| - 1].isnull then 0 else |s[|s| - 1].val|
  }

  lemma BytesForSnoc(s: seq<Item>, x: Item)
    ensures BytesFor(s + [x]) == BytesFor(s) + |x.key| + if x.isnull then 0 else |x.val|
  {
    assert (s + [x])[..|s|] == s;
  }

  function Bytes1(x: Item): nat { |x.key| + if x.isnull then 0 else |x.val| }

  /** Moves the first pair of each key to the front of the sorted array. */
  method UniquePairs(a: array<Item>) returns (n: nat, buflen: nat)
    modifies a
    ensures n <= a.Length && a[..n] == Dedup(old(a[..])) && buflen == BytesFor(a[..n])
  {
    hide BytesFor, Dedup;
    ghost var s := a[..];
    NoBytes(a[..0]);
    DedupStart(s);
    if a.Length < 2 {
      if a.Length == 1 {
        BytesForSnoc(a[..0], a[0]);
        assert a[..1] == a[..0] + [a[0]] && s[..1] == s;
        return 1, Bytes1(a[0]);
      }
      return 0, 0;
    }
    var ptr, res := 1, 0;
    buflen := 0;
    while ptr < a.Length
      invariant 0 <= res < ptr <= a.Length && |s| == a.Length
      invariant a[..res + 1] == Dedup(s[..ptr]) && buflen == BytesFor(a[..res])
      invariant a[ptr..] == s[ptr..]
    {
      DedupStep(s, ptr);
      buflen, res := UniqueStep(a, ptr, res, buflen);
      assert s[ptr + 1..] == s[ptr..][1..];
      ptr := ptr + 1;
    }
    assert s[..ptr] == s;
    assert a[..res + 1] == a[..res] + [a[res]];
    BytesForSnoc(a[..res], a[res]);
    return res + 1, buflen + Bytes1(a[res]);
  }

  /** One pair: dropped if its key is that of the last one kept, kept behind it if not. */
  method UniqueStep(a: array<Item>, ptr: nat, last: nat, len: nat) returns (buflen: nat, res: nat)
    requires last < ptr < a.Length && len == BytesFor(a[..last])
    modifies a
    ensures last <= res <= ptr && buflen == BytesFor(a[..res])
    ensures a[..res + 1] == old(if a[last].key == a[ptr].key then a[..last + 1] else a[..last + 1] + [a[ptr]])
    ensures a[ptr + 1..] == old(a[ptr..])[1..]
  {
    hide BytesFor;
    ghost var s := a[..];
    buflen, res := len, last;
    if a[ptr].key != a[res].key {
      buflen := buflen + Bytes1(a[res]);
      assert a[..last + 1] == a[..last] + [a[last]];
      BytesForSnoc(a[..res], a[res]);
      res := res + 1;
      if res != ptr {
        a[res] := a[ptr];
      }
      assert a[..res] == s[..last + 1];
      assert a[..res + 1] == s[..last + 1] + [s[ptr]];
    }
    assert a[ptr + 1..] == s[ptr..][1..];
  }

  lemma NoBytes(s: seq<Item>)
    requires s == []
    ensures BytesFor(s) == 0
  {
  }

  // ---------------------------------------------------------------- packing

  /** A pair as it is stored: a null has no bytes. */
  function Stored(it: Item): Item { if it.isnull then Item(it.key, [], true) else it }

  ghost function StoredAll(items: seq<Item>): (r: seq<Item>)
    ensures |r| == |items| && forall i :: 0 <= i < |items| ==> r[i] == Stored(items[i])
  {
    seq(|items|, i requires 0 <= i < |items| => Stored(items[i]))
  }

  lemma {:induction false} StoredBytes(items: seq<Item>)
    ensures |Concat(StoredAll(items))| == BytesFor(items)
    decreases |items|
  {
    if items != [] {
      var n := |items| - 1;
      StoredBytes(items[..n]);
      assert StoredAll(items)[..n] == StoredAll(items[..n]);
    }
  }

  lemma {:induction false} BytesForPrefix(items: seq<Item>, i: nat)
    requires i < |items|
    ensures BytesFor(items[..i]) + Bytes1(items[i]) == BytesFor(items[..i + 1]) <= BytesFor(items)
    decreases |items| - i
  {
    BytesForSnoc(items[..i], items[i]);
    assert items[..i + 1] == items[..i] + [items[i]];
    if i + 1 < |items| {
      BytesForPrefix(items, i + 1);
    } else {
      assert items[..i + 1] == items;
    }
  }

  /** Packs sorted pairs into a store. */
  method HstorePairs(pairs: seq<Item>, buflen: nat) returns (h: HStore)
    requires buflen == BytesFor(pairs)
    ensures h == Encode(StoredAll(pairs))
  {
    hide BytesFor, Encode, Concat, Word, EndOf;
    if |pairs| == 0 {
      PackNothing(StoredAll(pairs));
      return HStore([], []);
    }
    var b := new Builder(|pairs|, 8 * |pairs| + buflen);
    NoBytes(pairs[..0]);
    var i := 0;
    while i < |pairs|
      invariant 0 <= i <= |pairs| && b.Valid() && fresh(b) && fresh(b.mem)
      invariant b.count == |pairs| && b.mem.Length == 8 * |pairs| + buflen
      invariant b.items == StoredAll(pairs[..i])
    {
      StoredBytes(pairs[..i]);
      BytesForPrefix(pairs, i);
      b.AddItem(pairs[i]);
      assert pairs[..i + 1] == pairs[..i] + [pairs[i]];
      assert StoredAll(pairs[..i + 1]) == StoredAll(pairs[..i]) + [Stored(pairs[i])];
      i := i + 1;
    }
    assert pairs[..i] == pairs;
    h := b.Finalize();
  }

  lemma PackNothing(items: seq<Item>)
    requires items == []
    ensures Encode(items) == HStore([], [])
  {
    EmptyConcat(items);
  }

  // ---------------------------------------------------------------- input

  /** The string that memory holds up to the first zero. */
  function CString(s: bytes): (r: bytes)
    ensures 0 !in r
  {
    if s == [] || s[0] == 0 then [] else [s[0]] + CString(s[1..])
  }

  lemma {:induction false} CStringKeeps(s: bytes)
    requires 0 !in s
    ensures CString(s + [0]) == s
    decreases |s|
  {
    if s == [] {
      assert (s + [0])[0] == 0;
    } else {
      CStringKeeps(s[1..]);
      assert (s + [0])[1..] == s[1..] + [0];
    }
  }

  /** The map takes its keys and values from the pairs. */
  ghost predicate FromPairs(m: map<bytes, Option<bytes>>, pairs: seq<Item>)
  {
    && m.Keys == KeysOf(pairs)
    && forall k :: k in m ==> exists i :: 0 <= i < |pairs| && pairs[i].key == k && m[k] == ValueOf(pairs[i])
  }

  /** The store of pairs whose keys are different and in order, unless it is too large. */
  ghost function StoreOf(u: seq<Item>): Option<HStore>
  {
    if 8 + 8 * |u| + BytesFor(u) <= MAX_ALLOC then Some(Encode(StoredAll(u))) else None
  }

  /** The store of the first pair of each key, after some sorting of the pairs. */
  ghost predicate OfSorted(r: Option<HStore>, pairs: seq<Item>)
  {
    exists s :: Sorted(s) && multiset(s) == multiset(pairs) && r == StoreOf(Dedup(s))
  }

  /** The store of a text. A text that does not parse and a store that is too large give none.
      When a key occurs twice, one of its values is taken. */
  method HstoreIn(mem: bytes) returns (r: Option<HStore>)
    ensures var p := ReadPairs(CString(mem), WKey, [], []);
            && (p.None? ==> r.None?)
            && (p.Some? ==> OfSorted(r, p.value))
            && (p.Some? && r.Some? ==> ValidStore(r.value) && FromPairs(ToMap(r.value), p.value))
            && (p.Some? && Ordered(p.value) ==> r == StoreOf(p.value))
  {
    hide ReadPairs, CString, BytesFor, Dedup, Ordered, Sorted, ToMap, ValidStore, FromPairs, Encode, StoredAll;
    var parser := new Parser(CString(mem));
    var ok := parser.Parse();
    if !ok {
      return None;
    }
    ghost var pairs := parser.pairs;
    var sorted := SortPairs(parser.pairs);
    if Ordered(pairs) {
      SortedUnique(pairs, sorted);
      DedupOfOrdered(pairs);
    }
    var a := new Item[|sorted|](i requires 0 <= i < |sorted| => sorted[i]);
    assert a[..] == sorted;
    var n, buflen := UniquePairs(a);
    var u := a[..n];
    if 8 + 8 * n + buflen > MAX_ALLOC {
      assert StoreOf(u) == None;
      return None;
    }
    var h := HstorePairs(u, buflen);
    StoreOfPairs(pairs, sorted, u);
    return Some(h);
  }

  lemma StoreOfPairs(pairs: seq<Item>, sorted: seq<Item>, u: seq<Item>)
    requires Sorted(sorted) && multiset(sorted) == multiset(pairs) && u == Dedup(sorted)
    requires 8 + 8 * |u| + BytesFor(u) <= MAX_ALLOC
    ensures var h := Encode(StoredAll(u)); ValidStore(h) && FromPairs(ToMap(h), pairs)
  {
    hide BytesFor, Dedup, Sorted, Encode, CleanWords, Packed, Concat, MapOf, KeyCmp;
    DedupOrdered(sorted);
    var items := StoredAll(u);
    assert Ordered(items);
    StoredBytes(u);
    EncodeValid(items);
    assert KeysOf(items) == KeysOf(u) by {
      assert forall i :: 0 <= i < |u| ==> items[i].key == u[i].key;
    }
    KeysOfPermutation(sorted, pairs);
    forall k ensures k in MapOf(items) <==> k in KeysOf(pairs) {
      MapOfAt(items, k);
      LookupKeys(items, k);
    }
    forall k | k in MapOf(items)
      ensures exists i :: 0 <= i < |pairs| && pairs[i].key == k && MapOf(items)[k] == ValueOf(pairs[i])
    {
      MapOfAt(items, k);
      LookupKeys(items, k);
      var t :| 0 <= t < |items| && items[t].key == k;
      LookupAt(items, t);
      KeptFrom(sorted, u, u[t]);
      assert u[t] in multiset(sorted) && u[t] in multiset(pairs);
      var i :| 0 <= i < |pairs| && pairs[i] == u[t];
    }
  }

  lemma KeptFrom(sorted: seq<Item>, u: seq<Item>, x: Item)
    requires u == Dedup(sorted) && x in u
    ensures x in sorted
  {
    DedupLast(sorted);
  }

  lemma KeysOfPermutation(a: seq<Item>, b: seq<Item>)
    requires multiset(a) == multiset(b)
    ensures KeysOf(a) == KeysOf(b)
  {
    forall k | k in KeysOf(a) ensures k in KeysOf(b) {
      var i :| 0 <= i < |a| && a[i].key == k;
      assert a[i] in multiset(b);
    }
    forall k | k in KeysOf(b) ensures k in KeysOf(a) {
      var i :| 0 <= i < |b| && b[i].key == k;
      assert b[i] in multiset(a);
    }
  }

  // ---------------------------------------------------------------- the round trip

  /** Null values without bytes, and no zero byte in keys and values. */
  ghost predicate Printable(items: seq<Item>)
  {
    forall i :: 0 <= i < |items| ==>
      (items[i].isnull ==> items[i].val == []) && 0 !in items[i].key && 0 !in items[i].val
  }

  lemma {:induction false} EscapedNoZero(s: bytes)
    requires 0 !in s
    ensures 0 !in Escaped(s)
    decreases |s|
  {
    if s != [] {
      EscapedNoZero(s[..|s| - 1]);
    }
  }

  lemma {:induction false} PrintNoZero(items: seq<Item>, n: nat)
    requires Printable(items) && n <= |items|
    ensures 0 !in PrintUpTo(items, n)
    decreases n
  {
    hide PrintItem;
    if n > 0 {
      PrintNoZero(items, n - 1);
      ItemNoZero(items[n - 1]);
    }
  }

  lemma ItemNoZero(it: Item)
    requires 0 !in it.key && 0 !in it.val
    ensures 0 !in PrintItem(it)
  {
    hide Quoted;
    QuotedNoZero(it.key);
    QuotedNoZero(it.val);
  }

  lemma QuotedNoZero(s: bytes)
    requires 0 !in s
    ensures 0 !in Quoted(s)
  {
    hide Escaped;
    EscapedNoZero(s);
  }

  /** What is stored after a round trip is what was printed. */
  lemma StoredReread(items: seq<Item>)
    requires Printable(items)
    ensures StoredAll(RereadAll(items)) == items
  {
    var r := StoredAll(RereadAll(items));
    assert forall i :: 0 <= i < |items| ==> r[i] == items[i];
  }

  lemma RereadOrdered(items: seq<Item>)
    requires Ordered(items)
    ensures Ordered(RereadAll(items))
  {
    hide KeyCmp;
    assert forall i :: 0 <= i < |items| ==> RereadAll(items)[i].key == items[i].key;
  }

  /** Keys and values that the printer allots memory for are short enough for the parser. */
  lemma {:induction false} AllottedShort(items: seq<Item>, n: nat)
    requires n <= |items| && Printable(items) && Allotted(items, n) <= MAX_ALLOC
    ensures forall i :: 0 <= i < n ==> ShortItem(items[i])
    decreases n
  {
    if n > 0 {
      AllottedShort(items, n - 1);
    }
  }

  lemma BytesOfAll(h: HStore)
    requires Packed(h)
    ensures |Concat(Items(h))| == |h.str|
  {
    hide Concat, EndPos, IsFirst, IsNull, ItemAt;
    BytesOfItems(h, Count(h));
    assert Items(h)[..Count(h)] == Items(h);
  }

  /** Printing a store and reading the text gives the same store, word for word, exactly when the
      printer can allot its buffer and the parser can grow its own. */
  method RoundTrip(h: HStore) returns (r: Option<HStore>)
    requires ValidStore(h) && Printable(Items(h)) && VarSize(h) <= MAX_ALLOC
    ensures r == if Allotted(Items(h), Count(h)) <= MAX_ALLOC && Count(h) <= PAIRS_MAX then Some(h) else None
  {
    hide Packed, CleanWords, Ordered, Printable, ReadPairs, CString, BytesFor, Encode, StoredAll, RereadAll;
    hide PrintUpTo, Allotted, FromPairs, Concat, OfSorted;
    var text := HstoreOut(h);
    if text.None? {
      return None;
    }
    ghost var items := Items(h);
    PrintNoZero(items, |items|);
    CStringKeeps(text.value);
    AllottedShort(items, |items|);
    BytesOfAll(h);
    PrintedIsRead(items);
    RereadOrdered(items);
    StoredReread(items);
    StoredBytes(RereadAll(items));
    EncodeDecode(h);
    r := HstoreIn(text.value + [0]);
  }
}
