/** The order of keys, search and inclusion, and what they mean for the maps that the stores
    represent. */
module HstoreOps {
  import opened Wrappers
  import opened ByteOrder
  import opened HstoreFormat

  // ---------------------------------------------------------------- keys in order

  /** Shorter keys come first; keys of the same length are in the order of their bytes. */
  function KeyCmp(a: bytes, b: bytes): int
  {
    if |a| == |b| then Cmp(a, b) else if |a| > |b| then 1 else -1
  }

  predicate KeyLt(a: bytes, b: bytes) { KeyCmp(a, b) < 0 }

  lemma KeyCmpFacts(a: bytes, b: bytes)
    ensures KeyCmp(a, b) == -KeyCmp(b, a) && (KeyCmp(a, b) == 0 <==> a == b)
  {
    CmpFacts(a, b);
  }

  /** Shorter keys come first; among keys of one length the first byte that differs decides. */
  lemma KeyLtMeans(a: bytes, b: bytes)
    ensures KeyLt(a, b) <==> |a| < |b| || (|a| == |b| && exists i: nat :: SmallerAt(a, b, i))
  {
    LtMeans(a, b);
  }

  lemma KeyLtTransitive(a: bytes, b: bytes, c: bytes)
    requires KeyLt(a, b) && KeyLt(b, c)
    ensures KeyLt(a, c)
  {
    if |a| == |b| == |c| {
      LeTransitive(a, b, c);
    }
  }

  ghost predicate Ordered(items: seq<Item>)
  {
    forall i, j :: 0 <= i < j < |items| ==> KeyLt(items[i].key, items[j].key)
  }

  /** A store as every operation leaves it. */
  ghost predicate ValidStore(h: HStore)
  {
    Packed(h) && CleanWords(h) && Ordered(Items(h))
  }

  // ---------------------------------------------------------------- maps

  function ValueOf(it: Item): Option<bytes> { if it.isnull then None else Some(it.val) }

  /** The value of a key in a list of pairs, if it is there. */
  function Lookup(items: seq<Item>, k: bytes): Option<Option<bytes>>
  {
    if items == [] then None
    else if items[0].key == k then Some(ValueOf(items[0]))
    else Lookup(items[1..], k)
  }

  ghost function KeysOf(items: seq<Item>): set<bytes> { set i | 0 <= i < |items| :: items[i].key }

  lemma {:induction false} LookupKeys(items: seq<Item>, k: bytes)
    ensures Lookup(items, k).Some? <==> k in KeysOf(items)
    decreases |items|
  {
    if items != [] {
      LookupKeys(items[1..], k);
      assert forall i :: 0 < i < |items| ==> items[i] == items[1..][i - 1];
    }
  }

  /** The map that a list of pairs represents; a null value is None. */
  ghost function MapOf(items: seq<Item>): map<bytes, Option<bytes>>
  {
    map k | k in KeysOf(items) && Lookup(items, k).Some? :: Lookup(items, k).value
  }

  ghost function ToMap(h: HStore): map<bytes, Option<bytes>>
    requires Packed(h)
  {
    MapOf(Items(h))
  }

  lemma MapOfAt(items: seq<Item>, k: bytes)
    ensures k in MapOf(items) <==> Lookup(items, k).Some?
    ensures k in MapOf(items) ==> MapOf(items)[k] == Lookup(items, k).value
  {
    LookupKeys(items, k);
  }

  /** In an ordered list the pair at `i` is the one that a lookup of its key finds. */
  lemma {:induction false} LookupAt(items: seq<Item>, i: nat)
    requires Ordered(items) && i < |items|
    ensures Lookup(items, items[i].key) == Some(ValueOf(items[i]))
    decreases i
  {
    if i > 0 {
      KeyCmpFacts(items[0].key, items[i].key);
      LookupAt(items[1..], i - 1);
    }
  }

  /** Keys below all keys of an ordered list are not in it. */
  lemma {:induction false} LookupBelow(items: seq<Item>, k: bytes)
    requires Ordered(items) && (items != [] ==> KeyLt(k, items[0].key))
    ensures Lookup(items, k) == None
    decreases |items|
  {
    if items != [] {
      KeyCmpFacts(k, items[0].key);
      if |items| > 1 {
        KeyLtTransitive(k, items[0].key, items[1].key);
      }
      LookupBelow(items[1..], k);
    }
  }

  // ---------------------------------------------------------------- search

  /** Where a key is, or -1. The bound that comes in must have only smaller keys below it; the
      bound that goes out has only keys up to the one searched below it. */
  method FindKey(h: HStore, lowbound: nat, key: bytes) returns (idx: int, low: nat)
    requires ValidStore(h) && lowbound <= Count(h)
    requires forall i :: 0 <= i < lowbound ==> KeyLt(Items(h)[i].key, key)
    ensures -1 <= idx < Count(h) && low <= Count(h)
    ensures idx >= 0 ==> Items(h)[idx].key == key
    ensures idx < 0 ==> forall i :: 0 <= i < Count(h) ==> Items(h)[i].key != key
    ensures forall i :: 0 <= i < low ==> KeyCmp(Items(h)[i].key, key) <= 0
  {
    hide Packed, CleanWords, ItemAt, KeyCmp;
    ghost var items := Items(h);
    var stopLow, stopHigh := lowbound, Count(h);
    while stopLow < stopHigh
      invariant 0 <= stopLow <= stopHigh <= Count(h)
      invariant forall i :: 0 <= i < stopLow ==> KeyLt(items[i].key, key)
      invariant forall i :: stopHigh <= i < Count(h) ==> KeyLt(key, items[i].key)
    {
      var stopMiddle := stopLow + (stopHigh - stopLow) / 2;
      var k := ItemAt(h, stopMiddle).key;
      var difference := KeyCmp(k, key);
      KeyCmpFacts(k, key);
      assert items[stopMiddle].key == k;
      if difference == 0 {
        BelowMiddle(items, stopMiddle, key);
        return stopMiddle, stopMiddle + 1;
      } else if difference < 0 {
        MiddleBelow(items, stopMiddle, key);
        stopLow := stopMiddle + 1;
      } else {
        MiddleAbove(items, stopMiddle, key);
        stopHigh := stopMiddle;
      }
    }
    NotThere(items, stopLow, key);
    return -1, stopLow;
  }

  lemma BelowMiddle(items: seq<Item>, m: nat, key: bytes)
    requires Ordered(items) && m < |items| && items[m].key == key
    ensures forall i :: 0 <= i <= m ==> KeyCmp(items[i].key, key) <= 0
  {
    KeyCmpFacts(key, key);
  }

  lemma MiddleBelow(items: seq<Item>, m: nat, key: bytes)
    requires Ordered(items) && m < |items| && KeyLt(items[m].key, key)
    ensures forall i :: 0 <= i <= m ==> KeyLt(items[i].key, key)
  {
    forall i | 0 <= i < m ensures KeyLt(items[i].key, key) {
      KeyLtTransitive(items[i].key, items[m].key, key);
    }
  }

  lemma MiddleAbove(items: seq<Item>, m: nat, key: bytes)
    requires Ordered(items) && m < |items| && KeyLt(key, items[m].key)
    ensures forall i :: m <= i < |items| ==> KeyLt(key, items[i].key)
  {
    forall i | m < i < |items| ensures KeyLt(key, items[i].key) {
      KeyLtTransitive(key, items[m].key, items[i].key);
    }
  }

  lemma NotThere(items: seq<Item>, m: nat, key: bytes)
    requires m <= |items|
    requires forall i :: 0 <= i < m ==> KeyLt(items[i].key, key)
    requires forall i :: m <= i < |items| ==> KeyLt(key, items[i].key)
    ensures forall i :: 0 <= i < |items| ==> items[i].key != key
  {
    KeyCmpFacts(key, key);
  }

  // ---------------------------------------------------------------- inclusion

  /** Every key of `a` is a key of `b` with the same value. */
  ghost predicate SubMap(a: map<bytes, Option<bytes>>, b: map<bytes, Option<bytes>>)
  {
    forall k :: k in a ==> k in b && b[k] == a[k]
  }

  /** Whether every pair of `tmpl` is a pair of `val`. The searches share one bound. */
  method Contains(val: HStore, tmpl: HStore) returns (res: bool)
    requires ValidStore(val) && ValidStore(tmpl)
    ensures res <==> SubMap(ToMap(tmpl), ToMap(val))
  {
    hide Packed, CleanWords, ItemAt, KeyCmp, Ordered, MapOf;
    ghost var vs, ts := Items(val), Items(tmpl);
    res := true;
    var lastidx, i := 0, 0;
    while res && i < Count(tmpl)
      invariant 0 <= i <= Count(tmpl) && 0 <= lastidx <= Count(val)
      invariant res && i < Count(tmpl) ==> forall j :: 0 <= j < lastidx ==> KeyLt(vs[j].key, ts[i].key)
      invariant res ==> forall t :: 0 <= t < i ==> Lookup(vs, ts[t].key) == Some(ValueOf(ts[t]))
      invariant !res ==> !AllIn(vs, ts)
      decreases Count(tmpl) - i
    {
      var it := ItemAt(tmpl, i);
      assert ts[i] == it;
      var idx;
      idx, lastidx := FindKey(val, lastidx, it.key);
      if idx >= 0 {
        var found := ItemAt(val, idx);
        assert vs[idx] == found;
        LookupAt(vs, idx);
        if it.isnull != found.isnull || (!it.isnull && (|it.val| != |found.val| || Cmp(it.val, found.val) != 0)) {
          res := false;
        }
        CmpFacts(it.val, found.val);
      } else {
        LookupMissing(vs, it.key);
        res := false;
      }
      if i + 1 < Count(tmpl) {
        BoundCarries(vs, ts, lastidx, i);
      }
      i := i + 1;
    }
    assert res <==> AllIn(vs, ts);
    Included(vs, ts);
  }

  lemma LookupMissing(items: seq<Item>, key: bytes)
    requires forall i :: 0 <= i < |items| ==> items[i].key != key
    ensures Lookup(items, key) == None
  {
    LookupKeys(items, key);
  }

  /** What is not above one key is below the next. */
  lemma BoundCarries(vs: seq<Item>, ts: seq<Item>, low: nat, i: nat)
    requires Ordered(ts) && i + 1 < |ts| && low <= |vs|
    requires forall j :: 0 <= j < low ==> KeyCmp(vs[j].key, ts[i].key) <= 0
    ensures forall j :: 0 <= j < low ==> KeyLt(vs[j].key, ts[i + 1].key)
  {
    forall j | 0 <= j < low ensures KeyLt(vs[j].key, ts[i + 1].key) {
      KeyCmpFacts(vs[j].key, ts[i].key);
      if KeyLt(vs[j].key, ts[i].key) {
        KeyLtTransitive(vs[j].key, ts[i].key, ts[i + 1].key);
      }
    }
  }

  ghost predicate AllIn(vs: seq<Item>, ts: seq<Item>)
  {
    forall t :: 0 <= t < |ts| ==> Lookup(vs, ts[t].key) == Some(ValueOf(ts[t]))
  }

  lemma Included(vs: seq<Item>, ts: seq<Item>)
    requires Ordered(ts)
    ensures AllIn(vs, ts) <==> SubMap(MapOf(ts), MapOf(vs))
  {
    hide MapOf, Ordered, Lookup;
    if AllIn(vs, ts) {
      forall k | k in MapOf(ts) ensures k in MapOf(vs) && MapOf(vs)[k] == MapOf(ts)[k] {
        MapOfAt(ts, k);
        MapOfAt(vs, k);
        LookupKeys(ts, k);
        var t :| 0 <= t < |ts| && ts[t].key == k;
        LookupAt(ts, t);
      }
    }
    if SubMap(MapOf(ts), MapOf(vs)) {
      forall t | 0 <= t < |ts| ensures Lookup(vs, ts[t].key) == Some(ValueOf(ts[t])) {
        LookupAt(ts, t);
        MapOfAt(ts, ts[t].key);
        MapOfAt(vs, ts[t].key);
      }
    }
  }

  /** Whether all keys are there; the keys are sorted and without duplicates. */
  method ExistsAll(h: HStore, keys: seq<bytes>) returns (res: bool)
    requires ValidStore(h) && forall i, j :: 0 <= i < j < |keys| ==> KeyLt(keys[i], keys[j])
    ensures res <==> forall i :: 0 <= i < |keys| ==> keys[i] in ToMap(h)
  {
    hide Packed, CleanWords, ItemAt, KeyCmp, Ordered, MapOf;
    ghost var items := Items(h);
    var lowbound, i := 0, 0;
    while i < |keys|
      invariant 0 <= i <= |keys| && 0 <= lowbound <= Count(h)
      invariant i < |keys| ==> forall j :: 0 <= j < lowbound ==> KeyLt(items[j].key, keys[i])
      invariant forall t :: 0 <= t < i ==> keys[t] in ToMap(h)
    {
      var idx;
      idx, lowbound := FindKey(h, lowbound, keys[i]);
      MapOfAt(items, keys[i]);
      if idx < 0 {
        LookupMissing(items, keys[i]);
        return false;
      }
      LookupAt(items, idx);
      if i + 1 < |keys| {
        KeyBoundCarries(items, keys, lowbound, i);
      }
      i := i + 1;
    }
    return true;
  }

  lemma KeyBoundCarries(vs: seq<Item>, keys: seq<bytes>, low: nat, i: nat)
    requires i + 1 < |keys| && KeyLt(keys[i], keys[i + 1]) && low <= |vs|
    requires forall j :: 0 <= j < low ==> KeyCmp(vs[j].key, keys[i]) <= 0
    ensures forall j :: 0 <= j < low ==> KeyLt(vs[j].key, keys[i + 1])
  {
    forall j | 0 <= j < low ensures KeyLt(vs[j].key, keys[i + 1]) {
      KeyCmpFacts(vs[j].key, keys[i]);
      if KeyLt(vs[j].key, keys[i]) {
        KeyLtTransitive(vs[j].key, keys[i], keys[i + 1]);
      }
    }
  }
}
