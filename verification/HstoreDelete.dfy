/** Removal of pairs and of keys from a store. */
module HstoreDelete {
  import opened Wrappers
  import opened ByteOrder
  import opened HstoreFormat
  import opened HstoreBuilder
  import opened HstoreOps
  import opened HstoreMerge

  /** The state of a removal: what was written and what is still to come make up the result, and
      the bytes written are among those read. */
  ghost predicate Removing(a: seq<Item>, c: seq<Item>, exact: bool, i: nat, j: nat, done: seq<Item>)
  {
    && i <= |a| && j <= |c|
    && done + Minus(a[i..], c[j..], exact) == Minus(a, c, exact)
    && |done| <= i && |Concat(done)| <= |Concat(a[..i])|
  }

  lemma RemovingStart(a: seq<Item>, c: seq<Item>, exact: bool)
    ensures Removing(a, c, exact, 0, 0, [])
  {
    assert a[0..] == a && c[0..] == c && [] + Minus(a, c, exact) == Minus(a, c, exact);
  }

  /** The next pair stays. */
  lemma RemovingKeeps(a: seq<Item>, c: seq<Item>, exact: bool, i: nat, j: nat, done: seq<Item>)
    requires Removing(a, c, exact, i, j, done) && i < |a|
    ensures j == |c| || KeyLt(a[i].key, c[j].key) ==> Removing(a, c, exact, i + 1, j, done + [a[i]])
    ensures j < |c| && a[i].key == c[j].key && !Drops(a[i], c[j], exact) ==>
              Removing(a, c, exact, i + 1, j + 1, done + [a[i]])
  {
    hide Concat, Minus, KeyLt, Drops;
    MinusCases(a[i..], c[j..], exact);
    assert a[i..][1..] == a[i + 1..];
    assert j < |c| ==> c[j..][1..] == c[j + 1..];
    OneMore(done, a[i], Minus(a[i + 1..], c[j..], exact));
    if j < |c| {
      OneMore(done, a[i], Minus(a[i + 1..], c[j + 1..], exact));
    }
    ConcatStep(a, i);
  }

  /** The next pair goes, or the next one to remove is not there. */
  lemma RemovingDrops(a: seq<Item>, c: seq<Item>, exact: bool, i: nat, j: nat, done: seq<Item>)
    requires Removing(a, c, exact, i, j, done) && i < |a| && j < |c|
    ensures KeyLt(c[j].key, a[i].key) ==> Removing(a, c, exact, i, j + 1, done)
    ensures a[i].key == c[j].key && Drops(a[i], c[j], exact) ==> Removing(a, c, exact, i + 1, j + 1, done)
  {
    hide Concat, Minus, KeyLt, Drops;
    MinusCases(a[i..], c[j..], exact);
    assert a[i..][1..] == a[i + 1..] && c[j..][1..] == c[j + 1..];
    var rest := Minus(a[i + 1..], c[j + 1..], exact);
    assert [] + rest == rest;
    ConcatStep(a, i);
  }

  lemma RemovingRoom(h: HStore, c: seq<Item>, exact: bool, i: nat, j: nat, done: seq<Item>)
    requires Packed(h) && Removing(Items(h), c, exact, i, j, done) && i < Count(h)
    ensures |done| < Count(h)
    ensures 8 * Count(h) + |Concat(done)| + |ItemAt(h, i).key| + |ItemAt(h, i).val| <= VarSize(h) - 8
  {
    hide Concat, Minus, ItemAt;
    BytesOfStore(h, i);
    assert Items(h)[i] == ItemAt(h, i);
    assert 8 * Count(h) == 4 * |h.entries|;
  }

  lemma RemovingDone(h: HStore, c: seq<Item>, exact: bool, j: nat, done: seq<Item>)
    requires ValidStore(h) && Ordered(c) && Removing(Items(h), c, exact, Count(h), j, done)
    ensures done == Minus(Items(h), c, exact)
    ensures ValidStore(Encode(done)) && ToMap(Encode(done)) == MapOf(done)
  {
    hide Concat, Items, Encode, Ordered, CleanWords, MapOf;
    var a := Items(h);
    assert a[|a|..] == [];
    assert done + [] == done;
    assert a[..|a|] == a;
    BytesOfItems(h, |a|);
    assert |h.str| < POSITIONS;
    MinusOrdered(a, c, exact);
    EncodeValid(done);
  }

  lemma {:induction false} MinusNothing(a: seq<Item>, exact: bool)
    ensures Minus(a, [], exact) == a
    decreases |a|
  {
    if a != [] {
      MinusNothing(a[1..], exact);
    }
  }

  // ---------------------------------------------------------------- pairs of another store

  /** `m` without the pairs of `n`. */
  ghost function WithoutPairs(m: map<bytes, Option<bytes>>, n: map<bytes, Option<bytes>>): map<bytes, Option<bytes>>
  {
    map k | k in m && !(k in n && n[k] == m[k]) :: m[k]
  }

  lemma MinusPairs(a: seq<Item>, c: seq<Item>)
    requires Ordered(a) && Ordered(c)
    ensures MapOf(Minus(a, c, true)) == WithoutPairs(MapOf(a), MapOf(c))
  {
    hide Ordered, Minus, MapOf, Lookup;
    var m, n := MapOf(Minus(a, c, true)), WithoutPairs(MapOf(a), MapOf(c));
    forall k ensures (k in m <==> k in n) && (k in m ==> m[k] == n[k]) {
      MinusLookup(a, c, true, k);
      MapOfAt(a, k);
      MapOfAt(c, k);
      MapOfAt(Minus(a, c, true), k);
    }
  }

  /** Removes the pairs that are also in the second store, key and value alike. */
  method DeleteStore(hs: HStore, hs2: HStore) returns (h: HStore)
    requires ValidStore(hs) && ValidStore(hs2)
    ensures ValidStore(h) && ToMap(h) == WithoutPairs(ToMap(hs), ToMap(hs2))
  {
    hide Concat, Packed, CleanWords, Ordered, Minus, KeyCmp, ItemAt, Encode, Word, EndOf, Removing, MapOf, WithoutPairs;
    ghost var a, c := Items(hs), Items(hs2);
    MinusPairs(a, c);
    if Count(hs2) == 0 {
      MinusNothing(a, true);
      assert c == [];
      return hs;
    }
    var b := new Builder(Count(hs), VarSize(hs) - 8);
    RemovingStart(a, c, true);
    var i, j := 0, 0;
    while i < Count(hs)
      invariant 0 <= i <= Count(hs) && 0 <= j <= Count(hs2)
      invariant b.Valid() && fresh(b) && fresh(b.mem) && b.count == Count(hs) && b.mem.Length == VarSize(hs) - 8
      invariant Removing(a, c, true, i, j, b.items)
      decreases Count(hs) - i, Count(hs2) - j
    {
      RemovingKeeps(a, c, true, i, j, b.items);
      RemovingRoom(hs, c, true, i, j, b.items);
      var difference := -1;
      if j < Count(hs2) {
        RemovingDrops(a, c, true, i, j, b.items);
        difference := KeyCmp(ItemAt(hs, i).key, ItemAt(hs2, j).key);
        KeyCmpFacts(a[i].key, c[j].key);
      }
      if difference > 0 {
        j := j + 1;
      } else if difference == 0 {
        var x, y := ItemAt(hs, i), ItemAt(hs2, j);
        CmpFacts(x.val, y.val);
        if x.isnull != y.isnull || (!x.isnull && (|x.val| != |y.val| || Cmp(x.val, y.val) != 0)) {
          CopyFrom(b, hs, i);
        }
        i, j := i + 1, j + 1;
      } else {
        CopyFrom(b, hs, i);
        i := i + 1;
      }
    }
    RemovingDone(hs, c, true, j, b.items);
    h := b.Finalize();
  }

  // ---------------------------------------------------------------- keys

  /** Keys as pairs without values. */
  function KeyItems(keys: seq<bytes>): (s: seq<Item>)
    ensures |s| == |keys| && forall i :: 0 <= i < |s| ==> s[i] == Item(keys[i], [], true)
  {
    seq(|keys|, i requires 0 <= i < |keys| => Item(keys[i], [], true))
  }

  lemma MinusKeys(a: seq<Item>, keys: seq<bytes>)
    requires Ordered(a) && Ordered(KeyItems(keys))
    ensures MapOf(Minus(a, KeyItems(keys), false)) == MapOf(a) - (set k | k in keys)
  {
    hide Ordered, Minus, MapOf, Lookup, KeyItems;
    var c := KeyItems(keys);
    var m, n := MapOf(Minus(a, c, false)), MapOf(a) - (set k | k in keys);
    forall k ensures (k in m <==> k in n) && (k in m ==> m[k] == n[k]) {
      MinusLookup(a, c, false, k);
      MapOfAt(a, k);
      MapOfAt(Minus(a, c, false), k);
      LookupKeys(c, k);
      assert k in KeysOf(c) <==> k in keys by {
        if k in keys {
          var i :| 0 <= i < |keys| && keys[i] == k;
          assert c[i].key == k;
        }
      }
    }
  }

  /** Removes keys; they are sorted and without duplicates. */
  method DeleteArray(hs: HStore, keys: seq<bytes>) returns (h: HStore)
    requires ValidStore(hs) && forall i, j :: 0 <= i < j < |keys| ==> KeyLt(keys[i], keys[j])
    ensures ValidStore(h) && ToMap(h) == ToMap(hs) - (set k | k in keys)
  {
    ghost var a, c := Items(hs), KeyItems(keys);
    assert Ordered(c);
    hide Concat, Packed, CleanWords, Ordered, Minus, KeyCmp, ItemAt, Encode, Word, EndOf, Removing, MapOf;
    MinusKeys(a, keys);
    if |keys| == 0 {
      MinusNothing(a, false);
      assert c == [];
      return hs;
    }
    var b := new Builder(Count(hs), VarSize(hs) - 8);
    RemovingStart(a, c, false);
    var i, j := 0, 0;
    while i < Count(hs)
      invariant 0 <= i <= Count(hs) && 0 <= j <= |keys|
      invariant b.Valid() && fresh(b) && fresh(b.mem) && b.count == Count(hs) && b.mem.Length == VarSize(hs) - 8
      invariant Removing(a, c, false, i, j, b.items)
      decreases Count(hs) - i, |keys| - j
    {
      RemovingKeeps(a, c, false, i, j, b.items);
      RemovingRoom(hs, c, false, i, j, b.items);
      var difference := -1;
      if j < |keys| {
        RemovingDrops(a, c, false, i, j, b.items);
        difference := KeyCmp(ItemAt(hs, i).key, keys[j]);
        KeyCmpFacts(a[i].key, c[j].key);
      }
      if difference > 0 {
        j := j + 1;
      } else if difference == 0 {
        i, j := i + 1, j + 1;
      } else {
        CopyFrom(b, hs, i);
        i := i + 1;
      }
    }
    RemovingDone(hs, c, false, j, b.items);
    h := b.Finalize();
  }
}
