/** Union and difference of stores by merging their sorted pairs. */
module HstoreMerge {
  import opened Wrappers
  import opened Growth
  import opened HstoreFormat
  import opened HstoreBuilder
  import opened HstoreOps

  // ---------------------------------------------------------------- merging lists of pairs

  /** All pairs of both lists, and for a key in both the pair of the second. */
  function Merge(a: seq<Item>, c: seq<Item>): seq<Item>
    decreases |a| + |c|
  {
    if a == [] && c == [] then []
    else if a == [] then [c[0]] + Merge(a, c[1..])
    else if c == [] then [a[0]] + Merge(a[1..], c)
    else
      var d := KeyCmp(a[0].key, c[0].key);
      if d > 0 then [c[0]] + Merge(a, c[1..])
      else if d == 0 then [c[0]] + Merge(a[1..], c[1..])
      else [a[0]] + Merge(a[1..], c)
  }

  /** Whether a pair with the same key makes the pair `x` go. */
  predicate Drops(x: Item, y: Item, exact: bool) { !exact || ValueOf(x) == ValueOf(y) }

  /** The pairs of `a` without those that `c` drops: those with the same key, or only those with
      the same key and value. */
  function Minus(a: seq<Item>, c: seq<Item>, exact: bool): seq<Item>
    decreases |a| + |c|
  {
    if a == [] then []
    else if c == [] then [a[0]] + Minus(a[1..], c, exact)
    else
      var d := KeyCmp(a[0].key, c[0].key);
      if d > 0 then Minus(a, c[1..], exact)
      else if d == 0 then (if Drops(a[0], c[0], exact) then [] else [a[0]]) + Minus(a[1..], c[1..], exact)
      else [a[0]] + Minus(a[1..], c, exact)
  }

  lemma OrderedTail(s: seq<Item>)
    requires Ordered(s) && s != []
    ensures Ordered(s[1..]) && (|s| > 1 ==> KeyLt(s[0].key, s[1..][0].key))
  {
  }

  lemma OrderedCons(x: Item, s: seq<Item>)
    requires Ordered(s) && (s != [] ==> KeyLt(x.key, s[0].key))
    ensures Ordered([x] + s)
  {
    var t := [x] + s;
    forall i, j | 0 <= i < j < |t| ensures KeyLt(t[i].key, t[j].key) {
      if i == 0 && j > 1 {
        KeyLtTransitive(x.key, s[0].key, s[j - 1].key);
      }
    }
  }

  /** All keys of an ordered list are above `lo`. */
  ghost predicate Above(lo: bytes, s: seq<Item>) { s != [] ==> KeyLt(lo, s[0].key) }

  lemma AboveTail(lo: bytes, s: seq<Item>)
    requires Ordered(s) && Above(lo, s) && s != []
    ensures Above(lo, s[1..])
  {
    if |s| > 1 {
      KeyLtTransitive(lo, s[0].key, s[1].key);
    }
  }

  lemma {:induction false} MergeAbove(a: seq<Item>, c: seq<Item>, lo: bytes)
    requires Above(lo, a) && Above(lo, c)
    ensures Above(lo, Merge(a, c))
  {
  }

  lemma {:induction false} MergeOrdered(a: seq<Item>, c: seq<Item>)
    requires Ordered(a) && Ordered(c)
    ensures Ordered(Merge(a, c))
    decreases |a| + |c|
  {
    hide Ordered, KeyCmp, Merge;
    MergeCases(a, c);
    if a == [] && c == [] {
      NothingOrdered(Merge(a, c));
    } else if c == [] || (a != [] && KeyLt(a[0].key, c[0].key)) {
      OrderedTail(a);
      MergeOrdered(a[1..], c);
      MergeAbove(a[1..], c, a[0].key);
      OrderedCons(a[0], Merge(a[1..], c));
    } else {
      OrderedTail(c);
      if a != [] {
        OrderedTail(a);
        KeyCmpFacts(a[0].key, c[0].key);
      }
      var rest := if a != [] && a[0].key == c[0].key then a[1..] else a;
      MergeOrdered(rest, c[1..]);
      MergeAbove(rest, c[1..], c[0].key);
      OrderedCons(c[0], Merge(rest, c[1..]));
    }
  }

  lemma NothingOrdered(s: seq<Item>)
    requires s == []
    ensures Ordered(s)
  {
  }

  /** The step of a merge. */
  lemma MergeCases(a: seq<Item>, c: seq<Item>)
    ensures a == [] && c == [] ==> Merge(a, c) == []
    ensures a != [] && (c == [] || KeyLt(a[0].key, c[0].key)) ==> Merge(a, c) == [a[0]] + Merge(a[1..], c)
    ensures c != [] && (a == [] || !KeyLt(a[0].key, c[0].key)) ==>
              Merge(a, c) == [c[0]] + Merge(if a != [] && a[0].key == c[0].key then a[1..] else a, c[1..])
  {
    if a != [] && c != [] {
      KeyCmpFacts(a[0].key, c[0].key);
    }
  }

  lemma LookupCons(x: Item, s: seq<Item>, k: bytes)
    ensures Lookup([x] + s, k) == if x.key == k then Some(ValueOf(x)) else Lookup(s, k)
  {
    assert ([x] + s)[1..] == s;
  }

  lemma LookupHead(s: seq<Item>, k: bytes)
    requires s != []
    ensures Lookup(s, k) == if s[0].key == k then Some(ValueOf(s[0])) else Lookup(s[1..], k)
  {
  }

  /** A merge looks a key up in the second list, then in the first. */
  lemma {:induction false} MergeLookup(a: seq<Item>, c: seq<Item>, k: bytes)
    requires Ordered(a) && Ordered(c)
    ensures Lookup(Merge(a, c), k) == if Lookup(c, k).Some? then Lookup(c, k) else Lookup(a, k)
    decreases |a| + |c|
  {
    hide Ordered, KeyCmp, Merge, Lookup;
    MergeCases(a, c);
    if a == [] && c == [] {
      NoLookup(a, k);
    } else if c == [] || (a != [] && KeyLt(a[0].key, c[0].key)) {
      OrderedTail(a);
      MergeLookup(a[1..], c, k);
      LookupCons(a[0], Merge(a[1..], c), k);
      LookupHead(a, k);
      LookupBelow(c, a[0].key);
    } else {
      OrderedTail(c);
      LookupHead(c, k);
      var rest := if a != [] && a[0].key == c[0].key then a[1..] else a;
      if a != [] {
        OrderedTail(a);
        LookupHead(a, k);
      }
      MergeLookup(rest, c[1..], k);
      LookupCons(c[0], Merge(rest, c[1..]), k);
    }
  }

  lemma NoLookup(s: seq<Item>, k: bytes)
    requires s == []
    ensures Lookup(s, k) == None
  {
  }

  // ---------------------------------------------------------------- difference of lists

  lemma MinusCases(a: seq<Item>, c: seq<Item>, exact: bool)
    ensures a == [] ==> Minus(a, c, exact) == []
    ensures a != [] && (c == [] || KeyLt(a[0].key, c[0].key)) ==> Minus(a, c, exact) == [a[0]] + Minus(a[1..], c, exact)
    ensures a != [] && c != [] && KeyLt(c[0].key, a[0].key) ==> Minus(a, c, exact) == Minus(a, c[1..], exact)
    ensures a != [] && c != [] && a[0].key == c[0].key ==>
              Minus(a, c, exact) == (if Drops(a[0], c[0], exact) then [] else [a[0]]) + Minus(a[1..], c[1..], exact)
    ensures a != [] && c != [] ==> KeyLt(a[0].key, c[0].key) || KeyLt(c[0].key, a[0].key) || a[0].key == c[0].key
    ensures a != [] && c != [] && (KeyLt(c[0].key, a[0].key) || a[0].key == c[0].key) ==> !KeyLt(a[0].key, c[0].key)
    ensures a != [] && c != [] && a[0].key == c[0].key ==> !KeyLt(c[0].key, a[0].key)
  {
    if a != [] && c != [] {
      KeyCmpFacts(a[0].key, c[0].key);
    }
  }

  lemma {:induction false} MinusAbove(a: seq<Item>, c: seq<Item>, exact: bool, lo: bytes)
    requires Ordered(a) && Above(lo, a)
    ensures Above(lo, Minus(a, c, exact))
    decreases |a| + |c|
  {
    hide Ordered, KeyCmp, Minus;
    MinusCases(a, c, exact);
    if a != [] {
      OrderedTail(a);
      AboveTail(lo, a);
      if c != [] && KeyLt(c[0].key, a[0].key) {
        MinusAbove(a, c[1..], exact, lo);
      } else if c != [] && a[0].key == c[0].key {
        MinusAbove(a[1..], c[1..], exact, lo);
      }
    }
  }

  lemma {:induction false} MinusOrdered(a: seq<Item>, c: seq<Item>, exact: bool)
    requires Ordered(a)
    ensures Ordered(Minus(a, c, exact))
    decreases |a| + |c|
  {
    hide Ordered, KeyCmp, Minus;
    MinusCases(a, c, exact);
    if a == [] {
      NothingOrdered(Minus(a, c, exact));
    } else {
      OrderedTail(a);
      if c == [] || KeyLt(a[0].key, c[0].key) {
        MinusOrdered(a[1..], c, exact);
        MinusAbove(a[1..], c, exact, a[0].key);
        OrderedCons(a[0], Minus(a[1..], c, exact));
      } else if KeyLt(c[0].key, a[0].key) {
        MinusOrdered(a, c[1..], exact);
      } else {
        var rest := Minus(a[1..], c[1..], exact);
        MinusOrdered(a[1..], c[1..], exact);
        MinusAbove(a[1..], c[1..], exact, a[0].key);
        OrderedCons(a[0], rest);
        assert [] + rest == rest;
      }
    }
  }

  /** The difference has the keys of the first list that the second does not drop. */
  lemma {:induction false} MinusLookup(a: seq<Item>, c: seq<Item>, exact: bool, k: bytes)
    requires Ordered(a) && Ordered(c)
    ensures Lookup(Minus(a, c, exact), k) ==
              if Lookup(c, k).Some? && (!exact || Lookup(a, k) == Lookup(c, k)) then None else Lookup(a, k)
    decreases |a| + |c|
  {
    hide Ordered, KeyCmp, Minus, Lookup;
    MinusCases(a, c, exact);
    if a == [] {
      NoLookup(a, k);
    } else {
      OrderedTail(a);
      LookupHead(a, k);
      if c == [] || KeyLt(a[0].key, c[0].key) {
        MinusLookup(a[1..], c, exact, k);
        LookupCons(a[0], Minus(a[1..], c, exact), k);
        LookupBelow(c, a[0].key);
      } else {
        OrderedTail(c);
        LookupHead(c, k);
        if KeyLt(c[0].key, a[0].key) {
          MinusLookup(a, c[1..], exact, k);
          LookupBelow(a, c[0].key);
        } else {
          var rest := Minus(a[1..], c[1..], exact);
          MinusLookup(a[1..], c[1..], exact, k);
          LookupCons(a[0], rest, k);
          LookupBelow(a[1..], a[0].key);
          LookupBelow(c[1..], a[0].key);
          assert [] + rest == rest;
        }
      }
    }
  }

  // ---------------------------------------------------------------- stores

  lemma SourceIs(h: HStore, i: nat)
    requires Packed(h) && i < Count(h)
    ensures var a := Off(h, 2 * i); var klen, vlen := Len(h, 2 * i), Len(h, 2 * i + 1); var it := ItemAt(h, i);
            && 0 <= klen == |it.key| && 0 <= vlen == |it.val| && a + klen + vlen <= |h.str|
            && h.str[a..a + klen + vlen] == it.key + it.val
  {
    PartFits(h, 2 * i);
    PartFits(h, 2 * i + 1);
    var a, klen, vlen := Off(h, 2 * i), Len(h, 2 * i), Len(h, 2 * i + 1);
    assert h.str[a..a + klen + vlen] == h.str[a..a + klen] + h.str[a + klen..a + klen + vlen];
  }

  /** Copies pair `i` of a store, whose key and value lie next to each other. */
  method CopyFrom(b: Builder, h: HStore, i: nat)
    requires Packed(h) && i < Count(h)
    requires b.Valid() && |b.items| < b.count
    requires 8 * b.count + b.pd + |ItemAt(h, i).key| + |ItemAt(h, i).val| <= b.mem.Length
    modifies b, b.mem
    ensures b.Valid() && b.count == old(b.count) && b.items == old(b.items) + [ItemAt(h, i)]
  {
    hide Concat, Word, EndOf, Packed, ItemAt, Off, Len;
    SourceIs(h, i);
    ItemNull(h, i);
    var a, klen, vlen := Off(h, 2 * i), Len(h, 2 * i), Len(h, 2 * i + 1);
    var src := h.str[a..a + klen + vlen];
    ghost var it := ItemAt(h, i);
    assert src[..klen] == it.key && src[klen..] == it.val;
    b.CopyItem(src, klen, vlen, IsNull(h.entries[2 * i + 1]));
  }

  lemma ItemNull(h: HStore, i: nat)
    requires Packed(h) && i < Count(h)
    ensures ItemAt(h, i).isnull == IsNull(h.entries[2 * i + 1]) && 2 * i + 1 < |h.entries|
    ensures IsFirst(h.entries[0])
  {
  }

  /** The bytes of a store are those of its pairs. */
  lemma BytesOfStore(h: HStore, i: nat)
    requires Packed(h) && i < Count(h)
    ensures var items := Items(h);
            |Concat(items[..i])| + |items[i].key| + |items[i].val| == |Concat(items[..i + 1])| <= |h.str|
  {
    hide Concat, Items, Packed;
    ConcatStep(Items(h), i);
    BytesOfItems(h, i + 1);
  }

  lemma EncodeClean(items: seq<Item>)
    ensures CleanWords(Encode(items))
  {
    hide Concat, EndOf, Encode;
    var h := Encode(items);
    forall k | 0 <= k < |h.entries| ensures h.entries[k] < 0x1_0000_0000 && (k % 2 == 0 ==> !IsNull(h.entries[k])) {
      var pos, isnull := EndOf(items, k) % POSITIONS, k % 2 == 1 && items[k / 2].isnull;
      WordIs(Word(items, k), pos, isnull);
    }
  }

  /** A finished store of ordered pairs is valid and has their map. */
  lemma EncodeValid(items: seq<Item>)
    requires Ordered(items) && |Concat(items)| < POSITIONS
    ensures ValidStore(Encode(items)) && ToMap(Encode(items)) == MapOf(items)
  {
    hide Concat, Encode, CleanWords, Packed, Ordered, MapOf, Items;
    DecodeEncode(items);
    EncodeClean(items);
  }

  /** The union of two stores, in which the second wins. Fails when the memory to make room for
      it would be too large. */
  method ConcatStores(s1: HStore, s2: HStore) returns (r: Option<HStore>)
    requires ValidStore(s1) && ValidStore(s2)
    ensures r.Some? <==> VarSize(s1) + VarSize(s2) <= MAX_ALLOC
    ensures r.Some? ==> ValidStore(r.value) && ToMap(r.value) == ToMap(s1) + ToMap(s2)
  {
    hide Concat, Packed, CleanWords, Ordered, MapOf, Merge;
    if VarSize(s1) + VarSize(s2) > MAX_ALLOC {
      return None;
    }
    ghost var a, c := Items(s1), Items(s2);
    MergedMap(a, c);
    if Count(s1) == 0 {
      MergeNothing(a, c);
      return Some(s2);
    }
    if Count(s2) == 0 {
      MergeNothing(a, c);
      return Some(s1);
    }
    var h := MergeStores(s1, s2);
    EncodeValid(Merge(a, c));
    return Some(h);
  }

  /** The state of a merge: what was written and what is still to come make up the result, and
      the bytes written are among those read. */
  ghost predicate Merging(a: seq<Item>, c: seq<Item>, i: nat, j: nat, done: seq<Item>)
  {
    && i <= |a| && j <= |c|
    && done + Merge(a[i..], c[j..]) == Merge(a, c)
    && |done| <= i + j && |Concat(done)| <= |Concat(a[..i])| + |Concat(c[..j])|
  }

  lemma MergingStep(a: seq<Item>, c: seq<Item>, i: nat, j: nat, done: seq<Item>)
    requires Merging(a, c, i, j, done) && (i < |a| || j < |c|)
    ensures i < |a| && (j == |c| || KeyLt(a[i].key, c[j].key)) ==> Merging(a, c, i + 1, j, done + [a[i]])
    ensures j < |c| && (i == |a| || !KeyLt(a[i].key, c[j].key)) ==>
              Merging(a, c, if i < |a| && a[i].key == c[j].key then i + 1 else i, j + 1, done + [c[j]])
  {
    hide Concat, Merge, KeyLt;
    MergeCases(a[i..], c[j..]);
    if i < |a| && (j == |c| || KeyLt(a[i].key, c[j].key)) {
      assert a[i..][1..] == a[i + 1..];
      OneMore(done, a[i], Merge(a[i + 1..], c[j..]));
      ConcatStep(a, i);
    } else {
      assert c[j..][1..] == c[j + 1..];
      var n := if i < |a| && a[i].key == c[j].key then i + 1 else i;
      assert n > i ==> a[i..][1..] == a[n..];
      OneMore(done, c[j], Merge(a[n..], c[j + 1..]));
      ConcatStep(c, j);
      if n > i { ConcatStep(a, i); }
    }
  }

  lemma OneMore(done: seq<Item>, x: Item, rest: seq<Item>)
    ensures done + ([x] + rest) == (done + [x]) + rest
    ensures |Concat(done + [x])| == |Concat(done)| + |x.key| + |x.val|
  {
    assert (done + [x])[..|done|] == done;
  }

  method MergeStores(s1: HStore, s2: HStore) returns (h: HStore)
    requires ValidStore(s1) && ValidStore(s2) && VarSize(s1) + VarSize(s2) <= MAX_ALLOC
    ensures h == Encode(Merge(Items(s1), Items(s2))) && |Concat(Merge(Items(s1), Items(s2)))| < POSITIONS
  {
    hide Concat, Packed, CleanWords, Ordered, Merge, KeyCmp, ItemAt, Encode, Word, EndOf, Merging;
    ghost var a, c := Items(s1), Items(s2);
    var n1, n2 := Count(s1), Count(s2);
    var b := new Builder(n1 + n2, VarSize(s1) + VarSize(s2) - 8);
    MergingStart(a, c);
    var i, j := 0, 0;
    while i < n1 || j < n2
      invariant 0 <= i <= n1 && 0 <= j <= n2
      invariant b.Valid() && fresh(b) && fresh(b.mem) && b.count == n1 + n2 &&
                b.mem.Length == VarSize(s1) + VarSize(s2) - 8
      invariant Merging(a, c, i, j, b.items)
      decreases n1 - i + n2 - j
    {
      MergingStep(a, c, i, j, b.items);
      MergingRoom(s1, s2, i, j, b.items);
      var difference := if i >= n1 then 1 else if j >= n2 then -1 else KeyCmp(ItemAt(s1, i).key, ItemAt(s2, j).key);
      if i < n1 && j < n2 {
        KeyCmpFacts(a[i].key, c[j].key);
      }
      if difference >= 0 {
        CopyFrom(b, s2, j);
        j := j + 1;
        if difference == 0 {
          i := i + 1;
        }
      } else {
        CopyFrom(b, s1, i);
        i := i + 1;
      }
    }
    MergingDone(s1, s2, b.items);
    h := b.Finalize();
  }

  lemma MergingStart(a: seq<Item>, c: seq<Item>)
    ensures Merging(a, c, 0, 0, [])
  {
    assert a[0..] == a && c[0..] == c && [] + Merge(a, c) == Merge(a, c);
  }

  /** There is room for the next pair, whichever it is. */
  lemma MergingRoom(s1: HStore, s2: HStore, i: nat, j: nat, done: seq<Item>)
    requires Packed(s1) && Packed(s2) && Merging(Items(s1), Items(s2), i, j, done) && (i < Count(s1) || j < Count(s2))
    ensures |done| < Count(s1) + Count(s2)
    ensures var room := VarSize(s1) + VarSize(s2) - 8 - 8 * (Count(s1) + Count(s2));
            && (i < Count(s1) ==> |Concat(done)| + |ItemAt(s1, i).key| + |ItemAt(s1, i).val| <= room)
            && (j < Count(s2) ==> |Concat(done)| + |ItemAt(s2, j).key| + |ItemAt(s2, j).val| <= room)
  {
    hide Concat, Merge, ItemAt;
    var a, c := Items(s1), Items(s2);
    BytesOfItems(s1, i);
    BytesOfItems(s2, j);
    if i < Count(s1) { BytesOfStore(s1, i); assert a[i] == ItemAt(s1, i); }
    if j < Count(s2) { BytesOfStore(s2, j); assert c[j] == ItemAt(s2, j); }
    assert 8 * Count(s1) == 4 * |s1.entries| && 8 * Count(s2) == 4 * |s2.entries|;
  }

  lemma MergingDone(s1: HStore, s2: HStore, done: seq<Item>)
    requires Packed(s1) && Packed(s2) && VarSize(s1) + VarSize(s2) <= MAX_ALLOC
    requires Merging(Items(s1), Items(s2), Count(s1), Count(s2), done)
    ensures done == Merge(Items(s1), Items(s2)) && |Concat(done)| < POSITIONS
  {
    hide Concat, Items, Packed;
    var a, c := Items(s1), Items(s2);
    assert a[|a|..] == [] && c[|c|..] == [];
    assert done + [] == done;
    BytesOfItems(s1, |a|);
    BytesOfItems(s2, |c|);
  }

  lemma {:induction false} MergeNothing(a: seq<Item>, c: seq<Item>)
    ensures a == [] ==> Merge(a, c) == c
    ensures c == [] ==> Merge(a, c) == a
    decreases |a| + |c|
  {
    if a == [] && c != [] {
      MergeNothing(a, c[1..]);
    } else if c == [] && a != [] {
      MergeNothing(a[1..], c);
    }
  }

  lemma MergedMap(a: seq<Item>, c: seq<Item>)
    requires Ordered(a) && Ordered(c)
    ensures Ordered(Merge(a, c)) && MapOf(Merge(a, c)) == MapOf(a) + MapOf(c)
  {
    hide Ordered, Merge, MapOf, Lookup;
    MergeOrdered(a, c);
    var m, n := MapOf(Merge(a, c)), MapOf(a) + MapOf(c);
    forall k ensures k in m <==> k in n {
      MergeLookup(a, c, k);
      MapOfAt(a, k);
      MapOfAt(c, k);
      MapOfAt(Merge(a, c), k);
    }
    forall k | k in m ensures m[k] == n[k] {
      MergeLookup(a, c, k);
      MapOfAt(a, k);
      MapOfAt(c, k);
      MapOfAt(Merge(a, c), k);
    }
  }
}
