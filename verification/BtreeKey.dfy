/** Keys of a version 4 B-tree index: comparison as the index does it, and the total
    order it stands for, in which a truncated attribute or a missing heap TID is minus
    infinity. */
module BtreeKey {
  import opened Wrappers

  /** An attribute value: its place in the order of the operator class (NULL and
      descending columns included), and its bytes. */
  datatype Datum = Datum(rank: int, image: int)

  /** An index tuple. `link` is the block number in its item pointer: a downlink, or the
      top parent kept in the high key of a half-dead page. */
  datatype Tuple = Tuple(atts: seq<Datum>, tid: Option<int>, pivot: bool, link: nat)

  // ---------------------------------------------------------------- comparison

  /** Sign of the comparison of the attributes present in both. */
  function CompareAtts(key: seq<Datum>, item: seq<Datum>): (c: int)
    ensures -1 <= c <= 1
    decreases |key|
  {
    if key == [] || item == [] then 0
    else if key[0].rank < item[0].rank then -1
    else if key[0].rank > item[0].rank then 1
    else CompareAtts(key[1..], item[1..])
  }

  /** _bt_compare of the scan key of tuple `key`, made for a pivot search, with an item
      that is not a page's negative infinity item. */
  function Compare(key: Tuple, item: Tuple): (c: int)
    ensures -1 <= c <= 1
  {
    var c := CompareAtts(key.atts, item.atts);
    if c != 0 then c
    else if |key.atts| > |item.atts| then 1
    else if key.tid.None? then 0
    else if item.tid.None? then 1
    else if key.tid.value < item.tid.value then -1
    else if key.tid.value > item.tid.value then 1
    else 0
  }

  // ---------------------------------------------------------------- the order

  /** Field `i` of a key of `n` attributes; field `n` is the heap TID. */
  function Field(t: Tuple, n: nat, i: nat): Option<int>
  {
    if i < n then
      if i < |t.atts| then Some(t.atts[i].rank) else None
    else t.tid
  }

  predicate FieldLess(x: Option<int>, y: Option<int>)
  {
    y.Some? && (x.Some? ==> x.value < y.value)
  }

  /** Lexicographic order of the fields from `i` on. */
  predicate LessFrom(a: Tuple, b: Tuple, n: nat, i: nat)
    requires i <= n
    decreases n - i
  {
    || FieldLess(Field(a, n, i), Field(b, n, i))
    || (Field(a, n, i) == Field(b, n, i) && i < n && LessFrom(a, b, n, i + 1))
  }

  predicate Less(a: Tuple, b: Tuple, n: nat)
  {
    LessFrom(a, b, n, 0)
  }

  predicate AtMost(a: Tuple, b: Tuple, n: nat)
  {
    !Less(b, a, n)
  }

  lemma {:induction false} LessTransitive(a: Tuple, b: Tuple, c: Tuple, n: nat, i: nat)
    requires i <= n
    ensures LessFrom(a, b, n, i) && LessFrom(b, c, n, i) ==> LessFrom(a, c, n, i)
    ensures LessFrom(a, b, n, i) && !LessFrom(c, b, n, i) ==> LessFrom(a, c, n, i)
    ensures !LessFrom(b, a, n, i) && LessFrom(b, c, n, i) ==> LessFrom(a, c, n, i)
    ensures !LessFrom(b, a, n, i) && !LessFrom(c, b, n, i) ==> !LessFrom(c, a, n, i)
    ensures !(LessFrom(a, b, n, i) && LessFrom(b, a, n, i))
    decreases n - i
  {
    if i < n {
      LessTransitive(a, b, c, n, i + 1);
    }
  }

  lemma AtMostThenLess(a: Tuple, b: Tuple, c: Tuple, n: nat)
    requires AtMost(a, b, n) && Less(b, c, n)
    ensures AtMost(a, c, n)
  {
    LessTransitive(a, b, c, n, 0);
    LessTransitive(a, c, a, n, 0);
  }

  // ------------------------------------------------- comparison agrees with the order

  /** A tuple has a heap TID only with all its attributes. */
  predicate Regular(t: Tuple, n: nat)
  {
    |t.atts| <= n && (t.tid.Some? ==> |t.atts| == n)
  }

  lemma {:induction false} CompareAttsFields(a: Tuple, b: Tuple, n: nat, i: nat)
    requires Regular(a, n) && Regular(b, n) && i <= |a.atts| && i <= |b.atts|
    ensures
      var c := CompareAtts(a.atts[i..], b.atts[i..]);
      && (c < 0 ==> LessFrom(a, b, n, i) && !LessFrom(b, a, n, i))
      && (c > 0 ==> LessFrom(b, a, n, i) && !LessFrom(a, b, n, i))
      && (c == 0 ==>
            && (LessFrom(a, b, n, i) <==> |a.atts| < |b.atts| || (|a.atts| == |b.atts| && FieldLess(a.tid, b.tid)))
            && (LessFrom(b, a, n, i) <==> |b.atts| < |a.atts| || (|a.atts| == |b.atts| && FieldLess(b.tid, a.tid))))
    decreases n - i
  {
    if i < |a.atts| && i < |b.atts| {
      assert a.atts[i..][1..] == a.atts[i + 1..] && b.atts[i..][1..] == b.atts[i + 1..];
      if a.atts[i].rank == b.atts[i].rank {
        CompareAttsFields(a, b, n, i + 1);
      }
    } else if i < n && i == |a.atts| == |b.atts| {
      NothingLeft(a, b, n, i);
      NothingLeft(b, a, n, i);
    }
  }

  lemma {:induction false} NothingLeft(a: Tuple, b: Tuple, n: nat, i: nat)
    requires |a.atts| <= i <= n && |b.atts| <= i && (i < n ==> a.tid.None? && b.tid.None?)
    ensures i < n ==> !LessFrom(a, b, n, i)
    ensures i == n ==> (LessFrom(a, b, n, i) <==> FieldLess(a.tid, b.tid))
    decreases n - i
  {
    if i + 1 < n {
      NothingLeft(a, b, n, i + 1);
    }
  }

  /** A scan key is greater than an item in the comparison exactly when it is in the
      order; the comparison calls equal what agrees on the fields of the scan key. */
  lemma CompareIsOrder(key: Tuple, item: Tuple, n: nat)
    requires Regular(key, n) && Regular(item, n)
    ensures Compare(key, item) > 0 <==> Less(item, key, n)
    ensures Compare(key, item) < 0 ==> Less(key, item, n)
    ensures Compare(key, item) == 0 ==>
      (Less(key, item, n) <==>
       |key.atts| < |item.atts| || (|key.atts| == |item.atts| && key.tid.None? && item.tid.Some?))
  {
    CompareAttsFields(key, item, n, 0);
    assert key.atts[0..] == key.atts && item.atts[0..] == item.atts;
  }
}
