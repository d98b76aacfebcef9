/** Stores that are printed and cannot be read back: they have more pairs than the parser has room
    for. */
module HstoreLimit {
  import opened Wrappers
  import opened Growth
  import opened ByteOrder
  import opened HstoreFormat
  import opened HstoreOps
  import opened HstoreMerge
  import opened HstoreText
  import opened HstorePrint
  import opened HstoreInput
  import opened HstoreRoundTrip

  function Power(w: nat): nat { if w == 0 then 1 else 255 * Power(w - 1) }

  /** The number `i` in `w` digits, none of which is the zero byte. */
  function Digits(i: nat, w: nat): (s: bytes)
    ensures |s| == w && 0 !in s
  {
    if w == 0 then [] else Digits(i / 255, w - 1) + [i % 255 + 1]
  }

  lemma {:induction false} CmpSnoc(a: bytes, b: bytes, x: byte, y: byte)
    requires |a| == |b|
    ensures Cmp(a + [x], b + [y]) == if a == b then (if x < y then -1 else if x > y then 1 else 0) else Cmp(a, b)
    decreases |a|
  {
    if a == [] {
      assert a + [x] == [x] && b + [y] == [y] && [x][1..] == [] && [y][1..] == [];
    } else {
      CmpSnoc(a[1..], b[1..], x, y);
      assert (a + [x])[1..] == a[1..] + [x] && (b + [y])[1..] == b[1..] + [y];
      assert a == [a[0]] + a[1..] && b == [b[0]] + b[1..];
    }
  }

  lemma {:induction false} DigitsInOrder(i: nat, j: nat, w: nat)
    requires i < j < Power(w)
    ensures Cmp(Digits(i, w), Digits(j, w)) < 0
    decreases w
  {
    hide Cmp;
    if w > 0 {
      var a, b := Digits(i / 255, w - 1), Digits(j / 255, w - 1);
      CmpSnoc(a, b, i % 255 + 1, j % 255 + 1);
      CmpFacts(a, b);
      if i / 255 < j / 255 {
        DigitsInOrder(i / 255, j / 255, w - 1);
      }
    }
  }

  /** Null values under the numbers below `n`. */
  ghost function Numbered(n: nat): (items: seq<Item>)
    ensures |items| == n && forall i :: 0 <= i < n ==> items[i] == Item(Digits(i, 4), [], true)
  {
    seq(n, i requires 0 <= i < n => Item(Digits(i, 4), [], true))
  }

  lemma NumberedOrdered(n: nat)
    requires n <= 0x1000_0000
    ensures Ordered(Numbered(n)) && Printable(Numbered(n))
  {
    hide Digits, Cmp;
    var items := Numbered(n);
    assert Power(1) == 255 && Power(2) == 65025 && Power(3) == 16581375 && Power(4) == 255 * Power(3);
    forall i, j | 0 <= i < j < n ensures KeyLt(items[i].key, items[j].key) {
      DigitsInOrder(i, j, 4);
    }
  }

  lemma {:induction false} NumberedBytes(items: seq<Item>, n: nat)
    requires n <= |items|
    requires forall i :: 0 <= i < |items| ==> |items[i].key| == 4 && items[i].val == [] && items[i].isnull
    ensures |Concat(items[..n])| == 4 * n && Allotted(items, n) == 18 * n
    decreases n
  {
    if n == 0 {
      assert items[..n] == [];
    } else {
      NumberedBytes(items, n - 1);
      assert items[..n][..n - 1] == items[..n - 1];
    }
  }

  /** Every number of pairs that the parser has no room for, up to what the printer allots memory
      for, is reached by valid stores: they are printed, and their text is refused. */
  lemma TooManyPairs(n: nat)
    requires n > PAIRS_MAX && 18 * n <= MAX_ALLOC
    ensures var h := Encode(Numbered(n));
            && ValidStore(h) && Printable(Items(h)) && Count(h) == n
            && VarSize(h) <= MAX_ALLOC && Allotted(Items(h), Count(h)) <= MAX_ALLOC
            && ReadPairs(Print(Items(h)), WKey, [], []) == None
  {
    hide Digits, Concat, Encode, Ordered, Printable, CleanWords, Packed, Allotted, Print, ReadPairs, ShortItem;
    var items := Numbered(n);
    var h := Encode(items);
    NumberedOrdered(n);
    NumberedBytes(items, n);
    assert items[..n] == items;
    EncodeValid(items);
    DecodeEncode(items);
    AllottedShort(items, n);
    PrintedIsRead(items);
  }
}
