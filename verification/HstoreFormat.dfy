/** The stored form of an hstore: two words for each pair, which give the ends of its key and
    its value in one string of bytes. */
module HstoreFormat {
  import opened ByteOrder

  type bytes = seq<byte>

  /** A pair as stored. The value of a null has no meaning and is usually empty. */
  datatype Item = Item(key: bytes, val: bytes, isnull: bool)

  const ISFIRST: nat := 0x8000_0000
  const ISNULL: nat := 0x4000_0000
  /** One more than the largest position. */
  const POSITIONS: nat := 0x4000_0000

  function EndPos(w: nat): nat { w % POSITIONS }
  predicate IsNull(w: nat) { w / ISNULL % 2 == 1 }
  predicate IsFirst(w: nat) { w / ISFIRST % 2 == 1 }

  /** The words and the bytes of a store. */
  datatype HStore = HStore(entries: seq<nat>, str: bytes)

  function Count(h: HStore): nat { |h.entries| / 2 }

  /** Bytes that the store takes, its header of 8 bytes included. */
  function VarSize(h: HStore): nat { 8 + 4 * |h.entries| + |h.str| }

  function Off(h: HStore, i: nat): nat
    requires i < |h.entries| && (i == 0 ==> IsFirst(h.entries[i]))
  {
    if IsFirst(h.entries[i]) then 0 else EndPos(h.entries[i - 1])
  }

  function Len(h: HStore, i: nat): int
    requires i < |h.entries| && (i == 0 ==> IsFirst(h.entries[i]))
  {
    if IsFirst(h.entries[i]) then EndPos(h.entries[i]) else EndPos(h.entries[i]) - EndPos(h.entries[i - 1])
  }

  /** Positions follow each other without gaps or overlaps, up to the end of the string. */
  ghost predicate Packed(h: HStore)
  {
    && |h.entries| % 2 == 0
    && (forall i :: 0 <= i < |h.entries| ==> (IsFirst(h.entries[i]) <==> i == 0))
    && (forall i, j :: 0 <= i < j < |h.entries| ==> EndPos(h.entries[i]) <= EndPos(h.entries[j]))
    && |h.str| == if h.entries == [] then 0 else EndPos(h.entries[|h.entries| - 1])
  }

  /** The bytes of entry `i`. */
  function Part(h: HStore, i: nat): bytes
    requires i < |h.entries| && (i == 0 ==> IsFirst(h.entries[i])) && 0 <= Len(h, i) && Off(h, i) + Len(h, i) <= |h.str|
  {
    h.str[Off(h, i)..Off(h, i) + Len(h, i)]
  }

  lemma PartFits(h: HStore, i: nat)
    requires Packed(h) && i < |h.entries|
    ensures 0 <= Len(h, i) && Off(h, i) + Len(h, i) == EndPos(h.entries[i]) <= |h.str|
  {
    var last := |h.entries| - 1;
    assert i < last ==> EndPos(h.entries[i]) <= EndPos(h.entries[last]);
    assert i > 0 ==> EndPos(h.entries[i - 1]) <= EndPos(h.entries[i]);
  }

  function ItemAt(h: HStore, i: nat): Item
    requires Packed(h) && i < Count(h)
  {
    PartFits(h, 2 * i);
    PartFits(h, 2 * i + 1);
    Item(Part(h, 2 * i), Part(h, 2 * i + 1), IsNull(h.entries[2 * i + 1]))
  }

  function Items(h: HStore): (s: seq<Item>)
    requires Packed(h)
    ensures |s| == Count(h)
    ensures forall i :: 0 <= i < |s| ==> s[i] == ItemAt(h, i)
  {
    seq(Count(h), i requires 0 <= i < Count(h) => ItemAt(h, i))
  }

  // ---------------------------------------------------------------- encoding

  /** The bytes of the pairs, one after the other. */
  function Concat(items: seq<Item>): bytes
  {
    if items == [] then []
    else Concat(items[..|items| - 1]) + items[|items| - 1].key + items[|items| - 1].val
  }

  /** Where the bytes of entry `k` end. */
  function EndOf(items: seq<Item>, k: nat): nat
    requires k < 2 * |items|
  {
    |Concat(items[..k / 2])| + |items[k / 2].key| + if k % 2 == 0 then 0 else |items[k / 2].val|
  }

  /** The word of entry `k`, without the mark of the first entry. */
  function Word(items: seq<Item>, k: nat): nat
    requires k < 2 * |items|
  {
    EndOf(items, k) % POSITIONS + if k % 2 == 1 && items[k / 2].isnull then ISNULL else 0
  }

  function MarkFirst(w: nat): nat { if IsFirst(w) then w else w + ISFIRST }

  function Encode(items: seq<Item>): (h: HStore)
    ensures |h.entries| == 2 * |items| && h.str == Concat(items)
    ensures forall k :: 0 <= k < 2 * |items| ==>
              h.entries[k] == if k == 0 then MarkFirst(Word(items, k)) else Word(items, k)
  {
    HStore(seq(2 * |items|, k requires 0 <= k < 2 * |items| =>
                 if k == 0 then MarkFirst(Word(items, k)) else Word(items, k)), Concat(items))
  }

  lemma WordIs(w: nat, pos: nat, isnull: bool)
    requires pos < POSITIONS && w == pos + if isnull then ISNULL else 0
    ensures EndPos(w) == pos && IsNull(w) == isnull && !IsFirst(w)
    ensures EndPos(MarkFirst(w)) == pos && IsNull(MarkFirst(w)) == isnull && IsFirst(MarkFirst(w))
  {
  }

  lemma {:induction false} ConcatPrefix(items: seq<Item>, i: nat)
    requires i <= |items|
    ensures Concat(items[..i]) <= Concat(items)
    decreases |items| - i
  {
    if i < |items| {
      ConcatPrefix(items, i + 1);
      assert items[..i + 1][..i] == items[..i];
      assert Concat(items[..i + 1]) == Concat(items[..i]) + items[i].key + items[i].val;
    } else {
      assert items[..i] == items;
    }
  }

  /** The bytes of item `i` lie between the bytes of its neighbours. */
  lemma ConcatAt(items: seq<Item>, i: nat)
    requires i < |items|
    ensures var a := |Concat(items[..i])|; var b := a + |items[i].key|; var c := b + |items[i].val|;
            && c <= |Concat(items)| && |Concat(items[..i + 1])| == c
            && Concat(items)[a..b] == items[i].key && Concat(items)[b..c] == items[i].val
  {
    hide Concat;
    ConcatPrefix(items, i + 1);
    ConcatStep(items, i);
    var before, now, all := Concat(items[..i]), Concat(items[..i + 1]), Concat(items);
    var a := |before|;
    var b := a + |items[i].key|;
    assert now == before + items[i].key + items[i].val;
    assert all[..|now|] == now;
    assert all[a..b] == now[a..b] == items[i].key;
    assert all[b..|now|] == now[b..] == items[i].val;
  }

  lemma ConcatStep(items: seq<Item>, i: nat)
    requires i < |items|
    ensures Concat(items[..i + 1]) == Concat(items[..i]) + items[i].key + items[i].val
  {
    assert items[..i + 1][..i] == items[..i];
  }

  /** Positions of the encoding, entry by entry. */
  lemma EntryIs(items: seq<Item>, k: nat)
    requires k < 2 * |items| && |Concat(items)| < POSITIONS
    ensures var h := Encode(items);
            && EndPos(h.entries[k]) == EndOf(items, k) <= |h.str|
            && (IsFirst(h.entries[k]) <==> k == 0)
            && (k % 2 == 1 ==> (IsNull(h.entries[k]) <==> items[k / 2].isnull))
            && (k > 0 ==> EndOf(items, k) >= EndOf(items, k - 1))
            && (k > 0 && k % 2 == 0 ==> EndOf(items, k - 1) == |Concat(items[..k / 2])|)
  {
    hide Concat, EndPos, IsFirst, IsNull, MarkFirst, Encode;
    ConcatAt(items, k / 2);
    var pos := EndOf(items, k);
    var isnull := k % 2 == 1 && items[k / 2].isnull;
    assert pos % POSITIONS == pos;
    WordIs(Word(items, k), pos, isnull);
    if k > 0 {
      ConcatAt(items, (k - 1) / 2);
    }
  }

  lemma {:induction false} EndsRise(items: seq<Item>, i: nat, j: nat)
    requires i <= j < 2 * |items| && |Concat(items)| < POSITIONS
    ensures EndOf(items, i) <= EndOf(items, j)
    decreases j - i
  {
    hide EndOf, Encode;
    if i < j {
      EndsRise(items, i, j - 1);
      EntryIs(items, j);
    }
  }

  lemma EncodePacked(items: seq<Item>)
    requires |Concat(items)| < POSITIONS
    ensures Packed(Encode(items))
  {
    hide Concat, EndPos, IsFirst, EndOf, Encode;
    var h := Encode(items);
    forall i | 0 <= i < |h.entries| ensures IsFirst(h.entries[i]) <==> i == 0 { EntryIs(items, i); }
    forall i, j | 0 <= i < j < |h.entries| ensures EndPos(h.entries[i]) <= EndPos(h.entries[j]) {
      EntryIs(items, i);
      EntryIs(items, j);
      EndsRise(items, i, j);
    }
    if items != [] {
      var last := |h.entries| - 1;
      EntryIs(items, last);
      LastEnd(items);
    } else {
      EmptyConcat(items);
    }
  }

  lemma EmptyConcat(items: seq<Item>)
    requires items == []
    ensures Concat(items) == []
  {
  }

  lemma LastEnd(items: seq<Item>)
    requires items != []
    ensures EndOf(items, 2 * |items| - 1) == |Concat(items)|
  {
    var n := |items| - 1;
    assert (2 * |items| - 1) / 2 == n && (2 * |items| - 1) % 2 == 1;
  }

  lemma KeyOfEncoding(items: seq<Item>, i: nat)
    requires i < |items| && |Concat(items)| < POSITIONS && Packed(Encode(items))
    ensures var h := Encode(items);
            && 0 <= Len(h, 2 * i) && Off(h, 2 * i) + Len(h, 2 * i) <= |h.str|
            && Part(h, 2 * i) == items[i].key
  {
    hide Concat, EndPos, IsFirst, IsNull, Encode, Packed;
    var h := Encode(items);
    EntryIs(items, 2 * i);
    if i > 0 {
      EntryIs(items, 2 * i - 1);
    } else {
      EmptyConcat(items[..i]);
    }
    ConcatAt(items, i);
    PartFits(h, 2 * i);
    assert Off(h, 2 * i) == |Concat(items[..i])|;
  }

  lemma ValOfEncoding(items: seq<Item>, i: nat)
    requires i < |items| && |Concat(items)| < POSITIONS && Packed(Encode(items))
    ensures var h := Encode(items); var k := 2 * i + 1;
            && 0 <= Len(h, k) && Off(h, k) + Len(h, k) <= |h.str| && Part(h, k) == items[i].val
            && (IsNull(h.entries[k]) <==> items[i].isnull)
  {
    hide Concat, EndPos, IsFirst, IsNull, Encode, Packed;
    var h := Encode(items);
    EntryIs(items, 2 * i);
    EntryIs(items, 2 * i + 1);
    ConcatAt(items, i);
    PartFits(h, 2 * i + 1);
    assert Off(h, 2 * i + 1) == EndOf(items, 2 * i);
  }

  lemma ItemOfEncoding(items: seq<Item>, i: nat)
    requires i < |items| && |Concat(items)| < POSITIONS && Packed(Encode(items))
    ensures ItemAt(Encode(items), i) == items[i]
  {
    hide Concat, Encode, Packed, Part, Off, Len, IsNull;
    KeyOfEncoding(items, i);
    ValOfEncoding(items, i);
  }

  /** Reading back an encoding gives the pairs. */
  lemma DecodeEncode(items: seq<Item>)
    requires |Concat(items)| < POSITIONS
    ensures Packed(Encode(items)) && Items(Encode(items)) == items
  {
    hide Encode, ItemAt, Packed;
    EncodePacked(items);
    var s := Items(Encode(items));
    forall i | 0 <= i < |items| ensures s[i] == items[i] { ItemOfEncoding(items, i); }
  }

  /** Words of 32 bits, with the mark of a null on values only. */
  ghost predicate CleanWords(h: HStore)
  {
    forall k :: 0 <= k < |h.entries| ==> h.entries[k] < 0x1_0000_0000 && (k % 2 == 0 ==> !IsNull(h.entries[k]))
  }

  lemma WordParts(w: nat)
    requires w < 0x1_0000_0000
    ensures var v := EndPos(w) + if IsNull(w) then ISNULL else 0;
            w == (if IsFirst(w) then MarkFirst(v) else v)
  {
    var q := w / ISNULL;
    assert w == q * ISNULL + w % POSITIONS && 0 <= q < 4;
    assert q == 0 || q == 1 || q == 2 || q == 3;
  }

  /** The first pairs take the first bytes. */
  lemma {:induction false} BytesOfItems(h: HStore, i: nat)
    requires Packed(h) && i <= Count(h)
    ensures |Concat(Items(h)[..i])| <= |h.str| && Concat(Items(h)[..i]) == h.str[..|Concat(Items(h)[..i])|]
    ensures |Concat(Items(h)[..i])| == if i == 0 then 0 else EndPos(h.entries[2 * i - 1])
    decreases i
  {
    hide Concat, EndPos, IsFirst, IsNull, Items;
    if i == 0 {
      EmptyConcat(Items(h)[..i]);
    } else {
      var items, n := Items(h), i - 1;
      BytesOfItems(h, n);
      ConcatStep(items, n);
      assert items[n] == ItemAt(h, n);
      PartFits(h, 2 * n);
      PartFits(h, 2 * n + 1);
      var a, b, c := Off(h, 2 * n), Off(h, 2 * n + 1), EndPos(h.entries[2 * n + 1]);
      assert h.str[..a] + h.str[a..b] + h.str[b..c] == h.str[..c];
    }
  }

  lemma WordOfItems(h: HStore, k: nat)
    requires Packed(h) && CleanWords(h) && k < |h.entries|
    ensures EndOf(Items(h), k) == EndPos(h.entries[k])
    ensures h.entries[k] == if k == 0 then MarkFirst(Word(Items(h), k)) else Word(Items(h), k)
  {
    hide Concat, EndPos, IsFirst, IsNull, Items, MarkFirst;
    var i := k / 2;
    BytesOfItems(h, i);
    assert Items(h)[i] == ItemAt(h, i);
    PartFits(h, 2 * i);
    PartFits(h, 2 * i + 1);
    WordParts(h.entries[k]);
    EndPosBelow(h.entries[k]);
  }

  lemma EndPosBelow(w: nat)
    ensures EndPos(w) < POSITIONS && EndPos(w) % POSITIONS == EndPos(w)
  {
  }

  /** Encoding the pairs of a store gives the store again, word for word. */
  lemma EncodeDecode(h: HStore)
    requires Packed(h) && CleanWords(h)
    ensures Encode(Items(h)) == h
  {
    hide Concat, EndPos, IsFirst, IsNull, Items, MarkFirst, Word;
    var items, n := Items(h), Count(h);
    BytesOfItems(h, n);
    assert items[..n] == items;
    if n == 0 {
      EmptyConcat(items);
    }
    var g := Encode(items);
    assert g.str == h.str;
    forall k | 0 <= k < |h.entries| ensures g.entries[k] == h.entries[k] { WordOfItems(h, k); }
  }
}
