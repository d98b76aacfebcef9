/** Values as the old and the new code wrote them, and what the upgrade makes of them. */
module HstoreOld {
  import opened Wrappers
  import opened Growth
  import opened HstoreFormat
  import opened HstoreOps
  import opened HstoreUpgrade

  // ---------------------------------------------------------------- the old encoding

  /** Sorted pairs that the old form has room for. `left` are lengths that nulls were stored with. */
  ghost predicate OldFits(items: seq<Item>, left: seq<nat>) { Ordered(items) && OldRoom(items, left) }

  ghost predicate OldRoom(items: seq<Item>, left: seq<nat>)
  {
    && |left| == |items|
    && forall i :: 0 <= i < |items| ==>
         && |items[i].key| < 0x1_0000 && |items[i].val| < 0x1_0000 && left[i] < 0x1_0000
         && (items[i].isnull ==> items[i].val == [])
  }

  /** Keys do not get shorter. */
  ghost predicate KeysLengthen(items: seq<Item>)
  {
    forall i :: 1 <= i < |items| ==> |items[i - 1].key| <= |items[i].key|
  }

  lemma OrderedLengthen(items: seq<Item>)
    requires Ordered(items)
    ensures KeysLengthen(items)
  {
    forall i | 1 <= i < |items| ensures |items[i - 1].key| <= |items[i].key| {
      assert KeyLt(items[i - 1].key, items[i].key);
    }
  }

  /** The words of pair `i`: the lengths of key and value, then where the pair begins, twice that
      number, and one more for a null. */
  function Lengths(items: seq<Item>, left: seq<nat>, i: nat): nat
    requires i < |items| == |left|
  {
    |items[i].key| + 65536 * if items[i].isnull then left[i] else |items[i].val|
  }

  function Position(items: seq<Item>, i: nat): nat
    requires i < |items|
  {
    2 * |Concat(items[..i])| + if items[i].isnull then 1 else 0
  }

  function OldWord(items: seq<Item>, left: seq<nat>, k: nat): nat
    requires k < 2 * |items| && |left| == |items|
  {
    if k % 2 == 0 then Lengths(items, left, k / 2) else Position(items, k / 2)
  }

  function OldWords(items: seq<Item>, left: seq<nat>): (ws: seq<nat>)
    requires |items| == |left|
    ensures |ws| == 2 * |items|
    ensures forall i :: 0 <= i < |items| ==>
              ws[2 * i] == Lengths(items, left, i) && ws[2 * i + 1] == Position(items, i)
  {
    seq(2 * |items|, k requires 0 <= k < 2 * |items| => OldWord(items, left, k))
  }

  lemma LengthsSplit(items: seq<Item>, left: seq<nat>, i: nat)
    requires OldRoom(items, left) && i < |items|
    ensures var ws := OldWords(items, left);
            && KeyLen(ws[2 * i]) == |items[i].key|
            && ValLen(ws[2 * i]) == (if items[i].isnull then left[i] else |items[i].val|)
            && (OldNull(ws[2 * i + 1]) <==> items[i].isnull) && OldPos(ws[2 * i + 1]) == |Concat(items[..i])|
            && OldLen(ws, i) == |items[i].key| + |items[i].val|
  {
    hide Concat, OldWords, Ordered;
    var ws := OldWords(items, left);
    assert ws[2 * i] == Lengths(items, left, i) && ws[2 * i + 1] == Position(items, i);
    SplitWord(|items[i].key|, if items[i].isnull then left[i] else |items[i].val|);
  }

  lemma SplitWord(a: nat, b: nat)
    requires a < 0x1_0000
    ensures (a + 65536 * b) % 0x1_0000 == a && (a + 65536 * b) / 0x1_0000 == b
  {
  }

  lemma {:induction false} OldBegins(items: seq<Item>, left: seq<nat>, i: nat)
    requires OldRoom(items, left) && i <= |items|
    ensures Begins(OldWords(items, left), i) == |Concat(items[..i])|
    decreases i
  {
    hide Concat, OldWords, OldLen, Ordered;
    if i == 0 {
      EmptyConcat(items[..i]);
      FirstBegins(OldWords(items, left));
    } else {
      OldBegins(items, left, i - 1);
      LengthsSplit(items, left, i - 1);
      StepBegins(OldWords(items, left), i - 1);
      ConcatStep(items, i - 1);
    }
  }

  /** What the old code wrote is valid in the old form, and says what it was written from. */
  lemma OldIsValid(items: seq<Item>, left: seq<nat>, pad: bytes, varsize: nat)
    requires KeysLengthen(items) && OldRoom(items, left) && 8 + 8 * |items| + |Concat(items)| + |pad| == varsize
    ensures var ws := OldWords(items, left);
            && ValidOld(ws, varsize) && Begins(ws, |ws| / 2) == |Concat(items)|
            && OldItems(ws, Concat(items) + pad) == items
  {
    hide Concat, OldWords, Begins, OldItems, KeyLen, OldPos, OldLen, OldNull, OldItem;
    var ws := OldWords(items, left);
    OldBegins(items, left, |items|);
    assert items[..|items|] == items;
    forall i | 1 <= i < |ws| / 2 ensures OldKeysRise(ws, i) {
      LengthsSplit(items, left, i - 1);
      LengthsSplit(items, left, i);
    }
    forall i | 0 <= i < |ws| / 2 ensures InPlace(ws, i) {
      LengthsSplit(items, left, i);
      OldBegins(items, left, i);
    }
    var was := OldItems(ws, Concat(items) + pad);
    forall i | 0 <= i < |items| ensures was[i] == items[i] {
      OldItemIs(items, left, pad, i);
    }
  }

  lemma OldItemIs(items: seq<Item>, left: seq<nat>, pad: bytes, i: nat)
    requires OldRoom(items, left) && i < |items|
    ensures var ws, str := OldWords(items, left), Concat(items) + pad;
            && Begins(ws, i) + OldLen(ws, i) <= |str| && OldItem(ws, str, i) == items[i]
  {
    hide Concat, OldWords, Begins, KeyLen, OldLen, OldNull, OldPos, ValLen, Ordered;
    LengthsSplit(items, left, i);
    OldBegins(items, left, i);
    ConcatAt(items, i);
    var str, a := Concat(items) + pad, |Concat(items[..i])|;
    var b := a + |items[i].key|;
    var c := b + |items[i].val|;
    assert str[a..b] == Concat(items)[a..b] && str[b..c] == Concat(items)[b..c];
  }

  /** The value is short and its first pair is a null with a length of 32768 or more. */
  predicate LooksNew(items: seq<Item>, left: seq<nat>, varsize: nat)
    requires |left| == |items|
  {
    varsize < 32768 && items != [] && items[0].isnull && left[0] >= 0x8000
  }

  lemma OldReading(items: seq<Item>, left: seq<nat>, pad: bytes, varsize: nat)
    requires OldFits(items, left) && 8 + 8 * |items| + |Concat(items)| + |pad| == varsize <= MAX_ALLOC
    requires items != []
    ensures Reading(|items|, OldWords(items, left), varsize) ==
            if LooksNew(items, left, varsize) then AsNew else AsOld
  {
    hide Concat, OldWords, Begins, OldItems, ValidOld, ValidNew, KeyLen, ValLen, OldNull, OldPos, Ordered;
    OrderedLengthen(items);
    OldIsValid(items, left, pad, varsize);
    LengthsSplit(items, left, 0);
    var ws := OldWords(items, left);
    assert ws[2 * 0] == Lengths(items, left, 0);
    OldIsTakenAsOld(|items|, ws, varsize);
    FirstBit(ws[0]);
  }

  /** The store that a value holds, when its length agrees with its memory. */
  method StoreIn(v: Value) returns (h: Option<HStore>)
    ensures 8 + 4 * v.words.Length <= v.varsize <= 8 + 4 * v.words.Length + |v.str| ==>
              h == Some(HStore(v.words[..], v.str[..v.varsize - 8 - 4 * v.words.Length]))
    ensures h.Some? ==> h.value.entries == v.words[..]
  {
    if 8 + 4 * v.words.Length <= v.varsize <= 8 + 4 * v.words.Length + |v.str| {
      return Some(HStore(v.words[..], v.str[..v.varsize - 8 - 4 * v.words.Length]));
    }
    return None;
  }

  lemma OldConverted(items: seq<Item>, left: seq<nat>, pad: bytes, varsize: nat)
    requires OldFits(items, left) && 8 + 8 * |items| + |Concat(items)| + |pad| == varsize
    ensures var ws := OldWords(items, left);
            && Begins(ws, |ws| / 2) == |Concat(items)|
            && HStore(ConvertedWords(ws), (Concat(items) + pad)[..|Concat(items)|]) == Encode(items)
  {
    hide Concat, OldWords, Begins, OldItems, ConvertedWords, ValidOld, Encode, Ordered;
    OrderedLengthen(items);
    OldIsValid(items, left, pad, varsize);
    ConvertedIsEncoding(OldWords(items, left), Concat(items) + pad, varsize);
  }

  /** The value that the old code wrote. */
  method OldValue(items: seq<Item>, left: seq<nat>, str: bytes, varsize: nat) returns (v: Value)
    requires OldFits(items, left) && 8 + 8 * |items| + |str| == varsize <= MAX_ALLOC
    ensures fresh(v) && fresh(v.words) && v.size == |items| && v.str == str && v.varsize == varsize
    ensures v.words[..] == OldWords(items, left) && v.InMemory() && v.Fits()
  {
    hide OldWords, Ordered;
    var ws := OldWords(items, left);
    var words := new nat[|ws|](k requires 0 <= k < |ws| => ws[k]);
    assert words[..] == ws;
    v := new Value(|items|, words, str, varsize);
  }

  /** What the value holds after the upgrade. */
  ghost predicate Upgraded(items: seq<Item>, left: seq<nat>, words: seq<nat>, varsize: nat, size: nat)
    requires |left| == |items|
  {
    var ws := OldWords(items, left);
    if items == [] || LooksNew(items, left, varsize) then words == ws && (items == [] ==> size == 8)
    else words == ConvertedWords(ws) && size == 8 + 4 * |ws| + Begins(ws, |ws| / 2)
  }

  method RunUpgrade(v: Value, items: seq<Item>, left: seq<nat>, ghost pad: bytes)
    requires OldFits(items, left) && v.str == Concat(items) + pad && v.varsize == 8 + 8 * |items| + |v.str| <= MAX_ALLOC
    requires v.words[..] == OldWords(items, left) && v.size == |items| && v.InMemory() && v.Fits()
    modifies v, v.words
    ensures |left| == |items| && Upgraded(items, left, v.words[..], old(v.varsize), v.varsize)
  {
    hide Concat, OldWords, Begins, ConvertedWords, OldFits, LooksNew, EndPos, IsFirst, Reading;
    LooksNewMeans(items, left, v.varsize);
    OldIsRead(items, left, pad, v.varsize);
    var ok := v.Upgrade();
  }

  lemma StoreAfter(items: seq<Item>, left: seq<nat>, pad: bytes, words: seq<nat>, varsize: nat,
                   size: nat, h: Option<HStore>)
    requires OldFits(items, left) && 8 + 8 * |items| + |Concat(items)| + |pad| == varsize <= MAX_ALLOC
    requires |left| == |items| && Upgraded(items, left, words, varsize, size) && |words| == 2 * |items|
    requires 8 + 4 * |words| <= size <= varsize ==>
               h == Some(HStore(words, (Concat(items) + pad)[..size - 8 - 4 * |words|]))
    requires h.Some? ==> h.value.entries == words
    ensures h == Some(Encode(items)) <==> !LooksNew(items, left, varsize)
  {
    hide Concat, OldWords, Begins, ConvertedWords, Encode, OldFits, LooksNew;
    LooksNewMeans(items, left, varsize);
    if LooksNew(items, left, varsize) {
      FirstNullMarked(items, left);
    } else if items == [] {
      NothingEncoded(items);
      assert (Concat(items) + pad)[..0] == [];
    } else {
      OldConverted(items, left, pad, varsize);
    }
  }

  /** The upgrade turns the value that the old code wrote for sorted pairs into the encoding of the
      same pairs, unless it looks new. */
  method UpgradeOld(items: seq<Item>, left: seq<nat>, pad: bytes) returns (h: Option<HStore>)
    requires OldFits(items, left) && 8 + 8 * |items| + |Concat(items)| + |pad| <= MAX_ALLOC
    ensures h == Some(Encode(items)) <==> !LooksNew(items, left, 8 + 8 * |items| + |Concat(items)| + |pad|)
  {
    hide Concat, OldWords, Encode, OldFits, LooksNew, Upgraded;
    var str := Concat(items) + pad;
    var varsize := 8 + 8 * |items| + |str|;
    var v := OldValue(items, left, str, varsize);
    RunUpgrade(v, items, left, pad);
    h := StoreIn(v);
    StoreAfter(items, left, pad, v.words[..], varsize, v.varsize, h);
  }

  lemma LooksNewMeans(items: seq<Item>, left: seq<nat>, varsize: nat)
    requires OldFits(items, left)
    ensures |left| == |items| && (LooksNew(items, left, varsize) ==> items != [] && items[0].isnull)
  {
    hide Ordered;
  }

  lemma OldIsRead(items: seq<Item>, left: seq<nat>, pad: bytes, varsize: nat)
    requires OldFits(items, left) && 8 + 8 * |items| + |Concat(items)| + |pad| == varsize <= MAX_ALLOC
    ensures Reading(|items|, OldWords(items, left), varsize) ==
            if items == [] || LooksNew(items, left, varsize) then AsNew else AsOld
  {
    hide Concat, OldWords, Ordered;
    if items != [] {
      OldReading(items, left, pad, varsize);
    }
  }

  lemma NothingEncoded(items: seq<Item>)
    requires items == []
    ensures Encode(items) == HStore([], [])
  {
    EmptyConcat(items);
  }

  /** A null in the first pair is marked in the new words, and not in the old ones. */
  lemma FirstNullMarked(items: seq<Item>, left: seq<nat>)
    requires OldFits(items, left) && items != [] && items[0].isnull && |Concat(items)| < POSITIONS
    ensures Encode(items).entries != OldWords(items, left)
  {
    hide Concat, Encode, IsFirst, EndPos, Ordered;
    EntryIs(items, 1);
    var ws := OldWords(items, left);
    EmptyConcat(items[..0]);
    assert ws[2 * 0 + 1] == Position(items, 0) == 1;
  }

  // ---------------------------------------------------------------- the new encoding

  /** What the new code writes for sorted pairs is valid in the new form, with or without the mark. */
  lemma NewIsValid(items: seq<Item>, varsize: nat, size: nat)
    requires KeysLengthen(items) && |Concat(items)| < POSITIONS && 8 + 8 * |items| + |Concat(items)| <= varsize
    ensures ValidNew(size, Encode(items).entries, varsize)
  {
    hide Concat, EndPos, IsFirst, IsNull, EndOf, Encode;
    var ws := Encode(items).entries;
    if items != [] {
      EntryIs(items, 0);
      EntryIs(items, |ws| - 1);
      LastEnd(items);
      forall j | 1 <= j < |ws| ensures !IsFirst(ws[j]) && EndPos(ws[j - 1]) <= EndPos(ws[j]) {
        EntryIs(items, j - 1);
        EntryIs(items, j);
      }
      forall j | 1 <= j < |ws| / 2 ensures KeysRise(ws, j) && !IsNull(ws[2 * j]) {
        NewKeysRise(items, j);
        KeyNotNull(items, j);
      }
    }
  }

  lemma KeyLengthIs(items: seq<Item>, j: nat)
    requires |Concat(items)| < POSITIONS && j < |items|
    ensures var ws := Encode(items).entries;
            |items[j].key| == EndPos(ws[2 * j]) - if j == 0 then 0 else EndPos(ws[2 * j - 1])
  {
    hide Concat, EndPos, IsFirst, IsNull, Encode;
    EntryIs(items, 2 * j);
    if j > 0 {
      EntryIs(items, 2 * j - 1);
    } else {
      EmptyConcat(items[..0]);
    }
  }

  lemma NewKeysRise(items: seq<Item>, j: nat)
    requires KeysLengthen(items) && |Concat(items)| < POSITIONS && 1 <= j < |items|
    ensures KeysRise(Encode(items).entries, j)
  {
    hide Concat, EndPos, Encode;
    KeyLengthIs(items, j);
    KeyLengthIs(items, j - 1);
  }

  lemma KeyNotNull(items: seq<Item>, j: nat)
    requires |Concat(items)| < POSITIONS && 1 <= j < |items|
    ensures !IsNull(Encode(items).entries[2 * j])
  {
    hide Concat, IsNull, Encode, MarkFirst;
    ConcatAt(items, j);
    var pos := EndOf(items, 2 * j);
    assert pos % POSITIONS == pos;
    WordIs(Word(items, 2 * j), pos, false);
  }

  /** Such a value without the mark keeps its words, unless it is long and also valid in the old
      form. */
  lemma NewReading(items: seq<Item>, varsize: nat)
    requires Ordered(items) && |Concat(items)| < POSITIONS && 8 + 8 * |items| + |Concat(items)| <= varsize
    requires |items| < COUNT_MASK
    ensures Reading(|items|, Encode(items).entries, varsize) == AsNew <==>
            items == [] || varsize < 32768 || !ValidOld(Encode(items).entries, varsize)
  {
    hide Concat, Encode, ValidOld, ValidNew, IsFirst, Ordered;
    OrderedLengthen(items);
    NewIsValid(items, varsize, |items|);
    if items != [] {
      EntryIs(items, 0);
    }
  }
}
