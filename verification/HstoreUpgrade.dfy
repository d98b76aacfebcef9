/** Values in the old stored form, and their conversion in place to the new one. */
module HstoreUpgrade {
  import opened Growth
  import opened HstoreFormat

  // ---------------------------------------------------------------- the old form

  /** The old form of a pair takes the same two words: the lengths, then the position with the
      mark of a null in the lowest bit. */
  function KeyLen(w: nat): nat { w % 0x1_0000 }
  function ValLen(w: nat): nat { w / 0x1_0000 }
  predicate OldNull(w: nat) { w % 2 == 1 }
  function OldPos(w: nat): nat { w / 2 }

  function OldLen(ws: seq<nat>, i: nat): nat
    requires 2 * i + 1 < |ws|
  {
    KeyLen(ws[2 * i]) + if OldNull(ws[2 * i + 1]) then 0 else ValLen(ws[2 * i])
  }

  /** Where pair `i` must begin. */
  function Begins(ws: seq<nat>, i: nat): nat
    requires 2 * i <= |ws|
  {
    if i == 0 then 0 else Begins(ws, i - 1) + OldLen(ws, i - 1)
  }

  predicate OldKeysRise(ws: seq<nat>, i: nat)
    requires 1 <= i && 2 * i < |ws|
  {
    KeyLen(ws[2 * i - 2]) <= KeyLen(ws[2 * i])
  }

  predicate InPlace(ws: seq<nat>, i: nat)
    requires 2 * i + 1 < |ws|
  {
    OldPos(ws[2 * i + 1]) == Begins(ws, i)
  }

  /** Lengths of keys do not fall, the pairs follow each other, and everything fits. */
  ghost predicate ValidOld(ws: seq<nat>, varsize: nat)
  {
    && |ws| % 2 == 0
    && (forall i :: 1 <= i < |ws| / 2 ==> OldKeysRise(ws, i))
    && (forall i :: 0 <= i < |ws| / 2 ==> InPlace(ws, i))
    && 8 + 4 * |ws| + Begins(ws, |ws| / 2) <= varsize
  }

  /** The pair that the old words describe. */
  function OldItem(ws: seq<nat>, str: bytes, i: nat): Item
    requires 2 * i + 1 < |ws| && Begins(ws, i) + OldLen(ws, i) <= |str|
  {
    var pos, klen := Begins(ws, i), KeyLen(ws[2 * i]);
    Item(str[pos..pos + klen], str[pos + klen..pos + OldLen(ws, i)], OldNull(ws[2 * i + 1]))
  }

  lemma {:induction false} BeginsRise(ws: seq<nat>, i: nat, j: nat)
    requires i <= j && 2 * j <= |ws|
    ensures Begins(ws, i) <= Begins(ws, j)
    decreases j
  {
    if i < j {
      BeginsRise(ws, i, j - 1);
    }
  }

  function OldItems(ws: seq<nat>, str: bytes): (s: seq<Item>)
    requires |ws| % 2 == 0 && Begins(ws, |ws| / 2) <= |str|
    ensures |s| == |ws| / 2
    ensures forall i :: 0 <= i < |s| ==> Begins(ws, i) + OldLen(ws, i) <= |str| && s[i] == OldItem(ws, str, i)
  {
    OldItemsFit(ws, str);
    seq(|ws| / 2, i requires 0 <= i < |ws| / 2 => OldItem(ws, str, i))
  }

  lemma OldItemsFit(ws: seq<nat>, str: bytes)
    requires |ws| % 2 == 0 && Begins(ws, |ws| / 2) <= |str|
    ensures forall i :: 0 <= i < |ws| / 2 ==> Begins(ws, i) + OldLen(ws, i) <= |str|
  {
    forall i | 0 <= i < |ws| / 2 ensures Begins(ws, i) + OldLen(ws, i) <= |str| {
      BeginsRise(ws, i + 1, |ws| / 2);
    }
  }

  // ---------------------------------------------------------------- the conversion

  /** The new word of entry `k`, computed from the old words of its pair. */
  function Converted(ws: seq<nat>, k: nat): nat
    requires |ws| % 2 == 0 && k < |ws|
  {
    var i := k / 2;
    var pos, klen, isnull := OldPos(ws[2 * i + 1]), KeyLen(ws[2 * i]), OldNull(ws[2 * i + 1]);
    var vlen := if isnull then 0 else ValLen(ws[2 * i]);
    if k % 2 == 0 then (pos + klen) % POSITIONS
    else (pos + klen + vlen) % POSITIONS + if isnull then ISNULL else 0
  }

  lemma {:induction false} BytesOfOld(ws: seq<nat>, str: bytes, i: nat)
    requires |ws| % 2 == 0 && Begins(ws, |ws| / 2) <= |str| && i <= |ws| / 2
    ensures Begins(ws, i) <= |str| && Concat(OldItems(ws, str)[..i]) == str[..Begins(ws, i)]
    decreases i
  {
    hide Concat, OldLen, OldItem, OldItems, Begins;
    BeginsRise(ws, i, |ws| / 2);
    FirstBegins(ws);
    var items := OldItems(ws, str);
    if i == 0 {
      EmptyConcat(items[..i]);
    } else {
      var n := i - 1;
      BytesOfOld(ws, str, n);
      ConcatStep(items, n);
      StepBegins(ws, n);
      assert items[n] == OldItem(ws, str, n);
      OldItemBytes(ws, str, n);
    }
  }

  lemma OldItemBytes(ws: seq<nat>, str: bytes, i: nat)
    requires 2 * i + 1 < |ws| && Begins(ws, i) + OldLen(ws, i) <= |str|
    ensures var a, c, it := Begins(ws, i), Begins(ws, i) + OldLen(ws, i), OldItem(ws, str, i);
            && str[..a] + it.key + it.val == str[..c]
            && |it.key| == KeyLen(ws[2 * i]) && |it.key| + |it.val| == OldLen(ws, i)
            && it.isnull == OldNull(ws[2 * i + 1])
  {
    hide KeyLen, ValLen, OldNull, Begins;
    var a, b, c := Begins(ws, i), Begins(ws, i) + KeyLen(ws[2 * i]), Begins(ws, i) + OldLen(ws, i);
    assert str[..a] + str[a..b] + str[b..c] == str[..c];
  }

  /** The converted words are those of the pairs. */
  lemma ConvertedIsWord(ws: seq<nat>, str: bytes, varsize: nat, k: nat)
    requires ValidOld(ws, varsize) && Begins(ws, |ws| / 2) <= |str| && k < |ws|
    ensures Converted(ws, k) == Word(OldItems(ws, str), k)
  {
    hide Concat, KeyLen, ValLen, OldNull, OldPos, Begins;
    var items, i := OldItems(ws, str), k / 2;
    BytesOfOld(ws, str, i);
    assert items[i] == OldItem(ws, str, i) && InPlace(ws, i);
    OldItemBytes(ws, str, i);
  }

  /** The words after the conversion. */
  function ConvertedWords(ws: seq<nat>): (r: seq<nat>)
    requires |ws| % 2 == 0
    ensures |r| == |ws|
    ensures forall k :: 0 <= k < |ws| ==> r[k] == if k == 0 then MarkFirst(Converted(ws, k)) else Converted(ws, k)
  {
    seq(|ws|, k requires 0 <= k < |ws| => if k == 0 then MarkFirst(Converted(ws, k)) else Converted(ws, k))
  }

  /** A converted value is the encoding of the pairs that the old words described. */
  lemma ConvertedIsEncoding(ws: seq<nat>, str: bytes, varsize: nat)
    requires ValidOld(ws, varsize) && |ws| % 2 == 0 && Begins(ws, |ws| / 2) <= |str|
    ensures HStore(ConvertedWords(ws), str[..Begins(ws, |ws| / 2)]) == Encode(OldItems(ws, str))
    ensures |Concat(OldItems(ws, str))| == Begins(ws, |ws| / 2)
  {
    hide Concat, Converted, Begins, MarkFirst, Word, Encode, OldItems, ConvertedWords, ValidOld;
    var items := OldItems(ws, str);
    BytesOfOld(ws, str, |ws| / 2);
    assert items[..|ws| / 2] == items;
    var r, g := ConvertedWords(ws), Encode(items);
    forall k | 0 <= k < |ws| ensures r[k] == g.entries[k] { ConvertedIsWord(ws, str, varsize, k); }
    assert r == g.entries;
  }

  /** Reading a converted value gives the pairs that the old words described, and its last
      position is the number of bytes. */
  lemma ConversionKeeps(ws: seq<nat>, str: bytes, varsize: nat)
    requires ValidOld(ws, varsize) && |ws| % 2 == 0 && Begins(ws, |ws| / 2) <= |str| && Begins(ws, |ws| / 2) < POSITIONS
    ensures var n := Begins(ws, |ws| / 2); var h := HStore(ConvertedWords(ws), str[..n]);
            && Packed(h) && Items(h) == OldItems(ws, str)
            && (ws != [] ==> EndPos(h.entries[|ws| - 1]) == n)
  {
    hide Concat, Begins, Encode, Items, OldItems, ConvertedWords, ValidOld, Packed, EndPos;
    var h := HStore(ConvertedWords(ws), str[..Begins(ws, |ws| / 2)]);
    ConvertedIsEncoding(ws, str, varsize);
    DecodeEncode(OldItems(ws, str));
    LastIsLength(h);
  }

  lemma LastIsLength(h: HStore)
    requires Packed(h)
    ensures h.entries != [] ==> EndPos(h.entries[|h.entries| - 1]) == |h.str|
  {
  }

  // ---------------------------------------------------------------- the code

  const NEWVERSION: nat := 0x8000_0000
  const COUNT_MASK: nat := 0x1000_0000

  method CheckKeys(ws: seq<nat>) returns (ok: bool)
    requires |ws| % 2 == 0
    ensures ok <==> forall i :: 1 <= i < |ws| / 2 ==> OldKeysRise(ws, i)
  {
    var i := 1;
    while i < |ws| / 2
      invariant 1 <= i <= |ws| / 2 || (i == 1 && |ws| == 0)
      invariant forall j :: 1 <= j < i && 2 * j < |ws| ==> OldKeysRise(ws, j)
    {
      if KeyLen(ws[2 * i]) < KeyLen(ws[2 * (i - 1)]) {
        assert !OldKeysRise(ws, i);
        return false;
      }
      i := i + 1;
    }
    return true;
  }

  method CheckPositions(ws: seq<nat>) returns (ok: bool, lastpos: nat)
    requires |ws| % 2 == 0
    ensures ok <==> forall i :: 0 <= i < |ws| / 2 ==> InPlace(ws, i)
    ensures ok ==> lastpos == Begins(ws, |ws| / 2)
  {
    hide KeyLen, OldPos, ValLen, OldNull;
    lastpos := 0;
    var i := 0;
    while i < |ws| / 2
      invariant 0 <= i <= |ws| / 2 && lastpos == Begins(ws, i)
      invariant forall j :: 0 <= j < i ==> InPlace(ws, j)
    {
      if OldPos(ws[2 * i + 1]) != lastpos {
        assert !InPlace(ws, i);
        return false, 0;
      }
      NextBegins(ws, i);
      lastpos := lastpos + KeyLen(ws[2 * i]) + if OldNull(ws[2 * i + 1]) then 0 else ValLen(ws[2 * i]);
      i := i + 1;
    }
    return true, lastpos;
  }

  /** Overwrites old words with new ones, pair by pair. */
  method ConvertWords(words: array<nat>)
    requires words.Length % 2 == 0
    modifies words
    ensures forall k :: 0 <= k < words.Length ==> words[k] == Converted(old(words[..]), k)
  {
    hide KeyLen, OldPos, ValLen, OldNull, Converted;
    ghost var ws := words[..];
    var i := 0;
    while i < words.Length / 2
      invariant 0 <= i <= words.Length / 2
      invariant forall k :: 0 <= k < 2 * i ==> words[k] == Converted(ws, k)
      invariant forall k :: 2 * i <= k < |ws| ==> words[k] == ws[k]
    {
      var pos := OldPos(words[2 * i + 1]);
      var keylen := KeyLen(words[2 * i]);
      var vallen := ValLen(words[2 * i]);
      var isnull := OldNull(words[2 * i + 1]);
      if isnull {
        vallen := 0;
      }
      ConvertedPair(ws, i);
      words[2 * i] := (pos + keylen) % POSITIONS;
      words[2 * i + 1] := (pos + keylen + vallen) % POSITIONS + if isnull then ISNULL else 0;
      i := i + 1;
    }
  }

  /** Positions do not fall, and neither do the lengths of keys. */
  method CheckEntries(ws: seq<nat>) returns (ok: bool)
    requires |ws| % 2 == 0
    ensures ok <==> EntriesRise(ws)
  {
    hide IsFirst, EndPos, IsNull;
    var i := 1;
    while i < |ws|
      invariant 1 <= i
      invariant forall j :: 1 <= j < i && j < |ws| ==> !IsFirst(ws[j]) && EndPos(ws[j - 1]) <= EndPos(ws[j])
    {
      if IsFirst(ws[i]) || EndPos(ws[i]) < EndPos(ws[i - 1]) {
        return false;
      }
      i := i + 1;
    }
    i := 1;
    while i < |ws| / 2
      invariant 1 <= i
      invariant forall j :: 1 <= j < i && j < |ws| / 2 ==> KeysRise(ws, j) && !IsNull(ws[2 * j])
    {
      var len := EndPos(ws[2 * i]) - EndPos(ws[2 * i - 1]);
      var before := if i == 1 then EndPos(ws[0]) else EndPos(ws[2 * i - 2]) - EndPos(ws[2 * i - 3]);
      if len < before {
        assert !KeysRise(ws, i);
        return false;
      }
      if IsNull(ws[2 * i]) {
        return false;
      }
      i := i + 1;
    }
    return true;
  }

  /** A value in memory. `size` holds the number of pairs and the mark of the new form, `words` the
      words that the value has room for, and `str` everything after them. */
  class Value {
    var size: nat
    const words: array<nat>
    const str: bytes
    var varsize: nat

    constructor (size: nat, words: array<nat>, str: bytes, varsize: nat)
      ensures this.size == size && this.words == words && this.str == str && this.varsize == varsize
    {
      this.size := size;
      this.words := words;
      this.str := str;
      this.varsize := varsize;
    }

    /** There is room for the words of all pairs. */
    predicate Fits()
      reads this
    {
      8 + 8 * (size % COUNT_MASK) <= varsize
    }

    /** The value lies in memory as its length says. */
    ghost predicate InMemory()
      reads this
    {
      && size < 0x1_0000_0000 && 8 <= varsize <= MAX_ALLOC
      && words.Length == (if Fits() then 2 * (size % COUNT_MASK) else (varsize - 8) / 4)
      && 8 + 4 * words.Length + |str| == varsize
    }

    /** Where the words end. */
    ghost function EndOfWords(): nat
      reads this, words
    {
      8 + 4 * words.Length + if words.Length == 0 then 0 else EndPos(words[words.Length - 1])
    }

    /** Reads a word. What is found behind the value is not known. */
    method ReadWord(i: nat) returns (w: nat)
      ensures i < words.Length ==> w == words[i]
    {
      if i < words.Length {
        return words[i];
      }
      w := *;
    }

    /** The bytes that the last word says there are. */
    method LastPos() returns (n: nat)
      requires InMemory()
      ensures Fits() ==> 8 + 8 * (size % COUNT_MASK) + n == EndOfWords()
    {
      var count := size % COUNT_MASK;
      if count == 0 {
        return 0;
      }
      var w := ReadWord(2 * count - 1);
      return EndPos(w);
    }

    /** Sets the mark of the new form and makes the length fit the words. */
    method MarkNew()
      requires InMemory()
      modifies this
      ensures size == old(size) % COUNT_MASK + NEWVERSION
      ensures old(Fits()) ==> varsize == EndOfWords()
    {
      var count := size % COUNT_MASK;
      var n := LastPos();
      size := count + NEWVERSION;
      varsize := 8 + 8 * count + n;
    }

    /** 0 for a value that is not in the old form, 2 for one that is, 1 when it has bytes to
        spare. */
    method ValidOldFormat() returns (r: nat)
      requires InMemory()
      ensures r > 0 <==> size < COUNT_MASK && Fits() && ValidOld(words[..], varsize)
      ensures r <= 2
      ensures r > 0 ==>
                (r == 2 <==> size == 0 || varsize == 8 + 4 * words.Length + Begins(words[..], words.Length / 2))
    {
      hide Begins, KeyLen, OldPos;
      if size >= NEWVERSION {
        return 0;
      }
      var count := size;
      if count == 0 {
        NothingBegins(words[..]);
        return 2;
      }
      if count > 0xfff_ffff {
        return 0;
      }
      if 8 + 8 * count > varsize {
        return 0;
      }
      var ws := words[..];
      FirstBegins(ws);
      if OldPos(words[1]) != 0 {
        assert !InPlace(ws, 0);
        return 0;
      }
      var ok := CheckKeys(ws);
      if !ok {
        return 0;
      }
      var lastpos;
      ok, lastpos := CheckPositions(ws);
      if !ok {
        return 0;
      }
      var vsize := 8 + 8 * count + lastpos;
      if vsize > varsize {
        return 0;
      }
      if vsize != varsize {
        return 1;
      }
      return 2;
    }

    /** The same for the new form. */
    method ValidNewFormat() returns (r: nat)
      requires InMemory()
      ensures r > 0 <==> size >= NEWVERSION || (Fits() && ValidNew(size, words[..], varsize))
      ensures r <= 2
      ensures r > 0 ==> (r == 2 <==> size >= NEWVERSION || words.Length == 0 || varsize == EndOfWords())
    {
      hide IsFirst, EndPos, ValidNew;
      var count := size % COUNT_MASK;
      var buflen := LastPos();
      var vsize := 8 + 8 * count + buflen;
      NewMeans(size, words[..], varsize);
      if size >= NEWVERSION || count == 0 {
        return 2;
      }
      var first := ReadWord(0);
      if !IsFirst(first) || vsize > varsize {
        return 0;
      }
      var ok := CheckEntries(words[..]);
      if !ok {
        return 0;
      }
      return if vsize != varsize then 1 else 2;
    }

    /** Overwrites the old words with the new ones. */
    method Convert()
      requires InMemory() && Fits() && size < COUNT_MASK && ValidOld(words[..], varsize)
      modifies this, words
      ensures words[..] == ConvertedWords(old(words[..]))
      ensures size == old(size) + NEWVERSION &&
              varsize == 8 + 4 * words.Length + Begins(old(words[..]), words.Length / 2)
    {
      hide Begins, EndPos, MarkFirst, ConvertedWords, ValidOld, Converted;
      ghost var ws := words[..];
      ConvertWords(words);
      if size > 0 {
        words[0] := MarkFirst(words[0]);
      }
      assert words[..] == ConvertedWords(ws);
      ConvertedEnd(ws, str, varsize);
      MarkNew();
    }

    /** Turns the value into the new form, or finds that it is neither in the old form nor in
        the new one. A value with room for fewer words than it has pairs is refused as well, unless
        it is short and begins like one in the new form. */
    method Upgrade() returns (ok: bool)
      requires InMemory()
      modifies this, words
      ensures old(Fits()) ==> (ok <==> old(Reading(size, words[..], varsize)) != Neither)
      ensures old(size >= NEWVERSION) ==> ok && unchanged(this) && unchanged(words)
      ensures old(Fits() && Reading(size, words[..], varsize).AsNew?) ==>
                && words[..] == old(words[..]) && size == old(size) % COUNT_MASK + NEWVERSION
                && varsize == EndOfWords()
      ensures old(Fits() && Reading(size, words[..], varsize).AsOld?) ==>
                && words[..] == ConvertedWords(old(words[..])) && size == old(size) + NEWVERSION
                && varsize == 8 + 4 * words.Length + Begins(old(words[..]), words.Length / 2)
      ensures old(!Fits() && size < NEWVERSION) ==>
                && unchanged(words)
                && (ok ==> old(varsize) < 32768 && (words.Length == 0 || IsFirst(words[0])) &&
                           size == old(size) % COUNT_MASK + NEWVERSION)
                && (!ok ==> old(varsize) >= 32768 || words.Length == 0 || !IsFirst(words[0]))
      ensures !ok ==> unchanged(this) && unchanged(words)
    {
      hide ConvertedWords, Begins, ValidOld, ValidNew, EndPos, IsFirst;
      if size >= NEWVERSION {
        return true;
      }
      NewMeans(size, words[..], varsize);
      var first := ReadWord(0);
      if size == 0 || (varsize < 32768 && IsFirst(first)) {
        MarkNew();
        return true;
      }
      var validNew := ValidNewFormat();
      var validOld := ValidOldFormat();
      if validOld == 0 {
        if validNew > 0 {
          MarkNew();
          return true;
        }
        return false;
      }
      Convert();
      return true;
    }
  }

  /** How an upgrade takes a value. */
  datatype Form = AsIs | AsNew | AsOld | Neither

  ghost function Reading(size: nat, ws: seq<nat>, varsize: nat): Form
  {
    if size >= NEWVERSION then AsIs
    else if size == 0 || ws == [] || (varsize < 32768 && IsFirst(ws[0])) then AsNew
    else if size < COUNT_MASK && ValidOld(ws, varsize) then AsOld
    else if ValidNew(size, ws, varsize) then AsNew
    else Neither
  }

  /** A value in the old form is taken as such unless it is short and its first pair is a null
      with a length of at least 32768 left in it. */
  lemma OldIsTakenAsOld(size: nat, ws: seq<nat>, varsize: nat)
    requires 0 < size < COUNT_MASK && |ws| == 2 * size && ValidOld(ws, varsize) && ws[0] < 0x1_0000_0000
    ensures Reading(size, ws, varsize) == AsOld <==> !(varsize < 32768 && OldNull(ws[1]) && ValLen(ws[0]) >= 0x8000)
  {
    hide ValidNew;
    BeginsRise(ws, 1, |ws| / 2);
    StepBegins(ws, 0);
    FirstBegins(ws);
    FirstBit(ws[0]);
  }

  lemma FirstBit(w: nat)
    requires w < 0x1_0000_0000
    ensures IsFirst(w) <==> ValLen(w) >= 0x8000
  {
  }

  /** Such a value, and what is lost: the null is read as a value. */
  lemma NullLengthMisread()
    ensures var ws := [0x8000_0000, 1];
            && ValidOld(ws, 16) && OldNull(ws[1]) && Reading(1, ws, 16) == AsNew
            && !IsNull(ws[1]) && EndPos(ws[1]) == 1
  {
    var ws: seq<nat> := [0x8000_0000, 1];
    assert Begins(ws, 0) == 0 && OldLen(ws, 0) == 0;
    StepBegins(ws, 0);
    assert InPlace(ws, 0);
    assert |ws| / 2 == 1;
  }

  /** An upgraded value of the old form has the same pairs, byte for byte, and exactly the bytes
      that its last position says. */
  lemma UpgradeKeepsPairs(size: nat, ws: seq<nat>, str: bytes, varsize: nat)
    requires 0 < size < COUNT_MASK && |ws| == 2 * size && ValidOld(ws, varsize)
    requires 8 + 4 * |ws| + |str| == varsize <= MAX_ALLOC
    ensures var n := Begins(ws, |ws| / 2); var h := HStore(ConvertedWords(ws), str[..n]);
            && n <= |str| && Packed(h) && Items(h) == OldItems(ws, str)
            && VarSize(h) == 8 + 4 * |ws| + EndPos(h.entries[|ws| - 1])
  {
    hide Begins, ConvertedWords, Packed, Items, OldItems, EndPos;
    ConversionKeeps(ws, str, varsize);
  }

  /** Key `j` is not shorter than the one before. */
  predicate KeysRise(ws: seq<nat>, j: nat)
    requires 1 <= j && 2 * j < |ws|
  {
    var before := if j == 1 then EndPos(ws[0]) else EndPos(ws[2 * j - 2]) - EndPos(ws[2 * j - 3]);
    EndPos(ws[2 * j]) - EndPos(ws[2 * j - 1]) >= before
  }

  ghost predicate EntriesRise(ws: seq<nat>)
  {
    && (forall j :: 1 <= j < |ws| ==> !IsFirst(ws[j]) && EndPos(ws[j - 1]) <= EndPos(ws[j]))
    && (forall j :: 1 <= j < |ws| / 2 ==> KeysRise(ws, j) && !IsNull(ws[2 * j]))
  }

  ghost predicate ValidNew(size: nat, ws: seq<nat>, varsize: nat)
  {
    || size >= NEWVERSION
    || ws == []
    || (&& |ws| % 2 == 0 && IsFirst(ws[0]) && 8 + 4 * |ws| + EndPos(ws[|ws| - 1]) <= varsize
        && EntriesRise(ws))
  }

  lemma NewMeans(size: nat, ws: seq<nat>, varsize: nat)
    ensures size >= NEWVERSION || ws == [] ==> ValidNew(size, ws, varsize)
    ensures size < NEWVERSION && ws != [] && |ws| % 2 == 0 ==>
              (ValidNew(size, ws, varsize) <==>
               IsFirst(ws[0]) && 8 + 4 * |ws| + EndPos(ws[|ws| - 1]) <= varsize && EntriesRise(ws))
  {
  }

  lemma NothingBegins(ws: seq<nat>)
    requires ws == []
    ensures Begins(ws, 0) == 0
  {
  }

  lemma FirstBegins(ws: seq<nat>)
    ensures Begins(ws, 0) == 0
  {
  }

  lemma StepBegins(ws: seq<nat>, i: nat)
    requires 2 * i + 1 < |ws|
    ensures Begins(ws, i + 1) == Begins(ws, i) + OldLen(ws, i)
  {
  }

  lemma NextBegins(ws: seq<nat>, i: nat)
    requires 2 * i + 1 < |ws|
    ensures Begins(ws, i + 1)
            == Begins(ws, i) + KeyLen(ws[2 * i]) + if OldNull(ws[2 * i + 1]) then 0 else ValLen(ws[2 * i])
  {
  }

  lemma ConvertedPair(ws: seq<nat>, i: nat)
    requires |ws| % 2 == 0 && 2 * i + 1 < |ws|
    ensures var pos, klen, isnull := OldPos(ws[2 * i + 1]), KeyLen(ws[2 * i]), OldNull(ws[2 * i + 1]);
            var vlen := if isnull then 0 else ValLen(ws[2 * i]);
            && Converted(ws, 2 * i) == (pos + klen) % POSITIONS
            && Converted(ws, 2 * i + 1) == (pos + klen + vlen) % POSITIONS + (if isnull then ISNULL else 0)
  {
    hide OldPos, KeyLen, OldNull, ValLen;
  }

  /** The last word tells how many bytes there are. */
  lemma ConvertedEnd(ws: seq<nat>, str: bytes, varsize: nat)
    requires ValidOld(ws, varsize) && |ws| % 2 == 0 && 8 + 4 * |ws| + |str| == varsize <= MAX_ALLOC
    ensures Begins(ws, |ws| / 2) == if ws == [] then 0 else EndPos(ConvertedWords(ws)[|ws| - 1])
  {
    hide ConvertedWords, EndPos, Packed, Items, OldItems;
    if ws != [] {
      ConversionKeeps(ws, str, varsize);
    }
  }
}
