/** Bloom signatures: how values set bits, and why a row that equals the scan keys matches. */
module BloomSign {
  import opened Wrappers
  import opened BloomRand
  import opened BloomWords

  /** An index's options. `hash` stands for the hash functions of the columns. `wild` stands for
      the word that a shift by a negative count gives. */
  datatype Options = Options(length: nat, bits: seq<nat>, hash: (nat, int) -> bv32, wild: bv16)

  ghost predicate ValidOptions(o: Options)
  {
    0 < o.length <= 256 && |o.bits| <= 32
  }

  datatype Tid = Tid(block: nat, offset: nat)
  datatype Entry = Entry(tid: Tid, sign: seq<bv16>)

  const SIGNWORDBITS: int := 16

  /** One bit to set: a word of the signature and a mask. */
  datatype Mask = Mask(word: nat, bits: bv16)

  function Or(a: bv16, m: bv16): bv16 { a | m }

  /** All bits of `m` are set in `a`. */
  predicate Has(a: bv16, m: bv16) { a & m == m }

  function SetMask(sign: seq<bv16>, m: Mask): (r: seq<bv16>)
    requires m.word < |sign|
  {
    sign[m.word := Or(sign[m.word], m.bits)]
  }

  ghost predicate Inside(ms: seq<Mask>, n: nat)
  {
    forall i :: 0 <= i < |ms| ==> ms[i].word < n
  }

  function SetAll(sign: seq<bv16>, ms: seq<Mask>): (r: seq<bv16>)
    requires Inside(ms, |sign|)
    ensures |r| == |sign|
  {
    if ms == [] then sign else SetMask(SetAll(sign, ms[..|ms| - 1]), ms[|ms| - 1])
  }

  /** The bit that the number `r` from the generator selects. */
  function MaskOf(o: Options, r: int): (m: Mask)
    requires o.length > 0 && r >= -1
    ensures m.word < o.length
  {
    if r < 0 then Mask(0, o.wild)
    else
      var n := r % (o.length * SIGNWORDBITS);
      Mask(n / SIGNWORDBITS, (1 as bv16) << (n % SIGNWORDBITS))
  }

  /** The number drawn for a column, which the hash of its values is mixed with. */
  function ColumnDraw(attno: nat): (r: int)
    requires attno < 0x8000_0000
    ensures 0 <= r <= 0x7fff_fffd
  {
    SeededIs(attno);
    StepEntersRange(Seeded(attno));
    Next(Seeded(attno)) - 1
  }

  /** Exclusive or of a hash and a number, as an unsigned integer. */
  function Mix(h: bv32, r: int): (s: int)
    requires 0 <= r < 0x8000_0000
    ensures 0 <= s < 0x1_0000_0000
  {
    Xored(h, r as bv32)
  }

  function SeedOf(o: Options, attno: nat, value: int): (s: int)
    requires attno < 32
    ensures 0 <= s < 0x1_0000_0000
  {
    Mix(o.hash(attno, value), ColumnDraw(attno))
  }

  /** The bits of a value in a column. They depend on nothing else. */
  function Draws(o: Options, seed: int, n: nat): (ms: seq<Mask>)
    requires o.length > 0 && 0 <= seed < 0x1_0000_0000
    ensures |ms| == n && forall i :: 0 <= i < n ==> ms[i].word < o.length
  {
    if n == 0 then [] else
      AllDraws(seed, n);
      Draws(o, seed, n - 1) + [MaskOf(o, Iterate(Seeded(seed), n) - 1)]
  }

  function ValueMasks(o: Options, attno: nat, value: int): (ms: seq<Mask>)
    requires o.length > 0 && attno < |o.bits| <= 32
    ensures forall i :: 0 <= i < |ms| ==> ms[i].word < o.length
  {
    Draws(o, SeedOf(o, attno, value), o.bits[attno])
  }

  // ---------------------------------------------------------------- containment of signatures

  /** Every bit of `s` is set in `t`. */
  predicate Sub(s: seq<bv16>, t: seq<bv16>)
  {
    |s| == |t| && forall i :: 0 <= i < |s| ==> Has(t[i], s[i])
  }

  function Zero(n: nat): (s: seq<bv16>)
    ensures |s| == n && forall i :: 0 <= i < n ==> s[i] == 0
  {
    seq(n, _ => 0)
  }

  lemma OrKeeps(a: bv16, b: bv16, m: bv16)
    requires Has(a, b)
    ensures Has(Or(a, m), b)
  {
  }

  lemma OrHas(a: bv16, m: bv16)
    ensures Has(Or(a, m), m)
  {
  }

  lemma OrJoins(a: bv16, b: bv16, m: bv16)
    requires Has(a, b) && Has(a, m)
    ensures Has(a, Or(b, m))
  {
  }

  lemma ZeroHad(a: bv16)
    ensures Has(a, 0)
  {
  }

  /** Every bit that was set is there. */
  lemma {:induction false} SetAllHas(sign: seq<bv16>, ms: seq<Mask>, i: nat)
    requires Inside(ms, |sign|) && i < |ms|
    ensures Has(SetAll(sign, ms)[ms[i].word], ms[i].bits)
    decreases |ms|
  {
    hide Or, Has;
    var n := |ms| - 1;
    var w := ms[i].word;
    var before := SetAll(sign, ms[..n]);
    if i == n {
      OrHas(before[w], ms[n].bits);
    } else {
      SetAllHas(sign, ms[..n], i);
      assert ms[..n][i] == ms[i];
      OrKeeps(before[w], ms[i].bits, ms[n].bits);
    }
  }

  /** A signature made of bits that are all set in `t` is contained in `t`. */
  lemma {:induction false} SetAllWithin(sign: seq<bv16>, ms: seq<Mask>, t: seq<bv16>)
    requires Inside(ms, |sign|) && Sub(sign, t)
    requires forall i :: 0 <= i < |ms| ==> Has(t[ms[i].word], ms[i].bits)
    ensures Sub(SetAll(sign, ms), t)
    decreases |ms|
  {
    hide Or, Has;
    if ms != [] {
      var n := |ms| - 1;
      SetAllWithin(sign, ms[..n], t);
      var w := ms[n].word;
      OrJoins(t[w], SetAll(sign, ms[..n])[w], ms[n].bits);
    }
  }

  // ---------------------------------------------------------------- rows and scan keys

  type Row = seq<Option<int>>

  ghost predicate ValidRow(o: Options, row: Row)
  {
    ValidOptions(o) && |row| <= |o.bits|
  }

  /** The bits of the first `n` columns. */
  function RowMasks(o: Options, row: Row, n: nat): (ms: seq<Mask>)
    requires 0 < o.length && |o.bits| <= 32 && n <= |row| <= |o.bits|
    ensures forall i :: 0 <= i < |ms| ==> ms[i].word < o.length
  {
    if n == 0 then []
    else if row[n - 1].None? then RowMasks(o, row, n - 1)
    else RowMasks(o, row, n - 1) + ValueMasks(o, n - 1, row[n - 1].value)
  }

  function RowSign(o: Options, row: Row): (s: seq<bv16>)
    requires 0 < o.length && |o.bits| <= 32 && |row| <= |o.bits|
  {
    SetAll(Zero(o.length), RowMasks(o, row, |row|))
  }

  datatype ScanKey = ScanKey(attno: nat, value: Option<int>)

  ghost predicate ValidKeys(o: Options, keys: seq<ScanKey>)
  {
    ValidOptions(o) && forall i :: 0 <= i < |keys| ==> keys[i].attno < |o.bits|
  }

  /** The bits of the keys, which must not be null. */
  function KeyMasks(o: Options, keys: seq<ScanKey>): (ms: seq<Mask>)
    requires 0 < o.length && |o.bits| <= 32
    requires forall i :: 0 <= i < |keys| ==> keys[i].attno < |o.bits| && keys[i].value.Some?
    ensures forall i :: 0 <= i < |ms| ==> ms[i].word < o.length
  {
    if keys == [] then []
    else
      var k := keys[|keys| - 1];
      KeyMasks(o, keys[..|keys| - 1]) + ValueMasks(o, k.attno, k.value.value)
  }

  /** The row's column equals the key. Equal values have the same hash. */
  ghost predicate MeetsKey(o: Options, row: Row, k: ScanKey)
  {
    && k.attno < |row| && row[k.attno].Some? && k.value.Some?
    && o.hash(k.attno, row[k.attno].value) == o.hash(k.attno, k.value.value)
  }

  ghost predicate MeetsAll(o: Options, row: Row, keys: seq<ScanKey>)
  {
    forall i :: 0 <= i < |keys| ==> MeetsKey(o, row, keys[i])
  }

  /** The bits of a column are among the bits of its row. */
  lemma {:induction false} ColumnInRow(o: Options, row: Row, n: nat, c: nat, m: Mask)
    requires ValidRow(o, row) && c < n <= |row| && row[c].Some? && m in ValueMasks(o, c, row[c].value)
    ensures m in RowMasks(o, row, n)
    decreases n
  {
    hide ValueMasks;
    if c < n - 1 {
      ColumnInRow(o, row, n - 1, c, m);
    }
  }

  lemma {:induction false} KeysInRow(o: Options, row: Row, keys: seq<ScanKey>, m: Mask)
    requires ValidRow(o, row) && ValidKeys(o, keys) && MeetsAll(o, row, keys) && m in KeyMasks(o, keys)
    ensures m in RowMasks(o, row, |row|)
    decreases |keys|
  {
    hide ValueMasks;
    var n := |keys| - 1;
    var k := keys[n];
    assert MeetsKey(o, row, k);
    if m in KeyMasks(o, keys[..n]) {
      KeysInRow(o, row, keys[..n], m);
    } else {
      assert m in ValueMasks(o, k.attno, k.value.value);
      SameHashSameMasks(o, k.attno, row[k.attno].value, k.value.value);
      ColumnInRow(o, row, |row|, k.attno, m);
    }
  }

  lemma SameHashSameMasks(o: Options, attno: nat, a: int, b: int)
    requires ValidOptions(o) && attno < |o.bits| && o.hash(attno, a) == o.hash(attno, b)
    ensures ValueMasks(o, attno, a) == ValueMasks(o, attno, b)
  {
  }

  /** No false negatives: the signature of a row that meets all keys contains theirs. */
  lemma RowMatches(o: Options, row: Row, keys: seq<ScanKey>)
    requires ValidRow(o, row) && ValidKeys(o, keys) && MeetsAll(o, row, keys)
    ensures forall i :: 0 <= i < |keys| ==> keys[i].value.Some?
    ensures Sub(SetAll(Zero(o.length), KeyMasks(o, keys)), RowSign(o, row))
  {
    hide SetAll, KeyMasks, RowMasks, ValueMasks, Or, Has;
    forall i | 0 <= i < |keys| ensures keys[i].value.Some? { assert MeetsKey(o, row, keys[i]); }
    var ks, rs := KeyMasks(o, keys), RowMasks(o, row, |row|);
    var t := RowSign(o, row);
    forall i | 0 <= i < |ks| ensures Has(t[ks[i].word], ks[i].bits) {
      KeysInRow(o, row, keys, ks[i]);
      var j :| 0 <= j < |rs| && rs[j] == ks[i];
      SetAllHas(Zero(o.length), rs, j);
    }
    forall i | 0 <= i < o.length ensures Has(t[i], Zero(o.length)[i]) { ZeroHad(t[i]); }
    SetAllWithin(Zero(o.length), ks, t);
  }

  // ---------------------------------------------------------------- the code

  /** Seeds the generator with the hash of the value, mixed with a number for the column. */
  method SeedGenerator(g: Generator, o: Options, value: int, attno: nat) returns (ghost seed: int)
    requires attno < 32
    modifies g
    ensures seed == SeedOf(o, attno, value)
    ensures -MODULUS < g.next < MODULUS && g.next == Seeded(seed)
  {
    hide Next, Seeded, ColumnDraw, Mix;
    ColumnDrawIs(attno);
    g.MySrand(attno);
    var r := g.MyRand();
    var mixed := Mix(o.hash(attno, value), r);
    g.MySrand(mixed);
    seed := mixed;
  }

  /** Adds the bits of a value to a signature. */
  method SignValue(g: Generator, o: Options, sign: array<bv16>, value: int, attno: nat)
    requires ValidOptions(o) && sign.Length == o.length && attno < |o.bits|
    modifies g, sign
    ensures sign[..] == SetAll(old(sign[..]), ValueMasks(o, attno, value))
  {
    hide Next, Seeded, SetAll, Draws, MaskOf, SetMask, SeedOf;
    var seed := SeedGenerator(g, o, value, attno);
    ghost var was := sign[..];
    NoDraws(o, was, seed);
    var j := 0;
    while j < o.bits[attno]
      invariant 0 <= j <= o.bits[attno]
      invariant -MODULUS < g.next < MODULUS && g.next == Iterate(Seeded(seed), j)
      invariant sign[..] == SetAll(was, Draws(o, seed, j))
    {
      DrawStep(o, was, seed, j);
      var d := g.MyRand();
      SetBit(o, sign, d);
      j := j + 1;
    }
  }

  lemma ColumnDrawIs(attno: nat)
    requires attno < 0x8000_0000
    ensures ColumnDraw(attno) == Next(Seeded(attno)) - 1 && !BadSeed(attno)
  {
  }

  lemma NoDraws(o: Options, was: seq<bv16>, seed: int)
    requires o.length > 0 && 0 <= seed < 0x1_0000_0000 && |was| == o.length
    ensures SetAll(was, Draws(o, seed, 0)) == was
  {
  }

  lemma SetNone(sign: seq<bv16>)
    ensures SetAll(sign, []) == sign
  {
  }

  lemma DrawStep(o: Options, was: seq<bv16>, seed: int, j: nat)
    requires o.length > 0 && 0 <= seed < 0x1_0000_0000 && |was| == o.length
    ensures var r := Iterate(Seeded(seed), j + 1) - 1;
            && Iterate(Seeded(seed), j + 1) == Next(Iterate(Seeded(seed), j)) && r >= -1
            && SetAll(was, Draws(o, seed, j + 1)) == SetMask(SetAll(was, Draws(o, seed, j)), MaskOf(o, r))
  {
    hide Next, Seeded, MaskOf, SetMask;
    AllDraws(seed, j + 1);
    var ms := Draws(o, seed, j + 1);
    assert ms[..|ms| - 1] == Draws(o, seed, j);
  }

  /** Sets the bit that a number from the generator selects. */
  method SetBit(o: Options, sign: array<bv16>, d: int)
    requires ValidOptions(o) && sign.Length == o.length && d >= -1
    modifies sign
    ensures sign[..] == SetMask(old(sign[..]), MaskOf(o, d))
  {
    hide TruncDiv, TruncMod, Or;
    BitIs(o, d);
    var nBit := TruncMod(d, o.length * SIGNWORDBITS);
    var word, shift := TruncDiv(nBit, SIGNWORDBITS), TruncMod(nBit, SIGNWORDBITS);
    var bits := if shift >= 0 then (1 as bv16) << shift else o.wild;
    sign[word] := Or(sign[word], bits);
  }

  lemma BitIs(o: Options, d: int)
    requires ValidOptions(o) && d >= -1
    ensures var n := TruncMod(d, o.length * SIGNWORDBITS);
            var word, shift := TruncDiv(n, SIGNWORDBITS), TruncMod(n, SIGNWORDBITS);
            && MaskOf(o, d).word == word && shift < SIGNWORDBITS && (shift < 0 <==> d < 0)
            && MaskOf(o, d).bits == if shift >= 0 then (1 as bv16) << shift else o.wild
  {
    hide TruncDiv, TruncMod;
    var size := o.length * SIGNWORDBITS;
    if d >= 0 {
      TruncNatural(d, size);
      TruncNatural(d % size, SIGNWORDBITS);
    } else {
      TruncMinusOne(size);
      TruncMinusOne(SIGNWORDBITS);
    }
  }

  lemma TruncNatural(a: nat, b: nat)
    requires b > 0
    ensures TruncDiv(a, b) == a / b && TruncMod(a, b) == a % b
  {
  }

  lemma TruncMinusOne(b: nat)
    requires b > 1
    ensures TruncDiv(-1, b) == 0 && TruncMod(-1, b) == -1
  {
  }

  /** The index entry of a row. */
  method FormTuple(g: Generator, o: Options, tid: Tid, row: Row) returns (e: Entry)
    requires ValidRow(o, row)
    modifies g
    ensures e == Entry(tid, RowSign(o, row))
  {
    hide SetAll, ValueMasks;
    var sign := new bv16[o.length](_ => 0);
    assert sign[..] == Zero(o.length);
    SetNone(sign[..]);
    var i := 0;
    while i < |row|
      invariant 0 <= i <= |row|
      invariant sign[..] == SetAll(Zero(o.length), RowMasks(o, row, i))
    {
      if row[i].Some? {
        SetMore(Zero(o.length), RowMasks(o, row, i), ValueMasks(o, i, row[i].value));
        SignValue(g, o, sign, row[i].value, i);
      }
      i := i + 1;
    }
    return Entry(tid, sign[..]);
  }

  lemma {:induction false} SetMore(sign: seq<bv16>, a: seq<Mask>, b: seq<Mask>)
    requires Inside(a, |sign|) && Inside(b, |sign|)
    ensures SetAll(SetAll(sign, a), b) == SetAll(sign, a + b)
    decreases |b|
  {
    if b == [] {
      assert a + b == a;
    } else {
      var n := |b| - 1;
      SetMore(sign, a, b[..n]);
      assert (a + b)[..|a + b| - 1] == a + b[..n];
    }
  }

  /** The signature to search for; none when a key is null. */
  method ScanSignature(g: Generator, o: Options, keys: seq<ScanKey>) returns (r: Option<seq<bv16>>)
    requires ValidKeys(o, keys)
    modifies g
    ensures r.None? <==> exists i :: 0 <= i < |keys| && keys[i].value.None?
    ensures r.Some? ==> r.value == SetAll(Zero(o.length), KeyMasks(o, keys))
  {
    hide SetAll, ValueMasks;
    var sign := new bv16[o.length](_ => 0);
    assert sign[..] == Zero(o.length);
    SetNone(sign[..]);
    var i := 0;
    while i < |keys|
      invariant 0 <= i <= |keys|
      invariant forall j :: 0 <= j < i ==> keys[j].value.Some?
      invariant sign[..] == SetAll(Zero(o.length), KeyMasks(o, keys[..i]))
    {
      if keys[i].value.None? {
        return None;
      }
      assert keys[..i + 1][..i] == keys[..i];
      SetMore(Zero(o.length), KeyMasks(o, keys[..i]), ValueMasks(o, keys[i].attno, keys[i].value.value));
      SignValue(g, o, sign, keys[i].value.value, keys[i].attno);
      i := i + 1;
    }
    assert keys[..i] == keys;
    return Some(sign[..]);
  }

  /** The test of one index entry. */
  method SignMatches(t: seq<bv16>, s: seq<bv16>) returns (res: bool)
    requires |t| == |s|
    ensures res <==> Sub(s, t)
  {
    var i := 0;
    while i < |s|
      invariant 0 <= i <= |s|
      invariant forall j :: 0 <= j < i ==> Has(t[j], s[j])
    {
      if !Has(t[i], s[i]) {
        return false;
      }
      i := i + 1;
    }
    return true;
  }
}
