/** Which bits a value, a row and a scan set in a signature, said by numbers alone. */
module BloomBits {
  import opened BloomRand
  import opened BloomSign
  import opened BloomWords

  // ---------------------------------------------------------------- one bit

  function One(i: nat): bv16
    requires i < 16
  {
    (1 as bv16) << i
  }

  /** Bit `n` of a signature. */
  predicate IsSet(sign: seq<bv16>, n: nat)
    requires n < 16 * |sign|
  {
    Meets(sign[n / 16], One(n % 16))
  }

  lemma OrMeets(a: bv16, b: bv16, m: bv16)
    ensures Meets(Or(a, b), m) <==> Meets(a, m) || Meets(b, m)
  {
    hide Meets;
    MeetsOr(a, b, m);
  }

  lemma ShiftsApart(x: bv16, y: bv16)
    requires x < 16 && y < 16
    ensures ((1 as bv16) << x) & ((1 as bv16) << y) != 0 <==> x == y
  {
  }

  lemma ShiftIs(i: nat)
    requires i < 16
    ensures (i as bv16) < 16 && One(i) == (1 as bv16) << (i as bv16)
  {
  }

  lemma AmountsApart(i: nat, j: nat)
    requires i < 16 && j < 16
    ensures i as bv16 == j as bv16 <==> i == j
  {
  }

  lemma OnesApart(i: nat, j: nat)
    requires i < 16 && j < 16
    ensures Meets(One(i), One(j)) <==> i == j
  {
    hide One;
    ShiftIs(i);
    ShiftIs(j);
    AmountsApart(i, j);
    ShiftsApart(i as bv16, j as bv16);
  }

  // ---------------------------------------------------------------- seeds

  /** The hash comes back when the number is mixed in once more: the seed is their exclusive or. */
  lemma MixIsXor(h: bv32, r: int)
    requires 0 <= r < 0x8000_0000
    ensures (Mix(h, r) as bv32) ^ (r as bv32) == h
  {
    hide Xored;
    XoredBack(h, r as bv32);
  }

  /** The number of a column. */
  lemma ColumnNumber(attno: nat)
    requires attno < 32
    ensures ColumnDraw(attno) == 16807 * (attno + 1) - 1
  {
    hide Next;
    assert Seeded(attno) == attno + 1;
    StepMultiplies(attno + 1);
  }

  /** The seed for a value of hash `h` in a column. */
  function SeedFor(h: bv32, attno: nat): (seed: int)
    requires attno < 32
    ensures 0 <= seed < 0x1_0000_0000
  {
    Xored(h, (16807 * (attno + 1) - 1) as bv32)
  }

  lemma SeedIs(o: Options, attno: nat, value: int)
    requires attno < 32
    ensures SeedOf(o, attno, value) == SeedFor(o.hash(attno, value), attno)
  {
    hide ColumnDraw, Xored;
    ColumnNumber(attno);
  }

  lemma MixApart(g: bv32, h: bv32, r: int)
    requires 0 <= r < 0x8000_0000
    ensures Mix(g, r) == Mix(h, r) <==> g == h
  {
    hide Mix;
    MixIsXor(g, r);
    MixIsXor(h, r);
  }

  /** In one column values have the same seed if and only if they have the same hash. */
  lemma SeedsByHash(o: Options, attno: nat, a: int, b: int)
    requires attno < 32
    ensures SeedOf(o, attno, a) == SeedOf(o, attno, b) <==> o.hash(attno, a) == o.hash(attno, b)
  {
    hide Mix, ColumnDraw;
    MixApart(o.hash(attno, a), o.hash(attno, b), ColumnDraw(attno));
  }

  /** The state that a seed gives, for seeds that are not negative as int and for those that are. */
  lemma SeedState(seed: int)
    requires 0 <= seed < 0x1_0000_0000
    ensures seed < 0x8000_0000 ==> Seeded(seed) == seed % 0x7fff_fffe + 1
    ensures seed >= 0x8000_0000 ==> Seeded(seed) == 1 - (0x1_0000_0000 - seed) % 0x7fff_fffe
  {
  }

  // ---------------------------------------------------------------- numbers drawn

  /** A step multiplies from every state, also from negative ones. */
  lemma StepAnywhere(x: int)
    requires -MODULUS < x < MODULUS
    ensures Next(x) == 16807 * x % 0x7fff_ffff && 0 <= Next(x) < MODULUS
  {
    hide TruncDiv, TruncMod;
    StepSplit(x);
    StepIs(x);
    var hi, lo := TruncDiv(x, 127773), TruncMod(x, 127773);
    var t := MULTIPLIER * lo - 2836 * hi;
    RemainderIs(MULTIPLIER * x, if t < 0 then hi - 1 else hi, Next(x));
  }

  lemma {:induction false} DrawIs(x: int, n: nat)
    requires -MODULUS < x < MODULUS && n > 0
    ensures Iterate(x, n) == Power(n) * x % 0x7fff_ffff && 0 <= Iterate(x, n) < MODULUS
    decreases n
  {
    hide Next;
    if n == 1 {
      StepAnywhere(x);
      assert Iterate(x, 1) == Next(Iterate(x, 0)) && Power(1) == MULTIPLIER * Power(0);
    } else {
      DrawIs(x, n - 1);
      StepAnywhere(Iterate(x, n - 1));
      MultiplyRemainder(Power(n - 1) * x);
      assert MULTIPLIER * (Power(n - 1) * x) == Power(n) * x;
    }
  }

  // ---------------------------------------------------------------- bits of a value

  /** The bit that the `j`th number from state `x` selects in a signature of `size` bits. */
  function Selected(x: int, j: nat, size: nat): int
    requires size > 0
  {
    (Power(j) * x % 0x7fff_ffff - 1) % size
  }

  /** Whether a value of hash `h` sets bit `n`. The two seeds of state zero set what a shift by a
      negative count gives in the first word; every other seed sets the bits of the numbers drawn. */
  ghost predicate SetsBit(o: Options, attno: nat, h: bv32, n: nat)
    requires o.length > 0 && attno < |o.bits| <= 32
  {
    var seed := SeedFor(h, attno);
    if seed == 0xffff_ffff || seed == 0x8000_0001 then o.bits[attno] > 0 && n < 16 && Meets(o.wild, One(n))
    else exists j: nat :: 1 <= j <= o.bits[attno] && n == Selected(Seeded(seed), j, 16 * o.length)
  }

  lemma MaskBit(o: Options, sign: seq<bv16>, r: int, n: nat)
    requires o.length == |sign| > 0 && r >= 0 && n < 16 * |sign|
    ensures IsSet(SetMask(sign, MaskOf(o, r)), n) <==> IsSet(sign, n) || n == r % (16 * o.length)
  {
    hide One, Or, Meets;
    var m := r % (o.length * SIGNWORDBITS);
    assert o.length * SIGNWORDBITS == 16 * o.length;
    MaskIs(o, r, m);
    OrMeets(sign[m / 16], One(m % 16), One(n % 16));
    OnesApart(m % 16, n % 16);
    assert n == 16 * (n / 16) + n % 16 && m == 16 * (m / 16) + m % 16;
  }

  lemma MaskIs(o: Options, r: int, m: nat)
    requires o.length > 0 && r >= 0 && m == r % (o.length * SIGNWORDBITS)
    ensures MaskOf(o, r) == Mask(m / 16, One(m % 16)) && m / 16 < o.length
  {
  }

  lemma WildBit(o: Options, sign: seq<bv16>, n: nat)
    requires o.length == |sign| > 0 && n < 16 * |sign|
    ensures IsSet(SetMask(sign, MaskOf(o, -1)), n) <==> IsSet(sign, n) || (n < 16 && Meets(o.wild, One(n)))
  {
    hide One, Or, Meets;
    OrMeets(sign[0], o.wild, One(n % 16));
  }

  lemma {:induction false} DrawnBits(o: Options, sign: seq<bv16>, seed: int, k: nat, n: nat)
    requires o.length == |sign| > 0 && 0 <= seed < 0x1_0000_0000 && n < 16 * |sign|
    ensures IsSet(SetAll(sign, Draws(o, seed, k)), n) <==>
            || IsSet(sign, n)
            || (if BadSeed(seed) then k > 0 && n < 16 && Meets(o.wild, One(n))
                else exists j: nat :: 1 <= j <= k && n == Selected(Seeded(seed), j, 16 * o.length))
    decreases k
  {
    hide One, Meets, SetAll, Draws, MaskOf, SetMask, IsSet, Seeded, Next, Power;
    if k == 0 {
      NoDraws(o, sign, seed);
    } else {
      DrawnBits(o, sign, seed, k - 1, n);
      DrawStep(o, sign, seed, k - 1);
      AllDraws(seed, k);
      SeededIs(seed);
      var before, r := SetAll(sign, Draws(o, seed, k - 1)), Iterate(Seeded(seed), k) - 1;
      if BadSeed(seed) {
        WildBit(o, before, n);
      } else {
        MaskBit(o, before, r, n);
        DrawIs(Seeded(seed), k);
        assert r % (16 * o.length) == Selected(Seeded(seed), k, 16 * o.length);
      }
    }
  }

  /** Adding a value to a signature sets exactly the bits of its hash. */
  lemma ValueBits(o: Options, attno: nat, value: int, sign: seq<bv16>, n: nat)
    requires o.length == |sign| > 0 && attno < |o.bits| <= 32 && n < 16 * |sign|
    ensures IsSet(SetAll(sign, ValueMasks(o, attno, value)), n) <==>
            IsSet(sign, n) || SetsBit(o, attno, o.hash(attno, value), n)
  {
    hide One, Meets, SetAll, Draws, IsSet, Seeded, Selected, SeedOf, SeedFor;
    SeedIs(o, attno, value);
    DrawnBits(o, sign, SeedOf(o, attno, value), o.bits[attno], n);
  }

  // ---------------------------------------------------------------- bits of rows and scans

  lemma ZeroBit(length: nat, n: nat)
    requires n < 16 * length
    ensures !IsSet(Zero(length), n)
  {
    NothingMeets(One(n % 16));
  }

  lemma {:induction false} RowBitsUpTo(o: Options, row: Row, k: nat, n: nat)
    requires ValidRow(o, row) && k <= |row| && n < 16 * o.length
    ensures IsSet(SetAll(Zero(o.length), RowMasks(o, row, k)), n) <==>
            exists c :: 0 <= c < k && row[c].Some? && SetsBit(o, c, o.hash(c, row[c].value), n)
    decreases k
  {
    hide SetsBit, IsSet, SetAll, ValueMasks;
    if k == 0 {
      SetNone(Zero(o.length));
      ZeroBit(o.length, n);
    } else {
      RowBitsUpTo(o, row, k - 1, n);
      if row[k - 1].Some? {
        var value := row[k - 1].value;
        SetMore(Zero(o.length), RowMasks(o, row, k - 1), ValueMasks(o, k - 1, value));
        ValueBits(o, k - 1, value, SetAll(Zero(o.length), RowMasks(o, row, k - 1)), n);
      }
    }
  }

  /** The signature of a row has the bits of its columns that are not null, and no others. */
  lemma RowBits(o: Options, row: Row, n: nat)
    requires ValidRow(o, row) && n < 16 * o.length
    ensures |RowSign(o, row)| == o.length
    ensures IsSet(RowSign(o, row), n) <==>
            exists c :: 0 <= c < |row| && row[c].Some? && SetsBit(o, c, o.hash(c, row[c].value), n)
  {
    hide SetsBit, IsSet, SetAll, RowMasks;
    RowBitsUpTo(o, row, |row|, n);
  }

  /** The signature of a scan has the bits of its keys, and no others. */
  lemma {:induction false} KeyBits(o: Options, keys: seq<ScanKey>, n: nat)
    requires ValidKeys(o, keys) && n < 16 * o.length && forall i :: 0 <= i < |keys| ==> keys[i].value.Some?
    ensures IsSet(SetAll(Zero(o.length), KeyMasks(o, keys)), n) <==>
            exists i :: 0 <= i < |keys| && SetsBit(o, keys[i].attno, o.hash(keys[i].attno, keys[i].value.value), n)
    decreases |keys|
  {
    hide SetsBit, IsSet, SetAll, ValueMasks;
    if keys == [] {
      SetNone(Zero(o.length));
      ZeroBit(o.length, n);
    } else {
      var k := |keys| - 1;
      var key, before := keys[k], keys[..k];
      KeyBits(o, before, n);
      SetMore(Zero(o.length), KeyMasks(o, before), ValueMasks(o, key.attno, key.value.value));
      ValueBits(o, key.attno, key.value.value, SetAll(Zero(o.length), KeyMasks(o, before)), n);
      assert forall i :: 0 <= i < k ==> before[i] == keys[i];
    }
  }

  // ---------------------------------------------------------------- containment

  lemma OneIs()
    ensures One(0) == 0x1 && One(1) == 0x2 && One(2) == 0x4 && One(3) == 0x8
    ensures One(4) == 0x10 && One(5) == 0x20 && One(6) == 0x40 && One(7) == 0x80
    ensures One(8) == 0x100 && One(9) == 0x200 && One(10) == 0x400 && One(11) == 0x800
    ensures One(12) == 0x1000 && One(13) == 0x2000 && One(14) == 0x4000 && One(15) == 0x8000
  {
  }

  /** Bit `i` of the mask is set in the word, if it is set in the mask. */
  predicate Carries(w: bv16, m: bv16, i: nat)
    requires i < 16
  {
    Meets(m, One(i)) ==> Meets(w, One(i))
  }

  lemma HasCarries(w: bv16, m: bv16, i: nat)
    requires Has(w, m) && i < 16
    ensures Carries(w, m, i)
  {
    hide One;
    MaskCarries(w, m, One(i));
  }

  lemma CarriesHas(w: bv16, m: bv16)
    requires forall i: nat :: i < 16 ==> Carries(w, m, i)
    ensures Has(w, m)
  {
    hide One;
    OneIs();
    assert Carries(w, m, 0) && Carries(w, m, 1) && Carries(w, m, 2) && Carries(w, m, 3);
    assert Carries(w, m, 4) && Carries(w, m, 5) && Carries(w, m, 6) && Carries(w, m, 7);
    assert Carries(w, m, 8) && Carries(w, m, 9) && Carries(w, m, 10) && Carries(w, m, 11);
    assert Carries(w, m, 12) && Carries(w, m, 13) && Carries(w, m, 14) && Carries(w, m, 15);
    FirstBits(w, m);
    SecondBits(w, m);
    ThirdBits(w, m);
    FourthBits(w, m);
    AllBits(w, m);
  }

  /** One signature is contained in another just when each of its bits is. */
  lemma SubIs(s: seq<bv16>, t: seq<bv16>)
    requires |s| == |t|
    ensures Sub(s, t) <==> forall n: nat :: n < 16 * |s| && IsSet(s, n) ==> IsSet(t, n)
  {
    hide Has, Meets, One;
    if Sub(s, t) {
      forall n: nat | n < 16 * |s| && IsSet(s, n) ensures IsSet(t, n) {
        HasCarries(t[n / 16], s[n / 16], n % 16);
      }
    }
    if forall n: nat :: n < 16 * |s| && IsSet(s, n) ==> IsSet(t, n) {
      forall i | 0 <= i < |s| ensures Has(t[i], s[i]) {
        forall b: nat | b < 16 ensures Carries(t[i], s[i], b) {
          var n := 16 * i + b;
          assert n / 16 == i && n % 16 == b;
          assert IsSet(s, n) ==> IsSet(t, n);
        }
        CarriesHas(t[i], s[i]);
      }
    }
  }

  /** A scan finds the entry of a row just when every bit of every key is a bit of some column of the
      row. */
  lemma MatchIs(o: Options, row: Row, keys: seq<ScanKey>)
    requires ValidRow(o, row) && ValidKeys(o, keys) && forall i :: 0 <= i < |keys| ==> keys[i].value.Some?
    ensures |RowSign(o, row)| == o.length == |SetAll(Zero(o.length), KeyMasks(o, keys))|
    ensures Sub(SetAll(Zero(o.length), KeyMasks(o, keys)), RowSign(o, row)) <==>
            forall n: nat :: n < 16 * o.length && KeysSet(o, keys, n) ==> RowSets(o, row, n)
  {
    hide SetsBit, IsSet, SetAll, RowMasks, KeyMasks, Sub, RowSign;
    var s, t := SetAll(Zero(o.length), KeyMasks(o, keys)), RowSign(o, row);
    RowSignLength(o, row);
    SubIs(s, t);
    forall n: nat | n < 16 * o.length
      ensures (IsSet(s, n) <==> KeysSet(o, keys, n)) && (IsSet(t, n) <==> RowSets(o, row, n))
    {
      KeyBits(o, keys, n);
      RowBits(o, row, n);
    }
  }

  lemma RowSignLength(o: Options, row: Row)
    requires ValidRow(o, row)
    ensures |RowSign(o, row)| == o.length
  {
  }

  /** Some column of the row sets the bit. */
  ghost predicate RowSets(o: Options, row: Row, n: nat)
    requires ValidRow(o, row)
  {
    exists c :: 0 <= c < |row| && row[c].Some? && SetsBit(o, c, o.hash(c, row[c].value), n)
  }

  /** Some key of the scan sets the bit. */
  ghost predicate KeysSet(o: Options, keys: seq<ScanKey>, n: nat)
    requires ValidKeys(o, keys) && forall i :: 0 <= i < |keys| ==> keys[i].value.Some?
  {
    exists i :: 0 <= i < |keys| && SetsBit(o, keys[i].attno, o.hash(keys[i].attno, keys[i].value.value), n)
  }
}
