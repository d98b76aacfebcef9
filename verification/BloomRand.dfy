/** The random number generator behind bloom signatures. */
module BloomRand {
  import opened MachineInt

  const MODULUS: int := 0x7fff_ffff
  const MULTIPLIER: int := 16807

  /** Division and remainder that round towards zero. */
  function TruncDiv(a: int, b: int): int
    requires b > 0
  {
    if a >= 0 then a / b else -((-a) / b)
  }

  function TruncMod(a: int, b: int): int
    requires b > 0
  {
    a - b * TruncDiv(a, b)
  }

  predicate IsInt32(x: int) { INT32_MIN <= x <= INT32_MAX }

  /** A 32-bit pattern as a signed integer. */
  function AsInt32(x: int): int
    requires 0 <= x < 0x1_0000_0000
  {
    if x > INT32_MAX then x - 0x1_0000_0000 else x
  }

  /** The range that the generator is meant to stay in. */
  predicate InRange(x: int) { 1 <= x <= 0x7fff_fffe }

  /** The state after one step. */
  function Next(x: int): int
  {
    var t := MULTIPLIER * TruncMod(x, 127773) - 2836 * TruncDiv(x, 127773);
    if t < 0 then t + MODULUS else t
  }

  /** The state that a seed gives. */
  function Seeded(seed: int): int
    requires 0 <= seed < 0x1_0000_0000
  {
    TruncMod(AsInt32(seed), 0x7fff_fffe) + 1
  }

  // ---------------------------------------------------------------- the step

  /** The step in two halves is the step as a whole, up to a multiple of the modulus. */
  lemma StepSplit(x: int)
    requires -MODULUS < x < MODULUS
    ensures var hi, lo := TruncDiv(x, 127773), TruncMod(x, 127773);
            && IsInt32(MULTIPLIER * lo) && IsInt32(2836 * hi) && IsInt32(MULTIPLIER * lo - 2836 * hi)
            && MULTIPLIER * x == MODULUS * hi + (MULTIPLIER * lo - 2836 * hi)
            && -MODULUS < MULTIPLIER * lo - 2836 * hi < MODULUS
  {
    var hi, lo := TruncDiv(x, 127773), TruncMod(x, 127773);
    assert x == 127773 * hi + lo;
    if x >= 0 {
      assert 0 <= lo <= 127772 && 0 <= hi <= 16807;
    } else {
      assert -127772 <= lo <= 0 && -16807 <= hi <= 0;
    }
  }

  /** The multiplier has an inverse, so only multiples of the modulus step to zero. */
  lemma NoZero(x: int, q: int)
    requires MULTIPLIER * x == MODULUS * q
    ensures x % MODULUS == 0
  {
    var u := 1407677000 * q - 11017 * x;
    assert 1407677000 * (MULTIPLIER * x) == x + MODULUS * (11017 * x);
    assert x == MODULUS * u;
    MultipleOf(u);
  }

  lemma MultipleOf(u: int)
    ensures (MODULUS * u) % MODULUS == 0
  {
  }

  /** From every state but zero a step leads into the range. */
  lemma StepEntersRange(x: int)
    requires -MODULUS < x < MODULUS && x != 0
    ensures InRange(Next(x))
  {
    hide TruncDiv, TruncMod;
    StepSplit(x);
    var hi, lo := TruncDiv(x, 127773), TruncMod(x, 127773);
    var t := MULTIPLIER * lo - 2836 * hi;
    if t == 0 {
      NoZero(x, hi);
      assert false;
    }
  }

  /** Inside the range a step multiplies, modulo 2^31 - 1. */
  lemma StepMultiplies(x: int)
    requires InRange(x)
    ensures InRange(Next(x)) && Next(x) == MULTIPLIER * x % MODULUS
  {
    hide TruncDiv, TruncMod;
    StepSplit(x);
    StepEntersRange(x);
    var hi, lo := TruncDiv(x, 127773), TruncMod(x, 127773);
    var t := MULTIPLIER * lo - 2836 * hi;
    var q := if t < 0 then hi - 1 else hi;
    RemainderIs(MULTIPLIER * x, q, Next(x));
  }

  lemma RemainderIs(a: int, q: int, r: int)
    requires a == MODULUS * q + r && 0 <= r < MODULUS
    ensures a % MODULUS == r
  {
  }

  /** State zero never leaves zero. */
  lemma ZeroStays()
    ensures Next(0) == 0
  {
  }

  // ---------------------------------------------------------------- seeding

  /** Seeds that put the generator out of action. */
  predicate BadSeed(seed: int) { seed == 0xffff_ffff || seed == 0x8000_0001 }

  /** Which seeds give a state in range, which give zero, and what the others give. */
  lemma SeededIs(seed: int)
    requires 0 <= seed < 0x1_0000_0000
    ensures InRange(Seeded(seed)) <==> seed < 0x8000_0000 || seed == 0x8000_0002
    ensures Seeded(seed) == 0 <==> BadSeed(seed)
    ensures -MODULUS < Seeded(seed) < MODULUS
  {
    var n := AsInt32(seed);
    if n < 0 {
      assert 0 < -n <= 0x8000_0000;
      if -n < 0x7fff_fffe {
        assert (-n) / 0x7fff_fffe == 0;
      } else {
        assert (-n) / 0x7fff_fffe == 1;
      }
    } else if n < 0x7fff_fffe {
      assert n / 0x7fff_fffe == 0;
    } else {
      assert n / 0x7fff_fffe == 1;
    }
  }

  // ---------------------------------------------------------------- many steps

  function Iterate(x: int, n: nat): int
  {
    if n == 0 then x else Next(Iterate(x, n - 1))
  }

  /** Whatever the seed, all numbers drawn lie in [0, 0x7ffffffd], or all are -1; the latter for
      two seeds only. */
  lemma {:induction false} AllDraws(seed: int, n: nat)
    requires 0 <= seed < 0x1_0000_0000 && n > 0
    ensures if BadSeed(seed) then Iterate(Seeded(seed), n) - 1 == -1
            else 0 <= Iterate(Seeded(seed), n) - 1 <= 0x7fff_fffd
    decreases n
  {
    hide Next, Seeded;
    SeededIs(seed);
    ZeroStays();
    if n > 1 {
      AllDraws(seed, n - 1);
      if !BadSeed(seed) {
        StepEntersRange(Iterate(Seeded(seed), n - 1));
      }
    } else {
      assert Iterate(Seeded(seed), 1) == Next(Iterate(Seeded(seed), 0));
      if !BadSeed(seed) {
        StepEntersRange(Seeded(seed));
      }
    }
  }

  /** From a state in range the draws follow the powers of the multiplier. */
  lemma {:induction false} DrawsArePowers(x: int, n: nat)
    requires InRange(x)
    ensures InRange(Iterate(x, n)) && Iterate(x, n) == Power(n) * x % MODULUS
    decreases n
  {
    hide Next;
    if n > 0 {
      DrawsArePowers(x, n - 1);
      StepMultiplies(Iterate(x, n - 1));
      MultiplyRemainder(Power(n - 1) * x);
      assert MULTIPLIER * (Power(n - 1) * x) == Power(n) * x;
    } else {
      RemainderIs(x, 0, x);
    }
  }

  function Power(n: nat): int
  {
    if n == 0 then 1 else MULTIPLIER * Power(n - 1)
  }

  lemma MultiplyRemainder(a: int)
    ensures MULTIPLIER * (a % MODULUS) % MODULUS == MULTIPLIER * a % MODULUS
  {
    var q, r := a / MODULUS, a % MODULUS;
    var q2, r2 := MULTIPLIER * r / MODULUS, MULTIPLIER * r % MODULUS;
    assert MULTIPLIER * a == MODULUS * (MULTIPLIER * q + q2) + r2;
    RemainderIs(MULTIPLIER * a, MULTIPLIER * q + q2, r2);
  }

  /** The generator's single global variable. */
  class Generator {
    var next: int

    constructor ()
      ensures next == 0
    {
      next := 0;
    }

    method MyRand() returns (r: int)
      requires -MODULUS < next < MODULUS
      modifies this
      ensures next == Next(old(next)) && r == next - 1
      ensures -MODULUS < next < MODULUS
      ensures if old(next) == 0 then next == 0 && r == -1 else InRange(next) && 0 <= r <= 0x7fff_fffd
      ensures InRange(old(next)) ==> next == MULTIPLIER * old(next) % MODULUS
    {
      hide TruncDiv, TruncMod, Next;
      StepSplit(next);
      StepIs(next);
      ZeroStays();
      if next != 0 { StepEntersRange(next); }
      if InRange(next) { StepMultiplies(next); }
      var hi := TruncDiv(next, 127773);
      var lo := TruncMod(next, 127773);
      var x := MULTIPLIER * lo - 2836 * hi;
      if x < 0 {
        x := x + 0x7fff_ffff;
      }
      next := x;
      return x - 1;
    }

    method MySrand(seed: int)
      requires 0 <= seed < 0x1_0000_0000
      modifies this
      ensures next == Seeded(seed) && -MODULUS < next < MODULUS
      ensures InRange(next) <==> seed < 0x8000_0000 || seed == 0x8000_0002
      ensures next == 0 <==> BadSeed(seed)
    {
      SeededIs(seed);
      next := AsInt32(seed);
      next := TruncMod(next, 0x7fff_fffe) + 1;
    }
  }

  lemma StepIs(x: int)
    ensures var t := MULTIPLIER * TruncMod(x, 127773) - 2836 * TruncDiv(x, 127773);
            Next(x) == if t < 0 then t + MODULUS else t
  {
  }
}
