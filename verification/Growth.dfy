/** Memory that is allotted in one piece, and buffers that grow by doubling. */
module Growth {
  /** The largest piece of memory that can be asked for. */
  const MAX_ALLOC: nat := 0x3fff_ffff

  /** Doubling `n` some number of times gives `top`. */
  predicate DoublesTo(n: nat, top: nat)
    requires n > 0
    decreases top - n
  {
    n == top || (2 * n <= top && DoublesTo(2 * n, top))
  }

  function Pow2(n: nat): (p: nat)
    ensures p > 0
  {
    if n == 0 then 1 else 2 * Pow2(n - 1)
  }

  lemma {:induction false} PowersDouble(n: nat, k: nat)
    ensures DoublesTo(Pow2(n), Pow2(n + k))
    decreases k
  {
    if k > 0 {
      PowersDouble(n + 1, k - 1);
      PowersGrow(n + 1, k - 1);
    }
  }

  lemma {:induction false} PowersGrow(n: nat, k: nat)
    ensures Pow2(n) <= Pow2(n + k)
    decreases k
  {
    if k > 0 {
      PowersGrow(n, k - 1);
    }
  }

  /** Buffers of 16 and 32 elements and the lengths that they grow to. */
  lemma BuffersDouble()
    ensures DoublesTo(16, 0x100_0000) && DoublesTo(16, 0x2000_0000) && DoublesTo(32, 0x2000_0000)
  {
    assert Pow2(4) == 16 && Pow2(5) == 32;
    assert Pow2(8) == 0x100 && Pow2(12) == 0x1000 && Pow2(16) == 0x1_0000 && Pow2(20) == 0x10_0000;
    assert Pow2(24) == 0x100_0000 && Pow2(28) == 0x1000_0000 && Pow2(29) == 0x2000_0000;
    PowersDouble(4, 20);
    PowersDouble(4, 25);
    PowersDouble(5, 24);
  }
}
