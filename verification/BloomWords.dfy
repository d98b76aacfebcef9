/** Single bits of words, and exclusive or. */
module BloomWords {
  predicate Meets(w: bv16, m: bv16) { w & m != 0 }

  lemma MeetsIs(w: bv16, m: bv16)
    ensures Meets(w, m) <==> w & m != 0
  {
  }

  lemma MasksJoin(a: bv16, b: bv16, m: bv16)
    ensures (a | b) & m != 0 <==> a & m != 0 || b & m != 0
  {
  }

  lemma MeetsOr(a: bv16, b: bv16, m: bv16)
    ensures Meets(a | b, m) <==> Meets(a, m) || Meets(b, m)
  {
    hide *;
    MeetsIs(a, m);
    MeetsIs(b, m);
    MeetsIs(a | b, m);
    MasksJoin(a, b, m);
  }

  lemma NothingMeets(m: bv16)
    ensures !Meets(0, m)
  {
  }

  /** Exclusive or, as an unsigned integer. */
  function Xored(x: bv32, y: bv32): (r: int)
    ensures 0 <= r < 0x1_0000_0000
  {
    (x ^ y) as int
  }

  lemma AsIntBack(x: bv32)
    ensures (x as int) as bv32 == x
  {
  }

  lemma XoredIs(x: bv32, y: bv32)
    ensures Xored(x, y) as bv32 == x ^ y
  {
    AsIntBack(x ^ y);
  }

  lemma XorTwice(x: bv32, y: bv32)
    ensures (x ^ y) ^ y == x
  {
  }

  /** What was mixed comes back when the other word is mixed in once more. */
  lemma XoredBack(x: bv32, y: bv32)
    ensures (Xored(x, y) as bv32) ^ y == x
  {
    hide *;
    XoredIs(x, y);
    XorTwice(x, y);
  }

  // A word has all bits of a mask if it has each of them; four bits at a time.

  lemma FirstBits(w: bv16, m: bv16)
    requires m & 0x1 != 0 ==> w & 0x1 != 0
    requires m & 0x2 != 0 ==> w & 0x2 != 0
    requires m & 0x4 != 0 ==> w & 0x4 != 0
    requires m & 0x8 != 0 ==> w & 0x8 != 0
    ensures w & m & 0xf == m & 0xf
  {
  }

  lemma SecondBits(w: bv16, m: bv16)
    requires m & 0x10 != 0 ==> w & 0x10 != 0
    requires m & 0x20 != 0 ==> w & 0x20 != 0
    requires m & 0x40 != 0 ==> w & 0x40 != 0
    requires m & 0x80 != 0 ==> w & 0x80 != 0
    ensures w & m & 0xf0 == m & 0xf0
  {
  }

  lemma ThirdBits(w: bv16, m: bv16)
    requires m & 0x100 != 0 ==> w & 0x100 != 0
    requires m & 0x200 != 0 ==> w & 0x200 != 0
    requires m & 0x400 != 0 ==> w & 0x400 != 0
    requires m & 0x800 != 0 ==> w & 0x800 != 0
    ensures w & m & 0xf00 == m & 0xf00
  {
  }

  lemma FourthBits(w: bv16, m: bv16)
    requires m & 0x1000 != 0 ==> w & 0x1000 != 0
    requires m & 0x2000 != 0 ==> w & 0x2000 != 0
    requires m & 0x4000 != 0 ==> w & 0x4000 != 0
    requires m & 0x8000 != 0 ==> w & 0x8000 != 0
    ensures w & m & 0xf000 == m & 0xf000
  {
  }

  lemma AllBits(w: bv16, m: bv16)
    requires w & m & 0xf == m & 0xf && w & m & 0xf0 == m & 0xf0
    requires w & m & 0xf00 == m & 0xf00 && w & m & 0xf000 == m & 0xf000
    ensures w & m == m
  {
  }

  lemma MaskCarries(w: bv16, m: bv16, x: bv16)
    requires w & m == m
    ensures Meets(m, x) ==> Meets(w, x)
  {
  }
}
