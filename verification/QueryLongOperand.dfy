/** A query that is accepted although its last offset does not fit: it is stored as zero. */
module QueryLongOperand {
  import opened Wrappers
  import opened Growth
  import opened QuerySyntax
  import opened QueryItems
  import opened QueryInput
  import opened QueryPrinter

  /** A balanced disjunction of height `k`. */
  function Wide(k: nat): Expr
  {
    if k == 0 then Num(1) else Or(Wide(k - 1), Wide(k - 1))
  }

  lemma {:induction false} WideSize(k: nat)
    ensures |Postfix(Wide(k))| == Pow2(k + 1) - 1 && InRange(Wide(k))
    decreases k
  {
    if k > 0 {
      WideSize(k - 1);
    }
  }

  /** Its text is read as the same tree. */
  lemma {:induction false} WideIsRead(k: nat, first: bool)
    ensures Tree(Concrete(Wide(k), first)) == Wide(k)
    decreases k
  {
    if k > 0 {
      WideIsRead(k - 1, false);
    }
  }

  lemma Sizes()
    ensures |Postfix(Wide(15))| == 0xffff && |Postfix(Wide(16))| == 0x1_ffff
  {
    assert Pow2(4) == 16 && Pow2(8) == 0x100 && Pow2(12) == 0x1000 && Pow2(16) == 0x1_0000 && Pow2(17) == 0x2_0000;
    WideSize(15);
    WideSize(16);
  }

  /** The text of the disjunction of height 16 is accepted. */
  lemma LongOperandAccepted()
    ensures '\0' !in Print(Wide(16), true)
    ensures Denotes(Print(Wide(16), true), Concrete(Wide(16), true)) && Tree(Concrete(Wide(16), true)) == Wide(16)
    ensures !ShortRights(Wide(16))
  {
    hide Wide, Postfix, Print, Concrete, ShortRights;
    Sizes();
    WideSize(16);
    RoundTrip(Wide(16));
    WideIsRead(16, true);
    LongRight(16);
  }

  lemma LongRight(k: nat)
    requires k > 0 && |Postfix(Wide(k - 1))| >= 0x8000
    ensures !ShortRights(Wide(k))
  {
  }

  /** However it is stored, its root is an operator with offset zero, which is not the offset of
      its left operand, and no depth of recursion suffices to evaluate it. */
  lemma LongOperandStuck(items: seq<Item>, calcnot: bool, chk: nat -> bool, depth: nat)
    requires Stored(items, |items| - 1, Wide(16))
    ensures items != [] && items[|items| - 1] == Item(Opr(OrOp), 0) && Offset(Wide(16)) == -0x1_0000
    ensures !Linked(items, |items| - 1, Wide(16))
    ensures Evaluate(items, |items| - 1, calcnot, chk, depth) == None
  {
    hide *;
    Sizes();
    StuckAt(items, 16, calcnot, chk, depth);
  }

  lemma StuckAt(items: seq<Item>, k: nat, calcnot: bool, chk: nat -> bool, depth: nat)
    requires k > 0 && |Postfix(Wide(k - 1))| == 0xffff && Stored(items, |items| - 1, Wide(k))
    ensures items != [] && items[|items| - 1] == Item(Opr(OrOp), 0) && Offset(Wide(k)) == -0x1_0000
    ensures !Linked(items, |items| - 1, Wide(k))
    ensures Evaluate(items, |items| - 1, calcnot, chk, depth) == None
  {
    hide Postfix, Evaluate;
    LongRight(k);
    StoredIsLinked(items, |items| - 1, Wide(k));
    SelfLinkNeverEnds(items, |items| - 1, calcnot, chk, depth);
  }
}
