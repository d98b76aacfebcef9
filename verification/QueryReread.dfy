/** Output of a stored query followed by input of the text, and queries whose text is too long for
    the output. */
module QueryReread {
  import opened Wrappers
  import opened MachineInt
  import opened QuerySyntax
  import opened QueryItems
  import opened QueryInput
  import opened QueryPrinter

  /** The items store an expression that is true of the same arrays, with links that are as good. */
  ghost predicate SameQuery(items: seq<Item>, e: Expr)
  {
    exists t ::
      && |items| == |Postfix(t)| && Stored(items, |items| - 1, t)
      && (forall a :: Meaning(t, a) == Meaning(e, a)) && (ShortRights(e) ==> ShortRights(t))
  }

  /** A stored query comes back with the same meaning if its text can be printed, and not at all
      if not. */
  method Reread(items: seq<Item>, ghost e: Expr) returns (r: Option<seq<Item>>)
    requires EndsWith(items, |items|, e) && InRange(e) && |Postfix(e)| <= QUERYTYPEMAXITEMS
    ensures r.Some? <==> Prints(e, true, 0)
    ensures r.Some? ==> SameQuery(r.value, e)
  {
    hide Prints, Print, Concrete, Denotes, Stored, EndsWith, Meaning, ShortRights, Tree, Postfix, InRange;
    var text := QueryOut(items, e);
    if text.None? {
      return None;
    }
    RoundTrip(e);
    var q := QueryIn(text.value);
    var t := Tree(Concrete(e, true));
    return Some(q.items);
  }

  // ---------------------------------------------------------------- texts that are too long

  /** A disjunction of the longest literals. */
  function Chain(n: nat): Expr
  {
    if n == 0 then Num(INT32_MIN) else Or(Chain(n - 1), Num(INT32_MIN))
  }

  lemma LongestLiteral()
    ensures |IntText(INT32_MIN)| == 11
  {
    assert Power10(9) == 1_000_000_000;
    IntTextShort(INT32_MIN);
    NatTextDigits(-INT32_MIN, 9);
  }

  lemma {:induction false} ChainSize(n: nat)
    ensures |Postfix(Chain(n))| == 2 * n + 1 && InRange(Chain(n)) && ShortRights(Chain(n))
    ensures |Print(Chain(n), false)| == 18 * n + 11
    ensures n > 0 ==> |Print(Chain(n), true)| == 18 * n + 7
    decreases n
  {
    hide IntText;
    LongestLiteral();
    if n > 0 {
      ChainSize(n - 1);
    }
  }

  lemma {:induction false} ChainIsRead(n: nat, first: bool)
    ensures Tree(Concrete(Chain(n), first)) == Chain(n)
    decreases n
  {
    if n > 0 {
      ChainIsRead(n - 1, false);
    }
  }

  /** From 29826163 literals on, a disjunction of them is accepted and cannot be printed. */
  lemma LongTextNotPrinted(n: nat)
    requires n >= 29826162 && 2 * n + 1 <= QUERYTYPEMAXITEMS
    ensures var text := Print(Chain(n), true);
            '\0' !in text && Denotes(text, Concrete(Chain(n), true)) && Tree(Concrete(Chain(n), true)) == Chain(n)
    ensures !Prints(Chain(n), true, 0)
  {
    hide Chain, Print, Concrete, Prints, Denotes, Postfix, InRange, ShortRights, Tree;
    ChainSize(n);
    ChainIsRead(n, true);
    RoundTrip(Chain(n));
    PrintsBounds(Chain(n), true, 0);
  }
}
