/** The parser of boolean queries on their tokens: an operator stack that turns them into
    postfix form, and the proof that it accepts exactly the token sequences of the grammar. */
module QueryParser {
  import opened Wrappers
  import opened QuerySyntax

  datatype Parse =
    | Done(rest: seq<Token>, str: seq<Node>)
    | SyntaxError
    | TooComplex

  lemma Assoc<T>(a: seq<T>, b: seq<T>, c: seq<T>)
    ensures a + b + c == a + (b + c)
  {
  }

  lemma Assoc4<T>(a: seq<T>, b: seq<T>, c: seq<T>, d: seq<T>)
    ensures a + b + c + d == a + (b + c + d) == a + b + (c + d)
  {
  }

  predicate Binds(op: Oper)
  {
    op == AndOp || op == NotOp
  }

  /** The stack after its pending & and ! operators have been applied. */
  function Settled(stack: seq<Oper>): (r: seq<Oper>)
    ensures |r| <= |stack|
    ensures r == stack[..|r|]
  {
    if stack != [] && Binds(stack[|stack| - 1]) then Settled(stack[..|stack| - 1]) else stack
  }

  /** The operators that settling moves to the output, in order. */
  function Applied(stack: seq<Oper>): seq<Node>
  {
    if stack != [] && Binds(stack[|stack| - 1]) then
      [Opr(stack[|stack| - 1])] + Applied(stack[..|stack| - 1])
    else []
  }

  /** All operators of the stack, topmost first. */
  function Unwound(stack: seq<Oper>): seq<Node>
  {
    if stack == [] then []
    else [Opr(stack[|stack| - 1])] + Unwound(stack[..|stack| - 1])
  }

  /** What the operator-stack parser makes of a token stream: `operand` says
      whether an operand is awaited, `depth` counts the open parentheses. */
  function Pol(ts: seq<Token>, operand: bool, depth: nat, stack: seq<Oper>, str: seq<Node>): (p: Parse)
    ensures p.Done? ==> |p.rest| <= |ts|
    ensures p.Done? && depth > 0 ==> |p.rest| < |ts|
    decreases |ts|
  {
    if ts == [] then
      if operand || depth != 0 then SyntaxError else Done([], str + Unwound(stack))
    else if operand then
      match ts[0]
      case TVal(n) => Pol(ts[1..], false, depth, Settled(stack), str + [Val(n)] + Applied(stack))
      case TOpr(op) =>
        if op != NotOp then SyntaxError
        else if |stack| == STACKDEPTH then TooComplex
        else Pol(ts[1..], true, depth, stack + [NotOp], str)
      case TOpen =>
        var inner := Pol(ts[1..], true, depth + 1, [], str);
        if !inner.Done? then inner
        else Pol(inner.rest, false, depth, Settled(stack), inner.str + Applied(stack))
      case _ => SyntaxError
    else
      match ts[0]
      case TOpr(op) =>
        if op == NotOp then SyntaxError
        else if stack != [] && op == OrOp then Pol(ts[1..], true, depth, stack, str + [Opr(OrOp)])
        else if |stack| == STACKDEPTH then TooComplex
        else Pol(ts[1..], true, depth, stack + [op], str)
      case TClose =>
        if depth == 0 then SyntaxError else Done(ts[1..], str + Unwound(stack))
      case _ => SyntaxError
  }

  // ---------------------------------------------------------------- completeness

  lemma {:induction false} Pushed(stack: seq<Oper>, op: Oper)
    requires Binds(op)
    ensures Settled(stack + [op]) == Settled(stack)
    ensures Applied(stack + [op]) == [Opr(op)] + Applied(stack)
  {
    assert (stack + [op])[..|stack|] == stack;
  }

  lemma {:induction false} UnaryStep(s: Syntax, rest: seq<Token>, depth: nat, stack: seq<Oper>, str: seq<Node>)
    requires IsUnary(s) && Fits(s, |stack|)
    ensures Pol(Tokens(s) + rest, true, depth, stack, str)
         == Pol(rest, false, depth, Settled(stack), str + Postfix(Tree(s)) + Applied(stack))
    decreases s, 0
  {
    hide Pol, Settled, Applied, Unwound;
    match s
    case Lit(n) =>
      ReadsVal(n, rest, depth, stack, str);
    case Neg(x) =>
      assert Tokens(s) + rest == [TOpr(NotOp)] + (Tokens(x) + rest);
      ReadsNot(Tokens(x) + rest, depth, stack, str);
      UnaryStep(x, rest, depth, stack + [NotOp], str);
      Pushed(stack, NotOp);
      Assoc4(str, Postfix(Tree(x)), [Opr(NotOp)], Applied(stack));
      Assoc(str, Postfix(Tree(x)), [Opr(NotOp)]);
    case Paren(b) =>
      var after := [TClose] + rest;
      assert Tokens(s) + rest == [TOpen] + (Tokens(b) + after);
      DisjStep(b, after, depth + 1, str);
      ReadsClose(rest, depth + 1, PendingStack(b), str + PendingStr(b));
      ReadsOpen(Tokens(b) + after, depth, stack, str);
      PendingUnwound(b, str);
  }

  // One token at a time.

  lemma ReadsVal(n: int, rest: seq<Token>, depth: nat, stack: seq<Oper>, str: seq<Node>)
    ensures Pol([TVal(n)] + rest, true, depth, stack, str)
         == Pol(rest, false, depth, Settled(stack), str + [Val(n)] + Applied(stack))
  {
    assert ([TVal(n)] + rest)[1..] == rest;
  }

  lemma ReadsNot(rest: seq<Token>, depth: nat, stack: seq<Oper>, str: seq<Node>)
    requires |stack| < STACKDEPTH
    ensures Pol([TOpr(NotOp)] + rest, true, depth, stack, str) == Pol(rest, true, depth, stack + [NotOp], str)
  {
    assert ([TOpr(NotOp)] + rest)[1..] == rest;
  }

  lemma ReadsOpen(rest: seq<Token>, depth: nat, stack: seq<Oper>, str: seq<Node>)
    requires Pol(rest, true, depth + 1, [], str).Done?
    ensures var inner := Pol(rest, true, depth + 1, [], str);
            Pol([TOpen] + rest, true, depth, stack, str) ==
            Pol(inner.rest, false, depth, Settled(stack), inner.str + Applied(stack))
  {
    assert ([TOpen] + rest)[1..] == rest;
  }

  lemma ReadsClose(rest: seq<Token>, depth: nat, stack: seq<Oper>, str: seq<Node>)
    requires depth > 0
    ensures Pol([TClose] + rest, false, depth, stack, str) == Done(rest, str + Unwound(stack))
  {
    assert ([TClose] + rest)[1..] == rest;
  }

  lemma {:induction false} ConjStep(s: Syntax, rest: seq<Token>, depth: nat, stack: seq<Oper>, str: seq<Node>)
    requires IsConj(s) && Fits(s, |stack|) && |stack| <= 1 && Settled(stack) == stack
    ensures Pol(Tokens(s) + rest, true, depth, stack, str)
         == Pol(rest, false, depth, stack, str + Postfix(Tree(s)))
    decreases s, 1
  {
    if s.Conj? {
      BinaryTokens(Tokens(s.l), AndOp, Tokens(s.r), rest);
      ConjStep(s.l, [TOpr(AndOp)] + (Tokens(s.r) + rest), depth, stack, str);
      AnotherFactor(s.r, rest, depth, stack, str + Postfix(Tree(s.l)));
      Assoc4(str, Postfix(Tree(s.l)), Postfix(Tree(s.r)), [Opr(AndOp)]);
    } else {
      UnaryStep(s, rest, depth, stack, str);
      NothingApplied(stack);
      assert str + Postfix(Tree(s)) + [] == str + Postfix(Tree(s));
    }
  }

  lemma {:induction false} AnotherFactor(r: Syntax, rest: seq<Token>, depth: nat, stack: seq<Oper>, str: seq<Node>)
    requires IsUnary(r) && Fits(r, |stack| + 1) && |stack| <= 1 && Settled(stack) == stack
    ensures Pol([TOpr(AndOp)] + (Tokens(r) + rest), false, depth, stack, str)
         == Pol(rest, false, depth, stack, str + Postfix(Tree(r)) + [Opr(AndOp)])
    decreases r, 1
  {
    assert ([TOpr(AndOp)] + (Tokens(r) + rest))[1..] == Tokens(r) + rest;
    UnaryStep(r, rest, depth, stack + [AndOp], str);
    Pushed(stack, AndOp);
    NothingApplied(stack);
    assert [Opr(AndOp)] + [] == [Opr(AndOp)];
  }

  lemma BinaryTokens(l: seq<Token>, op: Oper, r: seq<Token>, rest: seq<Token>)
    ensures l + [TOpr(op)] + r + rest == l + ([TOpr(op)] + (r + rest))
  {
  }

  lemma {:induction false} NothingApplied(stack: seq<Oper>)
    requires Settled(stack) == stack
    ensures Applied(stack) == []
  {
  }

  /** After a disjunction its last | is still on the stack. */
  function PendingStack(s: Syntax): seq<Oper>
  {
    if s.Disj? then [OrOp] else []
  }

  function PendingStr(s: Syntax): seq<Node>
  {
    match s
    case Disj(l, r) => Postfix(Tree(l)) + Postfix(Tree(r))
    case _ => Postfix(Tree(s))
  }

  lemma {:induction false} PendingUnwound(s: Syntax, str: seq<Node>)
    ensures str + PendingStr(s) + Unwound(PendingStack(s)) == str + Postfix(Tree(s))
  {
    assert Unwound([OrOp]) == [Opr(OrOp)];
  }

  lemma {:induction false} DisjStep(s: Syntax, rest: seq<Token>, depth: nat, str: seq<Node>)
    requires IsDisj(s) && Fits(s, 0)
    ensures Pol(Tokens(s) + rest, true, depth, [], str)
         == Pol(rest, false, depth, PendingStack(s), str + PendingStr(s))
    decreases s, 2
  {
    if s.Disj? {
      var Disj(l, r) := s;
      var after := [TOpr(OrOp)] + (Tokens(r) + rest);
      BinaryTokens(Tokens(l), OrOp, Tokens(r), rest);
      DisjStep(l, after, depth, str);
      assert after[1..] == Tokens(r) + rest;
      AnotherOr(l, after, depth, str);
      ConjStep(r, rest, depth, [OrOp], str + Postfix(Tree(l)));
      Assoc(str, Postfix(Tree(l)), Postfix(Tree(r)));
    } else {
      ConjStep(s, rest, depth, [], str);
    }
  }

  /** A further | applies the one that is pending. */
  lemma AnotherOr(l: Syntax, after: seq<Token>, depth: nat, str: seq<Node>)
    requires after != [] && after[0] == TOpr(OrOp)
    ensures Pol(after, false, depth, PendingStack(l), str + PendingStr(l))
         == Pol(after[1..], true, depth, [OrOp], str + Postfix(Tree(l)))
  {
    if l.Disj? {
      Assoc(str, PendingStr(l), [Opr(OrOp)]);
    } else {
      assert [] + [OrOp] == [OrOp];
    }
  }

  // ------------------------------------------------------------------ soundness

  /** What one parenthesis level has read while it awaits an operand: the operands
      of the pending | and & operators, and the number of pending ! operators. */
  datatype Context = Context(disj: Option<Syntax>, conj: Option<Syntax>, negs: nat)

  predicate ValidContext(c: Context)
  {
    && (c.disj.Some? ==> IsDisj(c.disj.value) && Fits(c.disj.value, 0))
    && (c.conj.Some? ==> IsConj(c.conj.value) && Fits(c.conj.value, DisjDepth(c)))
  }

  function DisjDepth(c: Context): nat
  {
    if c.disj.Some? then 1 else 0
  }

  function Nots(k: nat): (r: seq<Oper>)
    ensures |r| == k
  {
    if k == 0 then [] else Nots(k - 1) + [NotOp]
  }

  function ContextStack(c: Context): seq<Oper>
  {
    (if c.disj.Some? then [OrOp] else []) + (if c.conj.Some? then [AndOp] else []) + Nots(c.negs)
  }

  function OptStr(o: Option<Syntax>): seq<Node>
  {
    if o.Some? then Postfix(Tree(o.value)) else []
  }

  function ContextStr(c: Context): seq<Node>
  {
    OptStr(c.disj) + OptStr(c.conj)
  }

  function OptTokens(o: Option<Syntax>, op: Oper): seq<Token>
  {
    if o.Some? then Tokens(o.value) + [TOpr(op)] else []
  }

  function NotTokens(k: nat): seq<Token>
  {
    if k == 0 then [] else NotTokens(k - 1) + [TOpr(NotOp)]
  }

  function ContextTokens(c: Context): seq<Token>
  {
    OptTokens(c.disj, OrOp) + OptTokens(c.conj, AndOp) + NotTokens(c.negs)
  }

  function Negated(k: nat, s: Syntax): Syntax
  {
    if k == 0 then s else Negated(k - 1, Neg(s))
  }

  /** The conjunction that an operand `u` completes. */
  function Completed(c: Context, u: Syntax): Syntax
  {
    var n := Negated(c.negs, u);
    if c.conj.Some? then Conj(c.conj.value, n) else n
  }

  function Joined(disj: Option<Syntax>, s: Syntax): Syntax
  {
    if disj.Some? then Disj(disj.value, s) else s
  }

  lemma {:induction false} NotsApplied(k: nat)
    requires k > 0
    ensures Applied(Nots(k)) == [Opr(NotOp)] + Applied(Nots(k - 1))
  {
    assert Nots(k)[..k - 1] == Nots(k - 1);
  }

  /** Each `!` before an operand takes an entry of the stack, of which there are 16. */
  lemma {:induction false} NegationsFit(k: nat, base: nat, u: Syntax)
    ensures Fits(Negated(k, u), base) <==> (k == 0 || base + k <= 16) && Fits(u, base + k)
  {
    if k > 0 {
      NegationsFit(k - 1, base, Neg(u));
    }
  }

  lemma {:induction false} NegatedFits(k: nat, base: nat, u: Syntax)
    requires IsUnary(u) && base + k <= STACKDEPTH && Fits(u, base + k)
    ensures IsUnary(Negated(k, u)) && Fits(Negated(k, u), base)
  {
    if k > 0 {
      NegatedFits(k - 1, base, Neg(u));
    }
  }

  lemma {:induction false} NegatedTokens(k: nat, u: Syntax)
    ensures Tokens(Negated(k, u)) == NotTokens(k) + Tokens(u)
  {
    if k > 0 {
      NegatedTokens(k - 1, Neg(u));
      assert NotTokens(k - 1) + ([TOpr(NotOp)] + Tokens(u)) == NotTokens(k) + Tokens(u);
    }
  }

  lemma {:induction false} NegatedPostfix(k: nat, u: Syntax)
    ensures Postfix(Tree(Negated(k, u))) == Postfix(Tree(u)) + Applied(Nots(k))
  {
    if k > 0 {
      var p, q := Postfix(Tree(u)), Applied(Nots(k - 1));
      calc {
        Postfix(Tree(Negated(k, u)));
        { NegatedPostfix(k - 1, Neg(u)); }
        p + [Opr(NotOp)] + q;
        { Assoc(p, [Opr(NotOp)], q); }
        p + ([Opr(NotOp)] + q);
        { NotsApplied(k); }
        p + Applied(Nots(k));
      }
    }
  }

  lemma {:induction false} SettledOver(base: seq<Oper>, k: nat)
    ensures Settled(base + Nots(k)) == Settled(base)
  {
    if k == 0 {
      assert base + Nots(0) == base;
    } else {
      Assoc(base, Nots(k - 1), [NotOp]);
      Pushed(base + Nots(k - 1), NotOp);
      SettledOver(base, k - 1);
    }
  }

  lemma {:induction false} AppliedOver(base: seq<Oper>, top: seq<Oper>)
    requires forall i :: 0 <= i < |top| ==> Binds(top[i])
    ensures Applied(base + top) == Applied(top) + Applied(base)
    decreases |top|
  {
    if top == [] {
      assert base + top == base;
    } else {
      var low, op := top[..|top| - 1], top[|top| - 1];
      AppliedOver(base, low);
      Pushed(low, op);
      Pushed(base + low, op);
      assert low + [op] == top;
      Assoc(base, low, [op]);
      Assoc([Opr(op)], Applied(low), Applied(base));
    }
  }

  function LowStack(disj: Option<Syntax>): seq<Oper>
  {
    if disj.Some? then [OrOp] else []
  }

  lemma {:induction false} ContextSettled(c: Context)
    ensures Settled(ContextStack(c)) == LowStack(c.disj)
    ensures Applied(ContextStack(c)) == Applied(Nots(c.negs)) + if c.conj.Some? then [Opr(AndOp)] else []
  {
    var low := LowStack(c.disj);
    NotsBind(c.negs);
    assert Settled(low) == low && Applied(low) == [];
    if c.conj.Some? {
      Pushed(low, AndOp);
      SettledOver(low + [AndOp], c.negs);
      AppliedOver(low + [AndOp], Nots(c.negs));
    } else {
      assert low + [] == low;
      SettledOver(low, c.negs);
      AppliedOver(low, Nots(c.negs));
    }
  }

  lemma {:induction false} NotsBind(k: nat)
    ensures forall i :: 0 <= i < k ==> Binds(Nots(k)[i])
  {
    if k > 0 {
      NotsBind(k - 1);
    }
  }

  /** Reading an operand completes a conjunction. */
  lemma {:induction false} OperandStep(c: Context, u: Syntax)
    requires ValidContext(c) && |ContextStack(c)| <= STACKDEPTH
    requires IsUnary(u) && Fits(u, |ContextStack(c)|)
    ensures IsConj(Completed(c, u)) && Fits(Completed(c, u), DisjDepth(c))
    ensures Settled(ContextStack(c)) == LowStack(c.disj)
    ensures ContextStr(c) + Postfix(Tree(u)) + Applied(ContextStack(c))
         == OptStr(c.disj) + Postfix(Tree(Completed(c, u)))
    ensures ContextTokens(c) + Tokens(u) == OptTokens(c.disj, OrOp) + Tokens(Completed(c, u))
  {
    var pending := DisjDepth(c) + if c.conj.Some? then 1 else 0;
    NegatedFits(c.negs, pending, u);
    NegatedTokens(c.negs, u);
    NegatedPostfix(c.negs, u);
    ContextSettled(c);
    CompletedStr(OptStr(c.disj), c.conj, Postfix(Tree(u)), Applied(Nots(c.negs)));
    CompletedTokens(OptTokens(c.disj, OrOp), c.conj, NotTokens(c.negs), Tokens(u));
  }

  lemma CompletedStr(d: seq<Node>, conj: Option<Syntax>, p: seq<Node>, a: seq<Node>)
    ensures conj.Some? ==>
      (d + OptStr(conj)) + p + (a + [Opr(AndOp)]) == d + (OptStr(conj) + (p + a) + [Opr(AndOp)])
    ensures conj.None? ==> (d + OptStr(conj)) + p + (a + []) == d + (p + a)
  {
  }

  lemma CompletedTokens(d: seq<Token>, conj: Option<Syntax>, n: seq<Token>, u: seq<Token>)
    ensures d + OptTokens(conj, AndOp) + n + u == d + (OptTokens(conj, AndOp) + (n + u))
    ensures conj.None? ==> OptTokens(conj, AndOp) + (n + u) == n + u
  {
  }

  /** `p`, the outcome on `ts` after the tokens `before`, is the outcome of reading
      all of `s`: its tokens are consumed, then a closing parenthesis if one is open. */
  ghost predicate Reads(ts: seq<Token>, depth: nat, before: seq<Token>, str: seq<Node>, p: Parse,
                        s: Syntax, used: seq<Token>)
  {
    && p.Done?
    && IsDisj(s) && Fits(s, 0)
    && ts == used + p.rest
    && before + used == Tokens(s) + Closer(depth)
    && (depth == 0 ==> p.rest == [])
    && p.str == str + Postfix(Tree(s))
  }

  function Closer(depth: nat): seq<Token>
  {
    if depth > 0 then [TClose] else []
  }

  lemma ReadsMore(u: seq<Token>, ts: seq<Token>, depth: nat, before: seq<Token>, after: seq<Token>, str: seq<Node>,
                  p: Parse, s: Syntax, used: seq<Token>)
    requires before + u == after && Reads(ts, depth, after, str, p, s, used)
    ensures Reads(u + ts, depth, before, str, p, s, u + used)
  {
    assert before + (u + used) == before + u + used;
    assert u + used + p.rest == u + (used + p.rest);
  }

  /** The run from a state whose context is `c` has outcome `p`. */
  ghost predicate Runs(ts: seq<Token>, depth: nat, c: Context, str: seq<Node>, p: Parse)
  {
    && ValidContext(c) && |ContextStack(c)| <= STACKDEPTH
    && p.Done? && p == Pol(ts, true, depth, ContextStack(c), str + ContextStr(c))
  }

  lemma RunsCases(ts: seq<Token>, depth: nat, c: Context, str: seq<Node>, p: Parse)
    requires Runs(ts, depth, c, str, p)
    ensures ts != [] && (ts[0].TVal? || ts[0] == TOpr(NotOp) || ts[0] == TOpen)
    ensures ts[0].TVal? ==>
      && Fits(Lit(ts[0].n), |ContextStack(c)|)
      && p == Pol(ts[1..], false, depth, Settled(ContextStack(c)),
                  str + ContextStr(c) + Postfix(Tree(Lit(ts[0].n))) + Applied(ContextStack(c)))
    ensures ts[0] == TOpr(NotOp) ==>
      && Runs(ts[1..], depth, c.(negs := c.negs + 1), str, p)
      && ContextTokens(c.(negs := c.negs + 1)) == ContextTokens(c) + [ts[0]]
  {
    if ts[0] == TOpr(NotOp) {
      var d := c.(negs := c.negs + 1);
      assert ContextStack(d) == ContextStack(c) + [NotOp];
      assert ContextTokens(d) == ContextTokens(c) + [ts[0]];
    }
  }

  lemma ParenCase(ts: seq<Token>, depth: nat, c: Context, str: seq<Node>, p: Parse)
    returns (out: seq<Node>, inner: Parse)
    requires Runs(ts, depth, c, str, p) && ts != [] && ts[0] == TOpen
    ensures out == str + ContextStr(c)
    ensures Runs(ts[1..], depth + 1, Context(None, None, 0), out, inner) && |inner.rest| < |ts|
    ensures p == Pol(inner.rest, false, depth, Settled(ContextStack(c)), inner.str + Applied(ContextStack(c)))
  {
    out := str + ContextStr(c);
    EmptyContext(out);
    inner := Pol(ts[1..], true, depth + 1, [], out);
  }

  /** A run that ends while an operand was awaited. */
  lemma {:induction false} SoundOperand(ts: seq<Token>, depth: nat, c: Context, str: seq<Node>, p: Parse)
    returns (s: Syntax, used: seq<Token>)
    requires Runs(ts, depth, c, str, p)
    ensures Reads(ts, depth, ContextTokens(c), str, p, s, used)
    decreases |ts|, 3
  {
    hide Pol, Settled, Applied, ContextStack, ContextStr, ContextTokens;
    RunsCases(ts, depth, c, str, p);
    var u := [ts[0]];
    if ts[0] == TOpen {
      var out, inner := ParenCase(ts, depth, c, str, p);
      var b, used1 := SoundOperand(ts[1..], depth + 1, Context(None, None, 0), out, inner);
      EmptyContext(out);
      assert [] + used1 == used1;
      u := [TOpen] + used1;
      Assoc([TOpen], Tokens(b), [TClose]);
      s, used := SoundAfterOperand(inner.rest, depth, c, Paren(b), str, p);
      Assoc([TOpen], used1, inner.rest);
      ReadsMore(u, inner.rest, depth, ContextTokens(c), ContextTokens(c) + u, str, p, s, used);
    } else {
      if ts[0].TVal? {
        s, used := SoundAfterOperand(ts[1..], depth, c, Lit(ts[0].n), str, p);
      } else {
        s, used := SoundOperand(ts[1..], depth, c.(negs := c.negs + 1), str, p);
      }
      ReadsMore(u, ts[1..], depth, ContextTokens(c), ContextTokens(c) + u, str, p, s, used);
    }
    assert ts == [ts[0]] + ts[1..];
    used := u + used;
  }

  lemma EmptyContext(str: seq<Node>)
    ensures var c := Context(None, None, 0);
      ContextStack(c) == [] && str + ContextStr(c) == str && ContextTokens(c) == []
  {
  }

  lemma {:induction false} SoundAfterOperand(ts: seq<Token>, depth: nat, c: Context, u: Syntax,
                                             str: seq<Node>, p: Parse)
    returns (s: Syntax, used: seq<Token>)
    requires ValidContext(c) && |ContextStack(c)| <= STACKDEPTH
    requires IsUnary(u) && Fits(u, |ContextStack(c)|)
    requires p.Done? && p == Pol(ts, false, depth, Settled(ContextStack(c)),
                                 str + ContextStr(c) + Postfix(Tree(u)) + Applied(ContextStack(c)))
    ensures Reads(ts, depth, ContextTokens(c) + Tokens(u), str, p, s, used)
    decreases |ts|, 2
  {
    OperandStep(c, u);
    var done := Completed(c, u);
    Assoc(str, ContextStr(c), Postfix(Tree(u)));
    Assoc(str, ContextStr(c) + Postfix(Tree(u)), Applied(ContextStack(c)));
    Assoc(str, OptStr(c.disj), Postfix(Tree(done)));
    s, used := SoundOperator(ts, depth, c.disj, done, str, p);
  }

  lemma ConjIsDisj(s: Syntax)
    requires IsConj(s)
    ensures IsDisj(s)
  {
  }

  /** Ending a level unwinds the pending |. */
  lemma JoinedFacts(disj: Option<Syntax>, conj: Syntax, str: seq<Node>)
    requires ValidContext(Context(disj, Some(conj), 0))
    ensures IsDisj(Joined(disj, conj)) && Fits(Joined(disj, conj), 0)
    ensures Tokens(Joined(disj, conj)) == OptTokens(disj, OrOp) + Tokens(conj)
    ensures str + OptStr(disj) + Postfix(Tree(conj)) + Unwound(LowStack(disj)) ==
            str + Postfix(Tree(Joined(disj, conj)))
  {
    ConjIsDisj(conj);
    assert Unwound([OrOp]) == [Opr(OrOp)];
  }

  /** A run that ends while an operator was awaited, `conj` being the conjunction
      read so far. */
  lemma {:induction false} SoundOperator(ts: seq<Token>, depth: nat, disj: Option<Syntax>, conj: Syntax,
                                         str: seq<Node>, p: Parse)
    returns (s: Syntax, used: seq<Token>)
    requires ValidContext(Context(disj, Some(conj), 0))
    requires p.Done? && p == Pol(ts, false, depth, LowStack(disj), str + OptStr(disj) + Postfix(Tree(conj)))
    ensures Reads(ts, depth, OptTokens(disj, OrOp) + Tokens(conj), str, p, s, used)
    decreases |ts|, 1
  {
    var whole := Joined(disj, conj);
    JoinedFacts(disj, conj, str);
    if ts == [] {
      s, used := whole, [];
    } else if ts[0] == TClose {
      s, used := whole, [TClose];
      assert ts == [TClose] + ts[1..];
    } else {
      var c := NextRun(ts, depth, disj, conj, str, p);
      s, used := SoundOperand(ts[1..], depth, c, str, p);
      ReadsMore([ts[0]], ts[1..], depth, Tokens(whole), ContextTokens(c), str, p, s, used);
      assert ts == [ts[0]] + ts[1..];
      used := [ts[0]] + used;
    }
  }

  lemma NextRun(ts: seq<Token>, depth: nat, disj: Option<Syntax>, conj: Syntax, str: seq<Node>, p: Parse)
    returns (c: Context)
    requires ValidContext(Context(disj, Some(conj), 0)) && ts != [] && ts[0] != TClose
    requires p.Done? && p == Pol(ts, false, depth, LowStack(disj), str + OptStr(disj) + Postfix(Tree(conj)))
    ensures Runs(ts[1..], depth, c, str, p)
    ensures ContextTokens(c) == Tokens(Joined(disj, conj)) + [ts[0]]
  {
    NextContext(disj, conj, str);
    NoNegs(str + OptStr(disj) + Postfix(Tree(conj)));
    c := if ts[0] == TOpr(AndOp) then Context(disj, Some(conj), 0) else Context(Some(Joined(disj, conj)), None, 0);
  }

  lemma NextContext(disj: Option<Syntax>, conj: Syntax, str: seq<Node>)
    requires ValidContext(Context(disj, Some(conj), 0))
    ensures
      var c := Context(disj, Some(conj), 0);
      && ContextStack(c) == LowStack(disj) + [AndOp]
      && str + ContextStr(c) == str + OptStr(disj) + Postfix(Tree(conj))
      && ContextTokens(c) == Tokens(Joined(disj, conj)) + [TOpr(AndOp)]
    ensures
      var c := Context(Some(Joined(disj, conj)), None, 0);
      && ValidContext(c)
      && ContextStack(c) == [OrOp] == [] + [OrOp]
      && str + ContextStr(c) == str + OptStr(disj) + Postfix(Tree(conj)) + (if disj.Some? then [Opr(OrOp)] else [])
      && ContextTokens(c) == Tokens(Joined(disj, conj)) + [TOpr(OrOp)]
  {
    JoinedFacts(disj, conj, str);
    assert Unwound([OrOp]) == [Opr(OrOp)];
    Assoc(str, OptStr(disj), Postfix(Tree(conj)));
    Assoc(OptTokens(disj, OrOp), Tokens(conj), [TOpr(AndOp)]);
    NoNegs(LowStack(disj) + [AndOp]);
    NoNegs(OptTokens(disj, OrOp) + (Tokens(conj) + [TOpr(AndOp)]));
    NoNegs(Postfix(Tree(Joined(disj, conj))));
    NoNegs([OrOp]);
    NoNegs(Tokens(Joined(disj, conj)) + [TOpr(OrOp)]);
  }

  lemma NoNegs<T>(s: seq<T>)
    ensures s + [] == s
  {
  }

  /** The stack parser accepts a token stream exactly when it is the token stream of
      some syntax tree of the grammar that fits the stack; the output is then the
      postfix form of that tree. */
  lemma {:induction false} AcceptsGrammar(ts: seq<Token>, str: seq<Node>)
    ensures Pol(ts, true, 0, [], []) == Done([], str)
       <==> exists s :: IsDisj(s) && Fits(s, 0) && Tokens(s) == ts && Postfix(Tree(s)) == str
  {
    var p := Pol(ts, true, 0, [], []);
    if p == Done([], str) {
      EmptyContext([]);
      var s, used := SoundOperand(ts, 0, Context(None, None, 0), [], p);
      assert [] + used == used == ts;
      assert Tokens(s) + Closer(0) == Tokens(s);
      assert IsDisj(s) && Fits(s, 0) && Tokens(s) == ts && Postfix(Tree(s)) == str;
    }
    if exists s :: IsDisj(s) && Fits(s, 0) && Tokens(s) == ts && Postfix(Tree(s)) == str {
      var s :| IsDisj(s) && Fits(s, 0) && Tokens(s) == ts && Postfix(Tree(s)) == str;
      assert Tokens(s) + [] == ts;
      DisjStep(s, [], 0, []);
      PendingUnwound(s, []);
      assert [] + Postfix(Tree(s)) == str;
    }
  }

  lemma FittingIsParsed(s: Syntax)
    requires IsDisj(s) && Fits(s, 0)
    ensures Pol(Tokens(s), true, 0, [], []) == Done([], Postfix(Tree(s)))
  {
    AcceptsGrammar(Tokens(s), Postfix(Tree(s)));
  }
}
