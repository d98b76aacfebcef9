/** Which token sequences the parser refuses, and for which of its two reasons, said by the grammar. */
module QueryErrors {
  import opened QuerySyntax
  import opened QueryParser

  /** Some text of the grammar begins like this. */
  ghost predicate Begins(p: seq<Token>)
  {
    exists s :: IsDisj(s) && p <= Tokens(s)
  }

  /** Some text of the grammar that fits the stack begins like this. */
  ghost predicate BeginsFitting(p: seq<Token>)
  {
    exists s :: IsDisj(s) && Fits(s, 0) && p <= Tokens(s)
  }

  ghost predicate StuckAt(ts: seq<Token>, n: nat)
    requires n <= |ts|
  {
    Begins(ts[..n]) && !BeginsFitting(ts[..n])
  }

  /** The tokens begin like texts of the grammar none of which fits the stack. */
  ghost predicate NeedsMoreStack(ts: seq<Token>)
  {
    exists n: nat :: n <= |ts| && StuckAt(ts, n)
  }

  /** The tokens are a text of the grammar, whether it fits the stack or not. */
  ghost predicate InGrammar(ts: seq<Token>)
  {
    exists s :: IsDisj(s) && Tokens(s) == ts
  }

  // ---------------------------------------------------------------- the parser token by token

  /** Whether an operand is awaited, and the operator stacks of all open parentheses. */
  datatype State = State(operand: bool, frames: seq<seq<Oper>>)

  datatype Run = At(state: State) | Bad | Over

  function Top(s: State): seq<Oper>
    requires s.frames != []
  {
    s.frames[|s.frames| - 1]
  }

  function WithTop(s: State, operand: bool, stack: seq<Oper>): State
    requires s.frames != []
  {
    State(operand, s.frames[..|s.frames| - 1] + [stack])
  }

  /** The state behind a closing parenthesis. */
  function Closed(outer: seq<seq<Oper>>): State
    requires outer != []
  {
    State(false, outer[..|outer| - 1] + [Settled(outer[|outer| - 1])])
  }

  function Step(s: State, t: Token): (r: Run)
    requires s.frames != []
    ensures r.At? ==> r.state.frames != []
  {
    if s.operand then
      match t
      case TVal(_) => At(WithTop(s, false, Settled(Top(s))))
      case TOpr(op) =>
        if op != NotOp then Bad
        else if |Top(s)| == STACKDEPTH then Over
        else At(WithTop(s, true, Top(s) + [NotOp]))
      case TOpen => At(State(true, s.frames + [[]]))
      case _ => Bad
    else
      match t
      case TOpr(op) =>
        if op == NotOp then Bad
        else if Top(s) != [] && op == OrOp then At(State(true, s.frames))
        else if |Top(s)| == STACKDEPTH then Over
        else At(WithTop(s, true, Top(s) + [op]))
      case TClose => if |s.frames| == 1 then Bad else At(Closed(s.frames[..|s.frames| - 1]))
      case _ => Bad
  }

  function Steps(s: State, ts: seq<Token>): (r: Run)
    requires s.frames != []
    ensures r.At? ==> r.state.frames != []
    decreases |ts|
  {
    if ts == [] then At(s)
    else
      match Step(s, ts[0])
      case At(next) => Steps(next, ts[1..])
      case Bad => Bad
      case Over => Over
  }

  function After(r: Run, ts: seq<Token>): Run
    requires r.At? ==> r.state.frames != []
  {
    if r.At? then Steps(r.state, ts) else r
  }

  lemma {:induction false} StepsAppend(s: State, a: seq<Token>, b: seq<Token>)
    requires s.frames != []
    ensures Steps(s, a + b) == After(Steps(s, a), b)
    decreases |a|
  {
    hide Step;
    if a == [] {
      assert a + b == b;
    } else {
      assert (a + b)[1..] == a[1..] + b;
      var r := Step(s, a[0]);
      if r.At? {
        StepsAppend(r.state, a[1..], b);
      }
    }
  }

  lemma StepsOne(s: State, t: Token)
    requires s.frames != []
    ensures Steps(s, [t]) == Step(s, t)
  {
    hide Step;
    assert [t][1..] == [];
  }

  /** The parse of the tokens of an open parenthesis, seen token by token. */
  ghost predicate Agrees(p: Parse, r: Run, outer: seq<seq<Oper>>)
  {
    match p
    case TooComplex => r.Over?
    case SyntaxError => r.Bad? || (r.At? && (r.state.operand || |r.state.frames| > 1))
    case Done(rest, _) =>
      if outer == [] then r.At? && !r.state.operand && |r.state.frames| == 1 && rest == []
      else r == Steps(Closed(outer), rest)
  }

  lemma {:induction false} PolAgrees(ts: seq<Token>, operand: bool, outer: seq<seq<Oper>>, stack: seq<Oper>,
                                     str: seq<Node>)
    ensures Agrees(Pol(ts, operand, |outer|, stack, str), Steps(State(operand, outer + [stack]), ts), outer)
    decreases |ts|
  {
    hide Settled, Applied, Unwound;
    var s := State(operand, outer + [stack]);
    assert Top(s) == stack && s.frames[..|s.frames| - 1] == outer;
    if ts != [] {
      match ts[0]
      case TVal(n) =>
        if operand {
          PolAgrees(ts[1..], false, outer, Settled(stack), str + [Val(n)] + Applied(stack));
        }
      case TOpr(op) =>
        if !operand && op == OrOp && stack != [] {
          PolAgrees(ts[1..], true, outer, stack, str + [Opr(OrOp)]);
        } else {
          PolAgrees(ts[1..], true, outer, stack + [op], str);
        }
      case TOpen =>
        if operand {
          var inner := Pol(ts[1..], true, |outer| + 1, [], str);
          PolAgrees(ts[1..], true, outer + [stack], [], str);
          assert (outer + [stack])[..|outer|] == outer;
          if inner.Done? {
            PolAgrees(inner.rest, false, outer, Settled(stack), inner.str + Applied(stack));
          }
        }
      case _ =>
    }
  }

  const START := State(true, [[]])

  lemma Outcome(ts: seq<Token>)
    ensures Agrees(Pol(ts, true, 0, [], []), Steps(START, ts), [])
  {
    hide Pol, Steps, Agrees;
    PolAgrees(ts, true, [], [], []);
    assert [] + [[]] == START.frames;
  }

  // ---------------------------------------------------------------- beginnings that fit

  function Closers(n: nat): seq<Token>
  {
    if n == 0 then [] else [TClose] + Closers(n - 1)
  }

  lemma {:induction false} ClosersRun(s: State)
    requires s.frames != [] && !s.operand
    ensures var r := Steps(s, Closers(|s.frames| - 1)); r.At? && !r.state.operand && |r.state.frames| == 1
    decreases |s.frames|
  {
    hide Settled;
    if |s.frames| > 1 {
      var next := Closed(s.frames[..|s.frames| - 1]);
      ClosersRun(next);
      assert Closers(|s.frames| - 1)[1..] == Closers(|next.frames| - 1);
    }
  }

  /** What completes a text from this state. */
  function Completion(s: State): seq<Token>
    requires s.frames != []
  {
    (if s.operand then [TVal(0)] else []) + Closers(|s.frames| - 1)
  }

  lemma CompletionRuns(s: State)
    requires s.frames != []
    ensures var r := Steps(s, Completion(s)); r.At? && !r.state.operand && |r.state.frames| == 1
  {
    hide Settled, Closers;
    if s.operand {
      var next := WithTop(s, false, Settled(Top(s)));
      ClosersRun(next);
      assert Completion(s)[1..] == Closers(|s.frames| - 1);
    } else {
      ClosersRun(s);
      assert Completion(s) == Closers(|s.frames| - 1);
    }
  }

  /** Whatever the parser can read the beginning of can be completed. */
  lemma Completed(p: seq<Token>) returns (s: Syntax)
    requires Steps(START, p).At?
    ensures IsDisj(s) && Fits(s, 0) && Tokens(s) == p + Completion(Steps(START, p).state)
  {
    hide Steps, Pol, IsDisj, Fits, Completion;
    var state := Steps(START, p).state;
    var ts := p + Completion(state);
    CompletionRuns(state);
    StepsAppend(START, p, Completion(state));
    Outcome(ts);
    var parse := Pol(ts, true, 0, [], []);
    AcceptsGrammar(ts, parse.str);
    s :| IsDisj(s) && Fits(s, 0) && Tokens(s) == ts && Postfix(Tree(s)) == parse.str;
  }

  lemma PrefixRuns(p: seq<Token>, ts: seq<Token>)
    requires p <= ts
    ensures Steps(START, ts).At? ==> Steps(START, p).At?
    ensures Steps(START, p).Bad? ==> Steps(START, ts).Bad?
    ensures Steps(START, p).Over? ==> Steps(START, ts).Over?
  {
    hide Steps;
    assert ts == p + ts[|p|..];
    StepsAppend(START, p, ts[|p|..]);
  }

  /** The parser reads a beginning if and only if a text that fits begins like it. */
  lemma ReadIffFits(p: seq<Token>)
    ensures Steps(START, p).At? <==> BeginsFitting(p)
  {
    hide Steps, Pol, IsDisj, Fits, Completion;
    if Steps(START, p).At? {
      var s := Completed(p);
      assert IsDisj(s) && Fits(s, 0) && p <= Tokens(s);
    }
    if BeginsFitting(p) {
      var s :| IsDisj(s) && Fits(s, 0) && p <= Tokens(s);
      FittingIsParsed(s);
      Outcome(Tokens(s));
      PrefixRuns(p, Tokens(s));
    }
  }

  // ---------------------------------------------------------------- beginnings of the grammar

  /** Read from a state that awaits an operand, a text of the grammar leads to one that does not,
      inside the same parentheses, unless a stack overflows on the way. */
  ghost predicate Through(s: State, r: Run)
  {
    r.Over? || (r.At? && !r.state.operand && |r.state.frames| == |s.frames|)
  }

  lemma {:induction false} GrammarRuns(s: State, x: Syntax)
    requires s.frames != [] && s.operand && IsDisj(x)
    ensures Through(s, Steps(s, Tokens(x)))
    decreases x, 1
  {
    hide Settled, Steps, Tokens, IsDisj;
    TokensParts(x);
    match x
    case Lit(n) => StepsOne(s, TVal(n));
    case Paren(b) =>
      var inner := State(true, s.frames + [[]]);
      StepsOne(s, TOpen);
      GrammarRuns(inner, b);
      StepsAppend(s, [TOpen], Tokens(b));
      StepsAppend(s, [TOpen] + Tokens(b), [TClose]);
      var r := Steps(inner, Tokens(b));
      if r.At? {
        StepsOne(r.state, TClose);
      }
    case Neg(y) =>
      StepsOne(s, TOpr(NotOp));
      StepsAppend(s, [TOpr(NotOp)], Tokens(y));
      var r := Step(s, TOpr(NotOp));
      if r.At? {
        GrammarRuns(r.state, y);
      }
    case Conj(_, _) => BinaryRuns(s, x, AndOp);
    case Disj(_, _) => BinaryRuns(s, x, OrOp);
  }

  lemma TokensParts(x: Syntax)
    ensures match x
            case Lit(n) => Tokens(x) == [TVal(n)]
            case Paren(b) => Tokens(x) == [TOpen] + Tokens(b) + [TClose]
            case Neg(y) => Tokens(x) == [TOpr(NotOp)] + Tokens(y)
            case Conj(l, r) => Tokens(x) == Tokens(l) + [TOpr(AndOp)] + Tokens(r)
            case Disj(l, r) => Tokens(x) == Tokens(l) + [TOpr(OrOp)] + Tokens(r)
    ensures IsDisj(x) ==>
              && (x.Paren? ==> IsDisj(x.body)) && (x.Neg? ==> IsDisj(x.arg))
              && (x.Conj? || x.Disj? ==> IsDisj(x.l) && IsDisj(x.r))
  {
    if IsDisj(x) {
      if x.Disj? {
        ConjIsDisj(x.r);
      } else {
        assert IsConj(x);
        if x.Conj? {
          ConjIsDisj(x.l);
          UnaryIsDisj(x.r);
        } else {
          assert IsUnary(x);
          if x.Neg? {
            UnaryIsDisj(x.arg);
          }
        }
      }
    }
  }

  lemma UnaryIsDisj(x: Syntax)
    requires IsUnary(x)
    ensures IsDisj(x)
  {
    assert IsConj(x);
  }

  lemma {:induction false} BinaryRuns(s: State, x: Syntax, op: Oper)
    requires s.frames != [] && s.operand && IsDisj(x)
    requires (x.Conj? && op == AndOp) || (x.Disj? && op == OrOp)
    ensures Through(s, Steps(s, Tokens(x)))
    decreases x, 0
  {
    hide Steps, Tokens, IsDisj;
    TokensParts(x);
    GrammarRuns(s, x.l);
    StepsAppend(s, Tokens(x.l), [TOpr(op)]);
    StepsAppend(s, Tokens(x.l) + [TOpr(op)], Tokens(x.r));
    var a := Steps(s, Tokens(x.l));
    if a.At? {
      StepsOne(a.state, TOpr(op));
      var b := Step(a.state, TOpr(op));
      if b.At? {
        GrammarRuns(b.state, x.r);
      }
    }
  }

  /** Where the parser finds the tokens bad, no text of the grammar begins like this. */
  lemma BadIsNoBeginning(p: seq<Token>)
    requires Steps(START, p).Bad?
    ensures !Begins(p)
  {
    hide Steps, IsDisj;
    if x :| IsDisj(x) && p <= Tokens(x) {
      GrammarRuns(START, x);
      PrefixRuns(p, Tokens(x));
    }
  }

  // ---------------------------------------------------------------- overflows

  /** The stacks hold at most one | below the operators that wait for an operand. */
  ghost predicate Low(s: State)
  {
    && s.frames != []
    && (forall i :: 0 <= i < |s.frames| ==> |Settled(s.frames[i])| <= 1)
    && (!s.operand ==> |Top(s)| <= 1)
  }

  lemma StepLow(s: State, t: Token)
    requires Low(s)
    ensures Step(s, t).At? ==> Low(Step(s, t).state)
    ensures Step(s, t).Over? ==> s.operand && t == TOpr(NotOp)
  {
    hide Settled;
    if t.TOpr? && Binds(t.op) {
      Pushed(Top(s), t.op);
    }
    assert Top(s) == s.frames[|s.frames| - 1];
  }

  /** A stack overflows only on a ! where an operand is awaited. */
  lemma {:induction false} FirstOver(s: State, ts: seq<Token>) returns (n: nat)
    requires Low(s) && Steps(s, ts).Over?
    ensures n < |ts| && ts[n] == TOpr(NotOp)
    ensures var r := Steps(s, ts[..n]); r.At? && r.state.operand && Step(r.state, ts[n]).Over?
    decreases |ts|
  {
    hide Step, Settled;
    StepLow(s, ts[0]);
    var r := Step(s, ts[0]);
    if r.Over? {
      n := 0;
      assert ts[..0] == [];
    } else {
      var m := FirstOver(r.state, ts[1..]);
      n := m + 1;
      assert ts[..n] == [ts[0]] + ts[1..][..m];
      assert ts[..n][1..] == ts[1..][..m];
    }
  }

  /** The syntax with a ! before the operand at `pos`. */
  function WithNot(s: Syntax, pos: nat): Syntax
    requires pos < |Tokens(s)| && Tokens(s)[pos].TVal?
  {
    match s
    case Lit(n) => Neg(s)
    case Paren(b) => Paren(WithNot(b, pos - 1))
    case Neg(x) => Neg(WithNot(x, pos - 1))
    case Conj(l, r) =>
      if pos < |Tokens(l)| then Conj(WithNot(l, pos), r) else Conj(l, WithNot(r, pos - |Tokens(l)| - 1))
    case Disj(l, r) =>
      if pos < |Tokens(l)| then Disj(WithNot(l, pos), r) else Disj(l, WithNot(r, pos - |Tokens(l)| - 1))
  }

  lemma {:induction false} WithNotKeeps(s: Syntax, pos: nat)
    requires pos < |Tokens(s)| && Tokens(s)[pos].TVal?
    ensures IsUnary(s) ==> IsUnary(WithNot(s, pos))
    ensures IsConj(s) ==> IsConj(WithNot(s, pos))
    ensures IsDisj(s) ==> IsDisj(WithNot(s, pos))
    decreases s
  {
    match s
    case Lit(_) =>
    case Paren(b) => WithNotKeeps(b, pos - 1);
    case Neg(x) => WithNotKeeps(x, pos - 1);
    case Conj(l, r) =>
      if pos < |Tokens(l)| {
        WithNotKeeps(l, pos);
      } else {
        WithNotKeeps(r, pos - |Tokens(l)| - 1);
      }
    case Disj(l, r) =>
      if pos < |Tokens(l)| {
        WithNotKeeps(l, pos);
      } else {
        WithNotKeeps(r, pos - |Tokens(l)| - 1);
      }
  }

  /** The tokens with a ! put in at `pos`. */
  function NotAt(ts: seq<Token>, pos: nat): seq<Token>
    requires pos <= |ts|
  {
    ts[..pos] + [TOpr(NotOp)] + ts[pos..]
  }

  lemma NotAtLeft(a: seq<Token>, b: seq<Token>, pos: nat)
    requires pos <= |a|
    ensures NotAt(a + b, pos) == NotAt(a, pos) + b
  {
  }

  lemma NotAtRight(a: seq<Token>, b: seq<Token>, pos: nat)
    requires |a| <= pos <= |a + b|
    ensures NotAt(a + b, pos) == a + NotAt(b, pos - |a|)
  {
  }

  lemma {:induction false} WithNotTokens(s: Syntax, pos: nat)
    requires pos < |Tokens(s)| && Tokens(s)[pos].TVal?
    ensures Tokens(WithNot(s, pos)) == NotAt(Tokens(s), pos)
    decreases s, 1
  {
    hide NotAt;
    match s
    case Lit(_) => LitWithNot(s);
    case Paren(b) =>
      WithNotTokens(b, pos - 1);
      NotAtLeft([TOpen] + Tokens(b), [TClose], pos);
      NotAtRight([TOpen], Tokens(b), pos);
    case Neg(x) =>
      WithNotTokens(x, pos - 1);
      NotAtRight([TOpr(NotOp)], Tokens(x), pos);
    case Conj(l, r) => BinaryWithNot(s, AndOp, pos);
    case Disj(l, r) => BinaryWithNot(s, OrOp, pos);
  }

  lemma LitWithNot(s: Syntax)
    requires s.Lit?
    ensures Tokens(WithNot(s, 0)) == NotAt(Tokens(s), 0)
  {
  }

  lemma {:induction false} BinaryWithNot(s: Syntax, op: Oper, pos: nat)
    requires (s.Conj? && op == AndOp) || (s.Disj? && op == OrOp)
    requires pos < |Tokens(s)| && Tokens(s)[pos].TVal?
    ensures Tokens(WithNot(s, pos)) == NotAt(Tokens(s), pos)
    decreases s, 0
  {
    hide NotAt, Tokens;
    TokensParts(s);
    TokensParts(WithNot(s, pos));
    var l, m, r := Tokens(s.l), [TOpr(op)], Tokens(s.r);
    if pos < |l| {
      WithNotTokens(s.l, pos);
      NotAtLeft(l + m, r, pos);
      NotAtLeft(l, m, pos);
    } else {
      WithNotTokens(s.r, pos - |l| - 1);
      NotAtRight(l + m, r, pos);
    }
  }

  /** A further ! leads on to some text of the grammar. */
  lemma NotBegins(p: seq<Token>)
    requires Steps(START, p).At? && Steps(START, p).state.operand
    ensures Begins(p + [TOpr(NotOp)])
  {
    hide Steps, IsDisj, Fits;
    var s := Completed(p);
    assert Tokens(s)[|p|] == TVal(0);
    WithNotKeeps(s, |p|);
    WithNotTokens(s, |p|);
    var x := WithNot(s, |p|);
    assert Tokens(s)[..|p|] == p;
    assert Tokens(x) == p + [TOpr(NotOp)] + Tokens(s)[|p|..];
  }

  lemma OverNeedsMore(ts: seq<Token>)
    requires Steps(START, ts).Over?
    ensures NeedsMoreStack(ts)
  {
    hide Steps, Step, Begins, BeginsFitting;
    assert Low(START);
    var n := FirstOver(START, ts);
    var p := ts[..n];
    assert ts[..n + 1] == p + [ts[n]];
    NotBegins(p);
    StepsAppend(START, p, [ts[n]]);
    StepsOne(Steps(START, p).state, ts[n]);
    ReadIffFits(ts[..n + 1]);
    assert StuckAt(ts, n + 1);
  }

  lemma NeedsMoreIsOver(ts: seq<Token>)
    requires NeedsMoreStack(ts)
    ensures Steps(START, ts).Over?
  {
    hide Steps, Begins, BeginsFitting;
    var n: nat :| n <= |ts| && StuckAt(ts, n);
    ReadIffFits(ts[..n]);
    if Steps(START, ts[..n]).Bad? {
      BadIsNoBeginning(ts[..n]);
    }
    PrefixRuns(ts[..n], ts);
  }

  /** The parser gives up for want of stack if and only if the tokens begin like texts of the
      grammar none of which fits; otherwise they are a syntax error if and only if they are no text
      of the grammar. */
  lemma ErrorsByGrammar(ts: seq<Token>)
    ensures Pol(ts, true, 0, [], []).TooComplex? <==> NeedsMoreStack(ts)
    ensures Pol(ts, true, 0, [], []).SyntaxError? <==> !NeedsMoreStack(ts) && !InGrammar(ts)
  {
    hide Steps, Pol, NeedsMoreStack, IsDisj, Fits;
    var p, r := Pol(ts, true, 0, [], []), Steps(START, ts);
    Outcome(ts);
    if r.Over? {
      OverNeedsMore(ts);
    }
    if NeedsMoreStack(ts) {
      NeedsMoreIsOver(ts);
    }
    if x :| IsDisj(x) && Tokens(x) == ts {
      GrammarRuns(START, x);
    }
    if p.Done? {
      AcceptsGrammar(ts, p.str);
    }
  }
}
