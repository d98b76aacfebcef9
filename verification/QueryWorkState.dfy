/** The query reader as it runs: a cursor over the text, the two-state lexer, and
    the operator stack, updated in place. */
module QueryWorkState {
  import opened QuerySyntax
  import opened QueryParser

  datatype LexState = WaitOperand | WaitOperator

  datatype Lexeme = LexEnd | LexErr | Lex(t: Token)

  datatype Status = Ended | Syntactic | Complex

  /** The tokens the lexer may return in a state. */
  predicate Allowed(st: LexState, t: Token)
  {
    match t
    case TVal(_) => st == WaitOperand
    case TOpen => st == WaitOperand
    case TClose => st == WaitOperator
    case TOpr(op) => st == if op == NotOp then WaitOperand else WaitOperator
    case TBad => false
  }

  function After(t: Token): LexState
  {
    match t
    case TVal(_) => WaitOperator
    case TClose => WaitOperator
    case _ => WaitOperand
  }

  function Nesting(t: Token): int
  {
    match t
    case TOpen => 1
    case TClose => -1
    case _ => 0
  }

  /** The token streams that the lexer refuses in a state with `count` open parentheses. */
  predicate Stuck(ts: seq<Token>, st: LexState, count: nat)
  {
    if ts == [] then st == WaitOperand || count != 0
    else
      || !Allowed(st, ts[0])
      || (ts[0] == TClose && count == 0)
      || (ts[0].TVal? && |ts| == 1 && count != 0)
  }

  lemma StuckIsSyntaxError(ts: seq<Token>, st: LexState, count: nat, stack: seq<Oper>, str: seq<Node>)
    requires Stuck(ts, st, count)
    ensures Pol(ts, st == WaitOperand, count, stack, str) == SyntaxError
  {
    if ts != [] && ts[0].TVal? && |ts| == 1 && st == WaitOperand {
      assert ts[1..] == [];
    }
  }

  lemma {:induction false} DigitRunAtLeast(text: string, k: nat)
    requires k <= |text| && forall i :: 0 <= i < k ==> IsDigit(text[i])
    ensures DigitRun(text) >= k
  {
    if k > 0 {
      DigitRunAtLeast(text[1..], k - 1);
    }
  }

  class WorkState {
    const text: string
    var pos: nat
    var state: LexState
    var count: int
    var str: seq<Node>  // postfix form so far, first element pushed first

    constructor (text: string)
      requires '\0' !in text
      ensures Valid() && this.text == text
      ensures pos == 0 && state == WaitOperand && count == 0 && str == []
    {
      this.text := text;
      pos, state, count, str := 0, WaitOperand, 0, [];
    }

    /** The text is a C string: no zero byte before its end. */
    ghost predicate Valid()
      reads this
    {
      pos <= |text| && '\0' !in text && count >= 0
    }

    /** The tokens still to be read. */
    ghost function Ahead(): seq<Token>
      reads this
      requires pos <= |text|
    {
      Tokenize(text[pos..])
    }

    function Cur(): (c: char)
      reads this
      requires pos <= |text| && '\0' !in text
      ensures c == '\0' <==> pos == |text|
    {
      if pos < |text| then text[pos] else '\0'
    }

    /** Skipping a space loses no token. */
    lemma SkipSpace()
      requires Valid() && pos < |text| && text[pos] == ' '
      ensures Tokenize(text[pos..]) == Tokenize(text[pos + 1..])
    {
      assert text[pos..][1..] == text[pos + 1..];
    }

    lemma TakeSymbol()
      requires Valid() && pos < |text| && text[pos] != ' ' && !StartsLiteral(text[pos])
      ensures var t := SymbolToken(text[pos]);
        Ahead() == if t.TBad? then [t] else [t] + Tokenize(text[pos + 1..])
    {
      assert text[pos..][1..] == text[pos + 1..];
    }

    lemma TakeLiteral(b: nat)
      requires pos <= |text| && b < pos && StartsLiteral(text[b])
      requires forall i :: b < i < pos ==> IsDigit(text[i])
      ensures pos == |text| || !IsDigit(text[pos]) ==>
        var t := LiteralToken(text[b..pos]);
        Tokenize(text[b..]) == if t.TBad? then [t] else [t] + Tokenize(text[pos..])
      ensures pos - b >= LITERALSIZE ==> Tokenize(text[b..]) == [TBad]
    {
      var r, k := text[b..], 1 + DigitRun(text[b..][1..]);
      DigitRunAtLeast(r[1..], pos - b - 1);
      assert pos == |text| || !IsDigit(text[pos]) ==> k == pos - b;
      assert pos == |text| || !IsDigit(text[pos]) ==> r[..k] == text[b..pos] && r[k..] == text[pos..];
    }

    method SkipSpaces()
      requires Valid()
      modifies this`pos
      ensures Valid() && old(pos) <= pos
      ensures Cur() != ' ' && Ahead() == old(Ahead())
    {
      while Cur() == ' '
        invariant old(pos) <= pos <= |text|
        invariant Ahead() == old(Ahead())
        decreases |text| - pos
      {
        SkipSpace();
        pos := pos + 1;
      }
    }

    /** Collects a literal in a buffer of fixed size. */
    method Collect() returns (literal: string)
      requires Valid() && pos < |text| && StartsLiteral(text[pos])
      modifies this`pos
      ensures old(pos) < pos <= |text| && literal == text[old(pos)..pos]
      ensures forall i :: old(pos) < i < pos ==> IsDigit(text[i])
      ensures |literal| <= LITERALSIZE
      ensures |literal| < LITERALSIZE ==> !IsDigit(Cur())
    {
      var nnn := new char[LITERALSIZE];
      nnn[0] := Cur();
      var innn := 1;
      pos := pos + 1;
      while innn < LITERALSIZE && IsDigit(Cur())
        invariant old(pos) < pos <= |text| && innn == pos - old(pos) <= LITERALSIZE
        invariant forall i :: 0 <= i < innn ==> nnn[i] == text[old(pos) + i]
        invariant forall i :: old(pos) < i < pos ==> IsDigit(text[i])
      {
        nnn[innn] := Cur();
        innn := innn + 1;
        pos := pos + 1;
      }
      literal := nnn[..innn];
    }

    /** The arm of the lexer that reads a literal. */
    method LexLiteral() returns (lx: Lexeme)
      requires Valid() && state == WaitOperand && pos < |text| && StartsLiteral(text[pos])
      modifies this`pos, this`state
      ensures old(pos) < pos <= |text|
      ensures lx.Lex? ==>
        && Valid() && state == WaitOperator && lx.t.TVal?
        && old(Ahead()) == [lx.t] + Ahead()
      ensures !lx.LexEnd?
      ensures lx.LexErr? ==> Stuck(old(Ahead()), WaitOperand, count)
    {
      var literal := Collect();
      TakeLiteral(old(pos));
      if |literal| >= LITERALSIZE {
        return LexErr;
      }
      var t := LiteralToken(literal);
      if t.TBad? {
        return LexErr;
      }
      state := WaitOperator;
      if count != 0 && Cur() == '\0' {
        assert text[pos..] == [];
        return LexErr;
      }
      return Lex(t);
    }

    /** The arm of the lexer that awaits an operand. */
    method LexOperand() returns (lx: Lexeme)
      requires Valid() && state == WaitOperand
      modifies this`pos, this`state, this`count
      ensures old(pos) <= pos <= |text|
      ensures lx.Lex? ==>
        && Valid() && old(pos) < pos
        && old(Ahead()) == [lx.t] + Ahead()
        && Allowed(WaitOperand, lx.t)
        && state == After(lx.t) && count == old(count) + Nesting(lx.t)
      ensures !lx.LexEnd?
      ensures lx.LexErr? ==> Stuck(old(Ahead()), WaitOperand, old(count))
    {
      SkipSpaces();
      if StartsLiteral(Cur()) {
        lx := LexLiteral();
      } else if Cur() == '!' {
        TakeSymbol();
        pos := pos + 1;
        return Lex(TOpr(NotOp));
      } else if Cur() == '(' {
        TakeSymbol();
        count := count + 1;
        pos := pos + 1;
        return Lex(TOpen);
      } else {
        if pos < |text| { TakeSymbol(); }
        return LexErr;
      }
    }

    /** The arm of the lexer that awaits an operator. */
    method LexOperator() returns (lx: Lexeme)
      requires Valid() && state == WaitOperator
      modifies this`pos, this`state, this`count
      ensures old(pos) <= pos <= |text|
      ensures lx.Lex? ==>
        && Valid() && old(pos) < pos
        && old(Ahead()) == [lx.t] + Ahead()
        && Allowed(WaitOperator, lx.t)
        && state == After(lx.t) && count == old(count) + Nesting(lx.t)
      ensures lx.LexEnd? ==> old(Ahead()) == [] && old(count) == 0
      ensures lx.LexEnd? ==> Valid() && state == WaitOperator && Ahead() == [] && count == 0
      ensures lx.LexErr? ==> Stuck(old(Ahead()), WaitOperator, old(count))
    {
      SkipSpaces();
      if Cur() == '&' || Cur() == '|' {
        TakeSymbol();
        var t := SymbolToken(Cur());
        state := WaitOperand;
        pos := pos + 1;
        return Lex(t);
      } else if Cur() == ')' {
        TakeSymbol();
        pos := pos + 1;
        count := count - 1;
        return if count < 0 then LexErr else Lex(TClose);
      } else if Cur() == '\0' {
        assert text[pos..] == [];
        return if count != 0 then LexErr else LexEnd;
      } else {
        if !StartsLiteral(Cur()) { TakeSymbol(); }
        return LexErr;
      }
    }

    /** One token, or the end of the text, or an error. */
    method GetToken() returns (lx: Lexeme)
      requires Valid()
      modifies this`pos, this`state, this`count
      ensures old(pos) <= pos <= |text|
      ensures lx.Lex? ==>
        && Valid() && old(pos) < pos
        && old(Ahead()) == [lx.t] + Ahead()
        && Allowed(old(state), lx.t)
        && state == After(lx.t) && count == old(count) + Nesting(lx.t)
      ensures lx.LexEnd? ==>
        && old(Ahead()) == [] && old(state) == WaitOperator && old(count) == 0
        && Valid() && state == WaitOperator && Ahead() == [] && count == 0
      ensures lx.LexErr? ==> Stuck(old(Ahead()), old(state), old(count))
    {
      if state == WaitOperand {
        lx := LexOperand();
      } else {
        lx := LexOperator();
      }
    }

    method PushQuery(n: Node)
      modifies this`str
      ensures str == old(str) + [n]
    {
      str := str + [n];
    }

    /** Applies the pending & and ! operators. */
    method Settle(stack: array<Oper>, lenstack: nat) returns (len: nat)
      requires lenstack <= stack.Length
      modifies this`str
      ensures len <= lenstack && stack[..len] == Settled(stack[..lenstack])
      ensures str == old(str) + Applied(stack[..lenstack])
    {
      len := lenstack;
      assert str + Applied(stack[..len]) == old(str) + Applied(stack[..lenstack]);
      while len > 0 && Binds(stack[len - 1])
        invariant 0 <= len <= lenstack
        invariant Settled(stack[..len]) == Settled(stack[..lenstack])
        invariant str + Applied(stack[..len]) == old(str) + Applied(stack[..lenstack])
      {
        assert stack[..len][..len - 1] == stack[..len - 1];
        len := len - 1;
        PushQuery(Opr(stack[len]));
      }
      assert Applied(stack[..len]) == [];
    }

    /** Applies every operator of the stack. */
    method Unwind(stack: array<Oper>, lenstack: nat)
      requires lenstack <= stack.Length
      modifies this`str
      ensures str == old(str) + Unwound(stack[..lenstack])
    {
      var len := lenstack;
      assert str + Unwound(stack[..len]) == old(str) + Unwound(stack[..lenstack]);
      while len > 0
        invariant 0 <= len <= lenstack
        invariant str + Unwound(stack[..len]) == old(str) + Unwound(stack[..lenstack])
      {
        assert stack[..len][..len - 1] == stack[..len - 1];
        len := len - 1;
        PushQuery(Opr(stack[len]));
      }
    }

    /** Reads one parenthesis level. */
    method MakePol() returns (r: Status)
      requires Valid() && state == WaitOperand
      modifies this
      ensures old(pos) <= pos <= |text|
      ensures r.Ended? ==>
        && Valid() && state == WaitOperator
        && old(pos) < pos
        && count == (if old(count) > 0 then old(count) - 1 else 0)
        && Pol(old(Ahead()), true, old(count), [], old(str)) == Done(Ahead(), str)
      ensures r.Syntactic? ==> Pol(old(Ahead()), true, old(count), [], old(str)) == SyntaxError
      ensures r.Complex? ==> Pol(old(Ahead()), true, old(count), [], old(str)) == TooComplex
      decreases |text| - pos
    {
      hide Tokenize;
      var stack := new Oper[STACKDEPTH];
      var lenstack: nat := 0;
      ghost var whole := Pol(Ahead(), true, count, [], str);
      while true
        invariant Valid() && old(pos) <= pos && lenstack <= STACKDEPTH && fresh(stack)
        invariant state == WaitOperator ==> old(pos) < pos
        invariant count == old(count)
        invariant Pol(Ahead(), state == WaitOperand, count, stack[..lenstack], str) == whole
        decreases |text| - pos
      {
        ghost var ts, st, str0 := Ahead(), state, str;
        var lx := GetToken();
        match lx
        case LexEnd =>
          Unwind(stack, lenstack);
          return Ended;
        case LexErr =>
          StuckIsSyntaxError(ts, st, old(count), stack[..lenstack], str);
          return Syntactic;
        case Lex(t) =>
          assert ts[1..] == Ahead();
          match t
          case TVal(n) =>
            PushQuery(Val(n));
            lenstack := Settle(stack, lenstack);
          case TOpr(op) =>
            if lenstack > 0 && op == OrOp {
              PushQuery(Opr(op));
            } else {
              if lenstack == STACKDEPTH {
                return Complex;
              }
              assert stack[..lenstack] + [op] == stack[..][lenstack := op][..lenstack + 1];
              stack[lenstack] := op;
              lenstack := lenstack + 1;
            }
          case TOpen =>
            var inner := MakePol();
            if inner != Ended {
              return inner;
            }
            lenstack := Settle(stack, lenstack);
          case TClose =>
            Unwind(stack, lenstack);
            return Ended;
      }
    }
  }
}
