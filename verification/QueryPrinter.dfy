/** Output of stored queries as infix text, and the proof that the text is read back
    as a query with the same meaning. */
module QueryPrinter {
  import opened Wrappers
  import opened MachineInt
  import opened Growth
  import opened QuerySyntax
  import opened QueryParser
  import opened QueryItems
  import opened QueryInput

  // ------------------------------------------------------------------ the text

  function DigitChar(d: nat): (c: char)
    requires d < 10
    ensures IsDigit(c) && Digit(c) == d
  {
    '0' + d as char
  }

  function NatText(n: nat): (s: string)
    ensures |s| > 0 && forall i :: 0 <= i < |s| ==> IsDigit(s[i])
  {
    if n < 10 then [DigitChar(n)] else NatText(n / 10) + [DigitChar(n % 10)]
  }

  /** An integer as printf's %d writes it. */
  function IntText(n: int): (s: string)
    ensures |s| > 0 && StartsLiteral(s[0]) && forall i :: 1 <= i < |s| ==> IsDigit(s[i])
  {
    if n < 0 then "-" + NatText(-n) else NatText(n)
  }

  /** The infix text of an expression. Only a nested disjunction, or an operator under
      a negation, gets parentheses; `first` marks a disjunction that stands alone. */
  function Print(e: Expr, first: bool): string
  {
    match e
    case Num(n) => IntText(n)
    case Not(x) => if x.Num? then "!" + Print(x, false) else "!( " + Print(x, true) + " )"
    case And(l, r) => Print(l, false) + " & " + Print(r, false)
    case Or(l, r) =>
      var body := Print(l, false) + " | " + Print(r, false);
      if first then body else "( " + body + " )"
  }

  function Between(e: Expr): string
  {
    if e.And? then " & " else " | "
  }

  /** How operators are set out. */
  lemma PrintedForms(x: int, y: int, z: int)
    ensures Print(Not(Num(x)), true) == "!" + IntText(x)
    ensures Print(Or(And(Num(x), Num(y)), Num(z)), true) == IntText(x) + " & " + IntText(y) + " | " + IntText(z)
    ensures Print(And(Num(x), Or(Num(y), Num(z))), true)
            == IntText(x) + " & " + ("( " + (IntText(y) + " | " + IntText(z)) + " )")
    ensures Print(Not(Or(Num(x), Num(y))), true) == "!( " + (IntText(x) + " | " + IntText(y)) + " )"
    ensures Print(Not(Not(Num(x))), true) == "!( " + ("!" + IntText(x)) + " )"
  {
    hide IntText;
    assert Print(Or(Num(y), Num(z)), false) == "( " + (IntText(y) + " | " + IntText(z)) + " )";
    assert Print(And(Num(x), Num(y)), false) == IntText(x) + " & " + IntText(y);
  }

  // The text grows in a buffer whose length doubles.

  /** The length at which a buffer cannot be doubled any more. */
  const LAST_BUFFER: nat := 0x2000_0000

  /** Room for `add` more characters, and a terminator, behind `at` of them. */
  predicate HasRoom(at: nat, add: nat) { at + add + 1 < LAST_BUFFER }

  /** Whether there is room at every point of printing `e` behind `at` characters. A number reserves
      eleven; the right operand of a binary operator has a buffer of its own. */
  predicate Prints(e: Expr, first: bool, at: nat)
    decreases e, 1
  {
    match e
    case Num(_) => HasRoom(at, 11)
    case Not(x) =>
      HasRoom(at, 1) &&
      if x.Num? then Prints(x, false, at + 1)
      else HasRoom(at + 1, 2) && Prints(x, true, at + 3) && HasRoom(at + 3 + |Print(x, true)|, 2)
    case And(_, _) => PrintsBinary(e, at)
    case Or(l, r) =>
      if first then PrintsBinary(e, at)
      else
        && HasRoom(at, 2) && PrintsBinary(e, at + 2)
        && HasRoom(at + 2 + |Print(l, false)| + 3 + |Print(r, false)|, 2)
  }

  predicate PrintsBinary(e: Expr, at: nat)
    requires IsBinary(e)
    decreases e, 0
  {
    && Prints(e.r, false, 0) && Prints(e.l, false, at)
    && HasRoom(at + |Print(e.l, false)|, 3 + |Print(e.r, false)|)
  }

  /** The printer as it runs: a cursor that moves down the items and a growing text.
      The right operand comes first in the items, so it is printed aside. */
  class Infix {
    var curpol: int
    var buf: string
    var buflen: nat

    ghost predicate Valid()
      reads this
    {
      buflen > 0 && DoublesTo(buflen, LAST_BUFFER)
    }

    constructor (curpol: int, buflen: nat)
      requires buflen > 0 && DoublesTo(buflen, LAST_BUFFER)
      ensures Valid() && this.curpol == curpol && buf == ""
    {
      this.curpol, buf, this.buflen := curpol, "", buflen;
    }

    /** Doubles the buffer until it has room, or fails when it would become too large. */
    method Reserve(addsize: nat) returns (ok: bool)
      requires Valid()
      modifies this`buflen
      ensures Valid() && (ok <==> HasRoom(|buf|, addsize))
    {
      while |buf| + addsize + 1 >= buflen
        invariant Valid() && buflen <= LAST_BUFFER
        decreases LAST_BUFFER - buflen
      {
        if 2 * buflen > MAX_ALLOC {
          return false;
        }
        buflen := 2 * buflen;
      }
      return true;
    }

    method Append(s: string, addsize: nat) returns (ok: bool)
      requires Valid()
      modifies this`buf, this`buflen
      ensures Valid() && (ok <==> HasRoom(|old(buf)|, addsize))
      ensures ok ==> buf == old(buf) + s
    {
      ok := Reserve(addsize);
      if ok {
        buf := buf + s;
      }
    }

    method Run(items: seq<Item>, first: bool, ghost e: Expr) returns (ok: bool)
      requires Valid() && EndsWith(items, curpol + 1, e)
      modifies this
      ensures Valid() && (ok <==> Prints(e, first, |old(buf)|))
      ensures ok ==> curpol == old(curpol) - |Postfix(e)| && buf == old(buf) + Print(e, first)
      decreases e, 1
    {
      EndsWithParts(items, curpol + 1, e);
      match items[curpol].node {
        case Val(n) =>
          ok := Append(IntText(n), 11);
          curpol := curpol - 1;
        case Opr(op) =>
          if op == NotOp {
            curpol := curpol - 1;
            ok := RunNot(items, first, e.e);
          } else {
            ok := RunBinary(items, first, e);
          }
      }
    }

    method RunNot(items: seq<Item>, ghost first: bool, ghost e: Expr) returns (ok: bool)
      requires Valid() && EndsWith(items, curpol + 1, e)
      modifies this
      ensures Valid() && (ok <==> Prints(Not(e), first, |old(buf)|))
      ensures ok ==> curpol == old(curpol) - |Postfix(e)| && buf == old(buf) + Print(Not(e), first)
      decreases e, 2
    {
      hide HasRoom, PrintsBinary;
      EndsWithParts(items, curpol + 1, e);
      ghost var was := buf;
      ok := Append("!", 1);
      if !ok {
        return;
      }
      var isopr := items[curpol].node.Opr?;
      if isopr {
        ok := Append("( ", 2);
        if !ok {
          return;
        }
      }
      ok := Run(items, isopr, e);
      if !ok {
        return;
      }
      if isopr {
        ok := Append(" )", 2);
        assert was + "!" + "( " + Print(e, true) + " )" == was + ("!( " + Print(e, true) + " )");
      } else {
        assert was + "!" + Print(e, false) == was + ("!" + Print(e, false));
      }
    }

    method RunBinary(items: seq<Item>, first: bool, ghost e: Expr) returns (ok: bool)
      requires Valid() && EndsWith(items, curpol + 1, e) && IsBinary(e)
      modifies this
      ensures Valid() && (ok <==> Prints(e, first, |old(buf)|))
      ensures ok ==> curpol == old(curpol) - |Postfix(e)| && buf == old(buf) + Print(e, first)
      decreases e, 0
    {
      EndsWithParts(items, curpol + 1, e);
      ghost var was := buf;
      var op := items[curpol].node.op;
      var nested := op == OrOp && !first;
      curpol := curpol - 1;
      if nested {
        ok := Append("( ", 2);
        if !ok {
          return;
        }
      }
      ok := RunOperands(items, e, op);
      if !ok {
        return;
      }
      if nested {
        ok := Append(" )", 2);
      }
      BinaryText(was, e, first);
    }

    method RunOperands(items: seq<Item>, ghost e: Expr, op: Oper) returns (ok: bool)
      requires Valid() && IsBinary(e) && Root(e) == Opr(op)
      requires EndsWith(items, curpol + 1, e.r) && EndsWith(items, curpol + 1 - |Postfix(e.r)|, e.l)
      modifies this
      ensures Valid() && (ok <==> PrintsBinary(e, |old(buf)|))
      ensures ok ==> curpol == old(curpol) - |Postfix(e.r)| - |Postfix(e.l)|
      ensures ok ==> buf == old(buf) + Print(e.l, false) + (Between(e) + Print(e.r, false))
      decreases e, 0, 0
    {
      BuffersDouble();
      var nrm := new Infix(curpol, 16);
      ok := nrm.Run(items, false, e.r);
      if !ok {
        return;
      }
      assert nrm.buf == Print(e.r, false);
      curpol := nrm.curpol;
      ok := Run(items, false, e.l);
      if !ok {
        return;
      }
      ok := Append((if op == AndOp then " & " else " | ") + nrm.buf, 3 + |nrm.buf|);
    }
  }

  lemma BinaryText(pre: string, e: Expr, first: bool)
    requires IsBinary(e)
    ensures
      var l, r := Print(e.l, false), Print(e.r, false);
      if e.Or? && !first then pre + "( " + l + (Between(e) + r) + " )" == pre + Print(e, first)
      else pre + l + (Between(e) + r) == pre + Print(e, first)
  {
    var l, r := Print(e.l, false), Print(e.r, false);
    if e.Or? && !first {
      assert pre + "( " + l + (Between(e) + r) + " )" == pre + ("( " + (l + Between(e) + r) + " )");
    } else {
      assert pre + l + (Between(e) + r) == pre + (l + Between(e) + r);
    }
  }

  /** Stored query to text, or nothing when the text is too long. */
  method QueryOut(items: seq<Item>, ghost e: Expr) returns (text: Option<string>)
    requires EndsWith(items, |items|, e)
    ensures text == if Prints(e, true, 0) then Some(Print(e, true)) else None
  {
    BuffersDouble();
    var nrm := new Infix(|items| - 1, 32);
    var ok := nrm.Run(items, true, e);
    assert "" + Print(e, true) == Print(e, true);
    text := if ok then Some(nrm.buf) else None;
  }

  function Power10(n: nat): (p: nat)
    ensures p > 0
  {
    if n == 0 then 1 else 10 * Power10(n - 1)
  }

  lemma {:induction false} NatTextDigits(n: nat, digits: nat)
    requires digits > 0
    ensures n < Power10(digits) ==> |NatText(n)| <= digits
    ensures n >= Power10(digits) ==> |NatText(n)| > digits
    decreases n
  {
    assert Power10(0) == 1;
    if n >= 10 && digits > 1 {
      NatTextDigits(n / 10, digits - 1);
    }
  }

  lemma IntTextShort(n: int)
    requires INT32_MIN <= n <= INT32_MAX
    ensures |IntText(n)| <= 11
  {
    assert Power10(10) == 10_000_000_000;
    NatTextDigits(if n < 0 then -n else n, 10);
  }

  /** Texts that leave twelve characters free below the limit are printed, and no text that
      reaches it. */
  lemma {:induction false} PrintsBounds(e: Expr, first: bool, at: nat)
    requires InRange(e)
    ensures at + |Print(e, first)| + 12 < LAST_BUFFER ==> Prints(e, first, at)
    ensures Prints(e, first, at) ==> at + |Print(e, first)| + 1 < LAST_BUFFER
    decreases e
  {
    match e
    case Num(n) => IntTextShort(n);
    case Not(x) =>
      PrintsBounds(x, false, at + 1);
      PrintsBounds(x, true, at + 3);
    case And(l, r) =>
      PrintsBounds(l, false, at);
      PrintsBounds(r, false, 0);
      assert Prints(e, first, at) <==> PrintsBinary(e, at);
    case Or(l, r) =>
      PrintsBounds(l, false, at);
      PrintsBounds(l, false, at + 2);
      PrintsBounds(r, false, 0);
      assert first ==> (Prints(e, first, at) <==> PrintsBinary(e, at));
  }

  // ------------------------------------------------------------------ reading it back

  lemma {:induction false} InBaseAppend(base: nat, a: string, b: string, acc: int)
    requires forall i :: 0 <= i < |a| ==> IsDigit(a[i]) && Digit(a[i]) < base
    ensures InBase(base, a + b, acc) == InBase(base, b, InBase(base, a, acc))
    decreases a
  {
    if a == [] {
      assert a + b == b;
    } else {
      assert (a + b)[1..] == a[1..] + b;
      InBaseAppend(base, a[1..], b, base * acc + Digit(a[0]));
    }
  }

  lemma {:induction false} NatTextValue(n: nat)
    ensures InBase(10, NatText(n), 0) == n
    ensures n > 0 ==> NatText(n)[0] != '0'
  {
    var d := [DigitChar(n % 10)];
    if n >= 10 {
      NatTextValue(n / 10);
      InBaseAppend(10, NatText(n / 10), d, 0);
      assert d[1..] == [];
      assert InBase(10, d, n / 10) == 10 * (n / 10) + n % 10;
    } else {
      assert NatText(n)[1..] == [];
    }
  }

  lemma NatTextMagnitude(n: nat)
    ensures Magnitude(NatText(n)) == n
  {
    NatTextValue(n);
    if n == 0 {
      assert NatText(0)[1..] == [];
    }
  }

  lemma IntTextValue(n: int)
    ensures StrToL(IntText(n)) == n
  {
    if n < 0 {
      NatTextMagnitude(-n);
      assert IntText(n)[1..] == NatText(-n);
    } else {
      NatTextMagnitude(n);
    }
  }

  lemma IntTextToken(n: int)
    requires INT32_MIN <= n <= INT32_MAX
    ensures LiteralToken(IntText(n)) == TVal(n)
  {
    IntTextValue(n);
    IntTextShort(n);
  }

  /** Tokens of a text are not disturbed by what follows, unless a literal at its end
      would be continued. */
  lemma {:induction false} TokenizeAppend(a: string, b: string)
    requires TBad !in Tokenize(a)
    requires a == [] || !StartsLiteral(a[|a| - 1]) || b == [] || !IsDigit(b[0])
    ensures Tokenize(a + b) == Tokenize(a) + Tokenize(b)
    decreases |a|
  {
    hide Tokenize, FirstTokens;
    if a == [] {
      NoTokens();
      assert a + b == b;
    } else {
      FirstToken(a);
      var first, rest := FirstTokens(a), a[FirstLength(a)..];
      calc {
        Tokenize(a + b);
        { FirstOfAppend(a, b); FirstToken(a + b); }
        first + Tokenize(rest + b);
        { TokenizeAppend(rest, b); }
        first + (Tokenize(rest) + Tokenize(b));
        first + Tokenize(rest) + Tokenize(b);
      }
    }
  }

  function FirstLength(a: string): (k: nat)
    requires a != []
    ensures 1 <= k <= |a|
  {
    if StartsLiteral(a[0]) then 1 + DigitRun(a[1..]) else 1
  }

  /** The token, if any, that a text begins with. */
  function FirstTokens(a: string): seq<Token>
    requires a != []
  {
    if a[0] == ' ' then []
    else if StartsLiteral(a[0]) then [LiteralToken(a[..FirstLength(a)])]
    else [SymbolToken(a[0])]
  }

  lemma FirstToken(a: string)
    requires a != []
    ensures if TBad in FirstTokens(a) then TBad in Tokenize(a)
            else Tokenize(a) == FirstTokens(a) + Tokenize(a[FirstLength(a)..])
  {
  }

  lemma FirstOfAppend(a: string, b: string)
    requires a != [] && (!StartsLiteral(a[|a| - 1]) || b == [] || !IsDigit(b[0]))
    ensures FirstLength(a + b) == FirstLength(a) && FirstTokens(a + b) == FirstTokens(a)
    ensures (a + b)[FirstLength(a)..] == a[FirstLength(a)..] + b
  {
    if StartsLiteral(a[0]) {
      assert (a + b)[1..] == a[1..] + b;
      DigitRunAppend(a[1..], b);
    }
    assert (a + b)[..FirstLength(a)] == a[..FirstLength(a)];
  }

  lemma {:induction false} DigitRunAppend(a: string, b: string)
    requires DigitRun(a) < |a| || b == [] || !IsDigit(b[0])
    ensures DigitRun(a + b) == DigitRun(a)
    decreases |a|
  {
    if a == [] {
      assert a + b == b;
    } else if IsDigit(a[0]) {
      assert (a + b)[1..] == a[1..] + b;
      DigitRunAppend(a[1..], b);
    }
  }

  lemma LiteralTokens(n: int)
    requires INT32_MIN <= n <= INT32_MAX
    ensures Tokenize(IntText(n)) == [TVal(n)]
  {
    var s := IntText(n);
    IntTextToken(n);
    AllDigits(s[1..]);
    assert s[..|s|] == s && s[|s|..] == [];
  }

  lemma {:induction false} AllDigits(s: string)
    requires forall i :: 0 <= i < |s| ==> IsDigit(s[i])
    ensures DigitRun(s) == |s|
  {
    if s != [] {
      AllDigits(s[1..]);
    }
  }

  /** `r` joined on the right of a conjunction, whose text has no parentheses there. */
  function Reassociated(l: Syntax, r: Syntax): Syntax
  {
    match r
    case Conj(r1, r2) => Conj(Reassociated(l, r1), r2)
    case _ => Conj(l, r)
  }

  /** How the printed text is read. */
  function Concrete(e: Expr, first: bool): Syntax
  {
    match e
    case Num(n) => Lit(n)
    case Not(x) => Neg(if x.Num? then Lit(x.n) else Paren(Concrete(x, true)))
    case And(l, r) => Reassociated(Concrete(l, false), Concrete(r, false))
    case Or(l, r) =>
      var d := Disj(Concrete(l, false), Concrete(r, false));
      if first then d else Paren(d)
  }

  predicate InRange(e: Expr)
  {
    match e
    case Num(n) => INT32_MIN <= n <= INT32_MAX
    case Not(x) => InRange(x)
    case And(l, r) => InRange(l) && InRange(r)
    case Or(l, r) => InRange(l) && InRange(r)
  }

  lemma {:induction false} ReassociatedTokens(l: Syntax, r: Syntax)
    ensures Tokens(Reassociated(l, r)) == Tokens(l) + [TOpr(AndOp)] + Tokens(r)
    decreases r
  {
    if r.Conj? {
      ReassociatedTokens(l, r.l);
      var a, b, c, d := Tokens(l) + [TOpr(AndOp)], Tokens(r.l), [TOpr(AndOp)], Tokens(r.r);
      assert a + b + c + d == a + (b + c + d);
    }
  }

  lemma {:induction false} ReassociatedMeaning(l: Syntax, r: Syntax, a: set<int>)
    ensures Meaning(Tree(Reassociated(l, r)), a) == (Meaning(Tree(l), a) && Meaning(Tree(r), a))
    decreases r
  {
    if r.Conj? {
      ReassociatedMeaning(l, r.l, a);
    }
  }

  lemma {:induction false} ReassociatedSize(l: Syntax, r: Syntax)
    ensures |Postfix(Tree(Reassociated(l, r)))| == |Postfix(Tree(l))| + |Postfix(Tree(r))| + 1
    decreases r
  {
    if r.Conj? {
      ReassociatedSize(l, r.l);
    }
  }

  /** Factors that need at most one pending ! each. */
  predicate Shallow(s: Syntax)
  {
    match s
    case Lit(_) => true
    case Paren(b) => IsDisj(b) && Fits(b, 0)
    case Neg(x) => x.Lit? || (x.Paren? && Shallow(x))
    case Conj(l, r) => Shallow(l) && Shallow(r) && !r.Conj?
    case Disj(_, _) => false
  }

  lemma {:induction false} ShallowIsConj(s: Syntax, pending: nat)
    requires Shallow(s) && pending < STACKDEPTH - (if s.Conj? then 1 else 0)
    ensures IsConj(s) && Fits(s, pending)
    ensures !s.Conj? ==> IsUnary(s)
    decreases s
  {
    if s.Conj? {
      ShallowIsConj(s.l, pending);
      ShallowIsConj(s.r, pending + 1);
    }
  }

  lemma {:induction false} ReassociatedShallow(l: Syntax, r: Syntax)
    requires Shallow(l) && Shallow(r)
    ensures Shallow(Reassociated(l, r))
    decreases r
  {
    if r.Conj? {
      ReassociatedShallow(l, r.l);
    }
  }

  /** The reading obeys the grammar and never fills the operator stack. */
  lemma {:induction false} ConcreteFits(e: Expr, first: bool)
    ensures IsDisj(Concrete(e, first)) && Fits(Concrete(e, first), 0)
    ensures !first ==> Shallow(Concrete(e, false))
    decreases e, first
  {
    var c := Concrete(e, first);
    if e.Not? {
      ConcreteFits(e.e, true);
    } else if IsBinary(e) {
      ConcreteFits(e.l, false);
      ConcreteFits(e.r, false);
      ReassociatedShallow(Concrete(e.l, false), Concrete(e.r, false));
      ShallowIsConj(Concrete(e.l, false), 0);
      ShallowIsConj(Concrete(e.r, false), 1);
      ConjIsDisj(Concrete(e.l, false));
    }
    if !c.Disj? {
      ShallowIsConj(c, 0);
      ConjIsDisj(c);
    }
  }

  lemma {:induction false} ConcreteMeaning(e: Expr, first: bool, a: set<int>)
    ensures Meaning(Tree(Concrete(e, first)), a) == Meaning(e, a)
    ensures |Postfix(Tree(Concrete(e, first)))| == |Postfix(e)|
    decreases e
  {
    match e
    case Num(_) =>
    case Not(x) =>
      ConcreteMeaning(x, true, a);
    case And(l, r) =>
      ConcreteMeaning(l, false, a);
      ConcreteMeaning(r, false, a);
      ReassociatedMeaning(Concrete(l, false), Concrete(r, false), a);
      ReassociatedSize(Concrete(l, false), Concrete(r, false));
    case Or(l, r) =>
      ConcreteMeaning(l, false, a);
      ConcreteMeaning(r, false, a);
  }

  lemma {:induction false} NoBadTokens(s: Syntax)
    ensures TBad !in Tokens(s)
    decreases s
  {
    match s
    case Lit(_) =>
    case Paren(b) => NoBadTokens(b);
    case Neg(x) => NoBadTokens(x);
    case Conj(l, r) => NoBadTokens(l); NoBadTokens(r);
    case Disj(l, r) => NoBadTokens(l); NoBadTokens(r);
  }

  /** Text before and after a piece of text that reads as `s`. */
  lemma Framed(before: string, t: string, after: string, s: Syntax)
    requires Tokenize(t) == Tokens(s) && TBad !in Tokenize(before)
    requires before == [] || !StartsLiteral(before[|before| - 1])
    requires after == [] || !IsDigit(after[0])
    ensures Tokenize(before + t + after) == Tokenize(before) + Tokens(s) + Tokenize(after)
  {
    NoBadTokens(s);
    TokenizeAppend(before, t);
    TokenizeAppend(before + t, after);
  }

  lemma Punctuation()
    ensures Tokenize("!") == [TOpr(NotOp)]
    ensures Tokenize("!( ") == [TOpr(NotOp), TOpen]
    ensures Tokenize("( ") == [TOpen]
    ensures Tokenize(" )") == [TClose]
    ensures Tokenize(" & ") == [TOpr(AndOp)]
    ensures Tokenize(" | ") == [TOpr(OrOp)]
    ensures Tokenize("") == []
  {
    assert Tokenize(" ") == [] by { assert " "[1..] == ""; }
    assert Tokenize(")") == [TClose] by { assert ")"[1..] == ""; }
    assert Tokenize("!") == [TOpr(NotOp)] by { assert "!"[1..] == ""; }
    assert Tokenize("( ") == [TOpen] by { assert "( "[1..] == " "; }
    assert Tokenize("!( ") == [TOpr(NotOp), TOpen] by { assert "!( "[1..] == "( "; }
    assert Tokenize(" )") == [TClose] by { assert " )"[1..] == ")"; }
    assert Tokenize("& ") == [TOpr(AndOp)] by { assert "& "[1..] == " "; }
    assert Tokenize("| ") == [TOpr(OrOp)] by { assert "| "[1..] == " "; }
    assert Tokenize(" & ") == [TOpr(AndOp)] by { assert " & "[1..] == "& "; }
    assert Tokenize(" | ") == [TOpr(OrOp)] by { assert " | "[1..] == "| "; }
  }

  lemma NoTokens()
    ensures Tokenize([]) == []
  {
  }

  lemma JoinedTokens(t: string, op: string, u: string, s: Syntax, x: Syntax)
    requires Tokenize(t) == Tokens(s) && Tokenize(u) == Tokens(x) && |op| > 0 && TBad !in Tokenize(op)
    requires op[0] == ' ' && op[|op| - 1] == ' '
    ensures Tokenize(t + op + u) == Tokens(s) + Tokenize(op) + Tokens(x)
  {
    hide Tokenize;
    NoTokens();
    Framed([], t, op, s);
    assert [] + t + op == t + op;
    assert Tokenize([]) + Tokens(s) == Tokens(s);
    NoBadTokens(s);
    TokenizeAppend(t + op, u);
  }

  /** The printed text has the tokens of its reading. */
  lemma {:induction false} PrintTokens(e: Expr, first: bool)
    requires InRange(e)
    ensures Tokenize(Print(e, first)) == Tokens(Concrete(e, first))
    decreases e
  {
    hide Tokenize, Reassociated;
    Punctuation();
    match e
    case Num(n) =>
      LiteralTokens(n);
    case Not(x) =>
      if x.Num? {
        PrintTokens(x, false);
        Framed("!", Print(x, false), "", Lit(x.n));
        assert "!" + Print(x, false) + "" == "!" + Print(x, false);
      } else {
        PrintTokens(x, true);
        Framed("!( ", Print(x, true), " )", Concrete(x, true));
        var c := Tokens(Concrete(x, true));
        assert [TOpr(NotOp), TOpen] + c + [TClose] == [TOpr(NotOp)] + ([TOpen] + c + [TClose]);
      }
    case And(l, r) =>
      PrintTokens(l, false);
      PrintTokens(r, false);
      JoinedTokens(Print(l, false), " & ", Print(r, false), Concrete(l, false), Concrete(r, false));
      ReassociatedTokens(Concrete(l, false), Concrete(r, false));
    case Or(l, r) =>
      PrintTokens(l, false);
      PrintTokens(r, false);
      JoinedTokens(Print(l, false), " | ", Print(r, false), Concrete(l, false), Concrete(r, false));
      var body := Print(l, false) + " | " + Print(r, false);
      Framed("( ", body, " )", Disj(Concrete(l, false), Concrete(r, false)));
  }

  lemma {:induction false} ReassociatedShort(l: Syntax, r: Syntax)
    requires ShortRights(Tree(l)) && ShortRights(Tree(r)) && |Postfix(Tree(r))| < 0x8000
    ensures ShortRights(Tree(Reassociated(l, r)))
    decreases r
  {
    if r.Conj? {
      ReassociatedShort(l, r.l);
    }
  }

  /** Reading back keeps the operands short enough for their offsets. */
  lemma {:induction false} ConcreteShort(e: Expr, first: bool)
    requires ShortRights(e)
    ensures ShortRights(Tree(Concrete(e, first)))
    decreases e
  {
    if e.Not? {
      ConcreteShort(e.e, true);
    } else if IsBinary(e) {
      ConcreteShort(e.l, false);
      ConcreteShort(e.r, false);
      ConcreteMeaning(e.r, false, {});
      ReassociatedShort(Concrete(e.l, false), Concrete(e.r, false));
    }
  }

  lemma {:induction false} PrintIsCString(e: Expr, first: bool)
    ensures '\0' !in Print(e, first)
    decreases e
  {
    if e.Not? {
      PrintIsCString(e.e, true);
      PrintIsCString(e.e, false);
    } else if IsBinary(e) {
      PrintIsCString(e.l, false);
      PrintIsCString(e.r, false);
    }
  }

  /** The text of a query is always accepted, and the query read from it has the same truth value on
      every array and links that are as good. */
  lemma {:induction false} RoundTrip(e: Expr)
    requires InRange(e) && |Postfix(e)| <= QUERYTYPEMAXITEMS
    ensures '\0' !in Print(e, true)
    ensures Denotes(Print(e, true), Concrete(e, true))
    ensures forall a :: Meaning(Tree(Concrete(e, true)), a) == Meaning(e, a)
    ensures ShortRights(e) ==> ShortRights(Tree(Concrete(e, true)))
  {
    PrintIsCString(e, true);
    PrintTokens(e, true);
    ConcreteFits(e, true);
    forall a ensures Meaning(Tree(Concrete(e, true)), a) == Meaning(e, a) {
      ConcreteMeaning(e, true, a);
    }
    ConcreteMeaning(e, true, {});
    if ShortRights(e) {
      ConcreteShort(e, true);
    }
  }

  /** A printed text is stable: the query read from it prints as the same text. */
  lemma {:induction false} PrintStable(e: Expr, first: bool)
    ensures Print(Tree(Concrete(e, first)), first) == Print(e, first)
    decreases e
  {
    match e
    case Num(_) =>
    case Not(x) =>
      if !x.Num? {
        PrintStable(x, true);
      }
    case And(l, r) =>
      PrintStable(l, false);
      PrintStable(r, false);
      ReassociatedPrint(Concrete(l, false), Concrete(r, false), first);
    case Or(l, r) =>
      PrintStable(l, false);
      PrintStable(r, false);
  }

  lemma {:induction false} ReassociatedPrint(l: Syntax, r: Syntax, first: bool)
    ensures Print(Tree(Reassociated(l, r)), first) == Print(Tree(l), false) + " & " + Print(Tree(r), false)
    decreases r
  {
    if r.Conj? {
      ReassociatedPrint(l, r.l, false);
      var a, b, c := Print(Tree(l), false), Print(Tree(r.l), false), Print(Tree(r.r), false);
      assert a + " & " + b + " & " + c == a + " & " + (b + " & " + c);
    }
  }
}
