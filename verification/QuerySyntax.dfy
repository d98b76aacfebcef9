/** Boolean integer queries (type query_int of contrib/intarray): trees, postfix
    form, tokens, and the grammar that the parser is measured against. */
module QuerySyntax {
  import opened MachineInt

  datatype Oper = NotOp | AndOp | OrOp

  /** One element of the postfix form: an operand or an operator. */
  datatype Node = Val(n: int) | Opr(op: Oper)

  datatype Expr =
    | Num(n: int)
    | Not(e: Expr)
    | And(l: Expr, r: Expr)
    | Or(l: Expr, r: Expr)

  function Postfix(e: Expr): (p: seq<Node>)
    ensures |p| > 0
  {
    match e
    case Num(n) => [Val(n)]
    case Not(x) => Postfix(x) + [Opr(NotOp)]
    case And(l, r) => Postfix(l) + Postfix(r) + [Opr(AndOp)]
    case Or(l, r) => Postfix(l) + Postfix(r) + [Opr(OrOp)]
  }

  /** Truth of a query on an array, seen as the set of its elements. */
  predicate Meaning(e: Expr, a: set<int>)
  {
    match e
    case Num(n) => n in a
    case Not(x) => !Meaning(x, a)
    case And(l, r) => Meaning(l, a) && Meaning(r, a)
    case Or(l, r) => Meaning(l, a) || Meaning(r, a)
  }

  /** Truth where every negation is taken to hold. */
  predicate Loosely(e: Expr, a: set<int>)
  {
    match e
    case Num(n) => n in a
    case Not(_) => true
    case And(l, r) => Loosely(l, a) && Loosely(r, a)
    case Or(l, r) => Loosely(l, a) || Loosely(r, a)
  }

  datatype Token =
    | TVal(n: int)
    | TOpr(op: Oper)
    | TOpen
    | TClose
    | TBad  // text that is no token

  /** Concrete syntax: an expression tree with its parentheses. */
  datatype Syntax =
    | Lit(n: int)
    | Paren(body: Syntax)
    | Neg(arg: Syntax)
    | Conj(l: Syntax, r: Syntax)
    | Disj(l: Syntax, r: Syntax)

  // Precedence: ! over & over |, binary operators associating to the left.

  predicate IsUnary(s: Syntax)
    decreases s, 0
  {
    match s
    case Lit(_) => true
    case Paren(b) => IsDisj(b)
    case Neg(x) => IsUnary(x)
    case _ => false
  }

  predicate IsConj(s: Syntax)
    decreases s, 1
  {
    match s
    case Conj(l, r) => IsConj(l) && IsUnary(r)
    case _ => IsUnary(s)
  }

  predicate IsDisj(s: Syntax)
    decreases s, 2
  {
    match s
    case Disj(l, r) => IsDisj(l) && IsConj(r)
    case _ => IsConj(s)
  }

  function Tokens(s: Syntax): (ts: seq<Token>)
    ensures |ts| > 0
  {
    match s
    case Lit(n) => [TVal(n)]
    case Paren(b) => [TOpen] + Tokens(b) + [TClose]
    case Neg(x) => [TOpr(NotOp)] + Tokens(x)
    case Conj(l, r) => Tokens(l) + [TOpr(AndOp)] + Tokens(r)
    case Disj(l, r) => Tokens(l) + [TOpr(OrOp)] + Tokens(r)
  }

  function Tree(s: Syntax): Expr
  {
    match s
    case Lit(n) => Num(n)
    case Paren(b) => Tree(b)
    case Neg(x) => Not(Tree(x))
    case Conj(l, r) => And(Tree(l), Tree(r))
    case Disj(l, r) => Or(Tree(l), Tree(r))
  }

  /** Size of the parser's operator stack. */
  const STACKDEPTH := 16

  /** Whether `s` can be read with at most STACKDEPTH operators pending, when
      `pending` of them already are. A parenthesis starts a fresh stack. */
  predicate Fits(s: Syntax, pending: nat)
  {
    match s
    case Lit(_) => true
    case Paren(b) => Fits(b, 0)
    case Neg(x) => pending < STACKDEPTH && Fits(x, pending + 1)
    case Conj(l, r) => Fits(l, pending) && Fits(r, pending + 1)
    case Disj(l, r) => Fits(l, pending) && Fits(r, pending + 1)
  }

  // Literals, with the meaning strtol gives them in base 0.

  /** Size of the buffer for one literal, its terminator included. */
  const LITERALSIZE := 16

  predicate IsDigit(c: char)
  {
    '0' <= c <= '9'
  }

  predicate StartsLiteral(c: char)
  {
    IsDigit(c) || c == '-'
  }

  function Digit(c: char): (d: int)
    ensures IsDigit(c) ==> 0 <= d < 10
  {
    c as int - '0' as int
  }

  /** The number of leading digits of `text`. */
  function DigitRun(text: string): (k: nat)
    ensures k <= |text|
    ensures forall i :: 0 <= i < k ==> IsDigit(text[i])
    ensures k < |text| ==> !IsDigit(text[k])
  {
    if text == [] || !IsDigit(text[0]) then 0 else 1 + DigitRun(text[1..])
  }

  function InBase(base: nat, digits: string, acc: int): int
  {
    if digits == [] || !IsDigit(digits[0]) || Digit(digits[0]) >= base then acc
    else InBase(base, digits[1..], base * acc + Digit(digits[0]))
  }

  function Magnitude(digits: string): int
  {
    if digits != [] && digits[0] == '0' then InBase(8, digits, 0) else InBase(10, digits, 0)
  }

  function StrToL(literal: string): int
  {
    if literal != [] && literal[0] == '-' then -Magnitude(literal[1..]) else Magnitude(literal)
  }

  /** The token a literal stands for: too long a literal, or a value outside
      int32, is an error. */
  function LiteralToken(literal: string): (t: Token)
    ensures t.TVal? || t.TBad?
  {
    var v := StrToL(literal);
    if |literal| < LITERALSIZE && INT32_MIN <= v <= INT32_MAX then TVal(v) else TBad
  }

  function SymbolToken(c: char): (t: Token)
    ensures !t.TVal?
  {
    if c == '!' then TOpr(NotOp)
    else if c == '&' then TOpr(AndOp)
    else if c == '|' then TOpr(OrOp)
    else if c == '(' then TOpen
    else if c == ')' then TClose
    else TBad
  }

  /** The tokens of a text. Nothing follows text that is no token. */
  function Tokenize(text: string): seq<Token>
    decreases |text|
  {
    if text == [] then []
    else if text[0] == ' ' then Tokenize(text[1..])
    else if StartsLiteral(text[0]) then
      var k := 1 + DigitRun(text[1..]);
      var t := LiteralToken(text[..k]);
      if t.TBad? then [t] else [t] + Tokenize(text[k..])
    else
      var t := SymbolToken(text[0]);
      if t.TBad? then [t] else [t] + Tokenize(text[1..])
  }
}
