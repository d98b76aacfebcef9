/** Input and evaluation of stored queries. */
module QueryInput {
  import opened Wrappers
  import opened Growth
  import opened QuerySyntax
  import opened QueryParser
  import opened QueryErrors
  import opened QueryWorkState
  import opened QueryItems

  /** Largest number of items of a stored query: (MaxAllocSize - header) / item size. */
  const QUERYTYPEMAXITEMS := (MAX_ALLOC - 8) / 8

  datatype QueryResult = Query(items: seq<Item>) | SyntaxFailure | ComplexFailure | SizeFailure

  /** `s` is how the grammar reads `text`, within the limits of the parser. */
  ghost predicate Denotes(text: string, s: Syntax)
  {
    && IsDisj(s) && Tokens(s) == Tokenize(text)
    && Fits(s, 0) && |Postfix(Tree(s))| <= QUERYTYPEMAXITEMS
  }

  /** `s` is how the grammar reads `text`, but it has too many items. */
  ghost predicate Overlong(text: string, s: Syntax)
  {
    && IsDisj(s) && Tokens(s) == Tokenize(text)
    && Fits(s, 0) && |Postfix(Tree(s))| > QUERYTYPEMAXITEMS
  }

  /** A text denotes at most one expression. */
  lemma {:induction false} DenotesUnique(text: string, s: Syntax, t: Syntax)
    requires Denotes(text, s) && Denotes(text, t)
    ensures Tree(s) == Tree(t)
  {
    FittingIsParsed(s);
    FittingIsParsed(t);
    assert [] + Postfix(Tree(s)) == [] + Postfix(Tree(t));
    PostfixUnique([], Tree(s), [], Tree(t));
  }

  /** Text to stored query. A text that is not of the grammar, one that begins like texts which all
      need more stack than there is, and one with too many items fail in different ways. */
  method QueryIn(text: string) returns (r: QueryResult)
    requires '\0' !in text
    ensures r.Query? <==> exists s :: Denotes(text, s)
    ensures r.SyntaxFailure? <==> !NeedsMoreStack(Tokenize(text)) && !InGrammar(Tokenize(text))
    ensures r.ComplexFailure? <==> NeedsMoreStack(Tokenize(text))
    ensures r.SizeFailure? <==> exists s :: Overlong(text, s)
    ensures r.Query? ==> forall s :: Denotes(text, s) ==>
      |r.items| == |Postfix(Tree(s))| && Stored(r.items, |r.items| - 1, Tree(s))
  {
    hide Tokenize, Pol, Tokens, Fits, IsDisj, Stored, NeedsMoreStack, InGrammar;
    ErrorsByGrammar(Tokenize(text));
    var state := new WorkState(text);
    assert text[0..] == text;
    var status := state.MakePol();
    ghost var p := Pol(Tokenize(text), true, 0, [], []);
    if status != Ended {
      forall s | Denotes(text, s) ensures false { FittingIsParsed(s); }
      forall s | Overlong(text, s) ensures false { FittingIsParsed(s); }
      return if status.Syntactic? then SyntaxFailure else ComplexFailure;
    }
    assert p.rest == [] by { TopLevelReadsAll(Tokenize(text), true, [], []); }
    AcceptsGrammar(Tokenize(text), state.str);
    ghost var tree :| IsDisj(tree) && Fits(tree, 0) && Tokens(tree) == Tokenize(text) &&
        Postfix(Tree(tree)) == state.str;
    var num := |state.str|;
    if num > QUERYTYPEMAXITEMS {
      assert Overlong(text, tree);
      forall s | Denotes(text, s) ensures false { FittingIsParsed(s); }
      return SizeFailure;
    }
    var str := state.str;
    var ptr := new Item[num](i requires 0 <= i < num => Item(str[i], 0));
    var pos := FindOprnd(ptr, num - 1, Tree(tree));
    assert pos == -1;
    assert Denotes(text, tree);
    forall s | Overlong(text, s) ensures false { FittingIsParsed(s); }
    forall s | Denotes(text, s) ensures Tree(s) == Tree(tree) { DenotesUnique(text, s, tree); }
    return Query(ptr[..]);
  }

  /** Outside parentheses the parser stops only at the end of the text. */
  lemma {:induction false} TopLevelReadsAll(ts: seq<Token>, operand: bool, stack: seq<Oper>, str: seq<Node>)
    requires Pol(ts, operand, 0, stack, str).Done?
    ensures Pol(ts, operand, 0, stack, str).rest == []
    decreases |ts|
  {
    if ts != [] {
      match ts[0]
      case TVal(n) => TopLevelReadsAll(ts[1..], false, Settled(stack), str + [Val(n)] + Applied(stack));
      case TOpr(op) =>
        if op == OrOp && stack != [] {
          TopLevelReadsAll(ts[1..], true, stack, str + [Opr(OrOp)]);
        } else {
          TopLevelReadsAll(ts[1..], true, stack + [op], str);
        }
      case TOpen =>
        var inner := Pol(ts[1..], true, 1, [], str);
        TopLevelReadsAll(inner.rest, false, Settled(stack), inner.str + Applied(stack));
    }
  }

  // ------------------------------------------------------------------ evaluation

  /** Evaluation from the item at `cur`; `chk` decides the operands by position.
      With `calcnot` off every negation counts as true. */
  predicate Execute(items: seq<Item>, cur: int, ghost e: Expr, calcnot: bool, chk: nat -> bool)
    requires Linked(items, cur, e)
    decreases e
  {
    match items[cur].node
    case Val(_) => chk(cur)
    case Opr(op) =>
      if op == NotOp then
        if calcnot then !Execute(items, cur - 1, e.e, calcnot, chk) else true
      else if op == AndOp then
        if Execute(items, cur + items[cur].left, e.l, calcnot, chk)
        then Execute(items, cur - 1, e.r, calcnot, chk)
        else false
      else
        if Execute(items, cur + items[cur].left, e.l, calcnot, chk)
        then true
        else Execute(items, cur - 1, e.r, calcnot, chk)
  }

  /** Exact evaluation is the meaning of the query. */
  lemma {:induction false} ExecuteIsMeaning(items: seq<Item>, cur: int, e: Expr, chk: nat -> bool, a: set<int>)
    requires Linked(items, cur, e)
    requires forall i: nat :: i < |items| && items[i].node.Val? ==> chk(i) == (items[i].node.n in a)
    ensures Execute(items, cur, e, true, chk) == Meaning(e, a)
    decreases e
  {
    if e.Not? {
      ExecuteIsMeaning(items, cur - 1, e.e, chk, a);
    } else if IsBinary(e) {
      ExecuteIsMeaning(items, cur - 1, e.r, chk, a);
      ExecuteIsMeaning(items, cur + items[cur].left, e.l, chk, a);
    }
  }

  /** Evaluation that takes negations as true, on a test that accepts every element of
      the array, loses no match. */
  lemma {:induction false} LossyExecuteKeepsMatches(items: seq<Item>, cur: int, e: Expr, chk: nat -> bool, a: set<int>)
    requires Linked(items, cur, e)
    requires forall i: nat :: i < |items| && items[i].node.Val? && items[i].node.n in a ==> chk(i)
    ensures Meaning(e, a) ==> Execute(items, cur, e, false, chk)
    decreases e
  {
    if IsBinary(e) {
      LossyExecuteKeepsMatches(items, cur - 1, e.r, chk, a);
      LossyExecuteKeepsMatches(items, cur + items[cur].left, e.l, chk, a);
    }
  }

  /** On a test for the elements of an array it is truth with every negation taken to hold. */
  lemma {:induction false} LossyExecuteIs(items: seq<Item>, cur: int, e: Expr, chk: nat -> bool, a: set<int>)
    requires Linked(items, cur, e)
    requires forall i: nat :: i < |items| && items[i].node.Val? ==> (chk(i) <==> items[i].node.n in a)
    ensures Execute(items, cur, e, false, chk) <==> Loosely(e, a)
    decreases e
  {
    if IsBinary(e) {
      LossyExecuteIs(items, cur - 1, e.r, chk, a);
      LossyExecuteIs(items, cur + items[cur].left, e.l, chk, a);
    }
  }

  /** Evaluation on any items, right or wrong, within `depth` nested calls; none when they do not
      suffice or when an offset leads out of the items. */
  function Evaluate(items: seq<Item>, cur: int, calcnot: bool, chk: nat -> bool, depth: nat): Option<bool>
    decreases depth
  {
    if depth == 0 || !(0 <= cur < |items|) then None
    else
      match items[cur].node
      case Val(_) => Some(chk(cur))
      case Opr(op) =>
        if op == NotOp then
          if !calcnot then Some(true)
          else
            var x := Evaluate(items, cur - 1, calcnot, chk, depth - 1);
            if x.None? then None else Some(!x.value)
        else
          var l := Evaluate(items, cur + items[cur].left, calcnot, chk, depth - 1);
          if l.None? || l.value == (op == OrOp) then l
          else Evaluate(items, cur - 1, calcnot, chk, depth - 1)
  }

  /** With right links it comes to an end, with the value that the recursion has. */
  lemma {:induction false} EvaluateLinked(items: seq<Item>, cur: int, e: Expr, calcnot: bool,
                                          chk: nat -> bool, depth: nat)
    requires Linked(items, cur, e) && depth >= |Postfix(e)|
    ensures Evaluate(items, cur, calcnot, chk, depth) == Some(Execute(items, cur, e, calcnot, chk))
    decreases e
  {
    if e.Not? {
      EvaluateLinked(items, cur - 1, e.e, calcnot, chk, depth - 1);
    } else if IsBinary(e) {
      EvaluateLinked(items, cur - 1, e.r, calcnot, chk, depth - 1);
      EvaluateLinked(items, cur + items[cur].left, e.l, calcnot, chk, depth - 1);
    }
  }

  /** A binary operator with offset zero calls itself for ever. */
  lemma {:induction false} SelfLinkNeverEnds(items: seq<Item>, cur: nat, calcnot: bool, chk: nat -> bool, depth: nat)
    requires cur < |items| && items[cur].left == 0
    requires items[cur].node == Opr(AndOp) || items[cur].node == Opr(OrOp)
    ensures Evaluate(items, cur, calcnot, chk, depth) == None
    decreases depth
  {
    if depth > 0 {
      SelfLinkNeverEnds(items, cur, calcnot, chk, depth - 1);
    }
  }

  /** Binary search of a sorted array. */
  method CheckConditionArr(a: seq<int>, val: int) returns (found: bool)
    requires forall i, j :: 0 <= i < j < |a| ==> a[i] <= a[j]
    ensures found <==> val in a
  {
    var low, high := 0, |a|;
    while low < high
      invariant 0 <= low <= high <= |a|
      invariant forall i :: 0 <= i < |a| && !(low <= i < high) ==> a[i] != val
    {
      var middle := low + (high - low) / 2;
      if a[middle] == val {
        return true;
      } else if a[middle] < val {
        low := middle + 1;
      } else {
        high := middle;
      }
    }
    return false;
  }

  /** Evaluation against a sorted array, as the operator @@ runs it. */
  method ExecuteOnArray(items: seq<Item>, cur: int, ghost e: Expr, a: seq<int>) returns (res: bool)
    requires Linked(items, cur, e)
    requires forall i, j :: 0 <= i < j < |a| ==> a[i] <= a[j]
    ensures res == Meaning(e, set x | x in a)
    decreases e
  {
    match items[cur].node
    case Val(n) =>
      res := CheckConditionArr(a, n);
    case Opr(op) =>
      if op == NotOp {
        res := ExecuteOnArray(items, cur - 1, e.e, a);
        return !res;
      }
      res := ExecuteOnArray(items, cur + items[cur].left, e.l, a);
      if op == AndOp {
        if res {
          res := ExecuteOnArray(items, cur - 1, e.r, a);
        }
      } else if !res {
        res := ExecuteOnArray(items, cur - 1, e.r, a);
      }
  }
}
