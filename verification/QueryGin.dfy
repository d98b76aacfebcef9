/** Boolean queries on a GIN index: the values extracted from a query, and the test on
    the presence of those values in an array. */
module QueryGin {
  import opened QuerySyntax
  import opened QueryItems
  import opened QueryInput

  datatype SearchMode = SearchDefault | SearchAll

  /** The operands of a query, in stored order. */
  function Operands(items: seq<Item>): (vs: seq<int>)
    ensures |vs| <= |items|
  {
    if items == [] then []
    else
      var last := items[|items| - 1].node;
      Operands(items[..|items| - 1]) + if last.Val? then [last.n] else []
  }

  lemma {:induction false} OperandsPrefix(items: seq<Item>, i: nat)
    requires i < |items|
    ensures |Operands(items[..i])| <= |Operands(items)|
    ensures Operands(items[..i]) == Operands(items)[..|Operands(items[..i])|]
    ensures items[i].node.Val? ==>
      |Operands(items[..i])| < |Operands(items)| && Operands(items)[|Operands(items[..i])|] == items[i].node.n
    decreases |items|
  {
    var short := items[..|items| - 1];
    if i < |items| - 1 {
      OperandsPrefix(short, i);
      assert short[..i] == items[..i];
    }
  }

  /** Whether an operand must be present for the query to hold: a negation is taken to
      require nothing. */
  predicate ContainsRequired(items: seq<Item>, cur: int, ghost e: Expr)
    requires Linked(items, cur, e)
    decreases e
  {
    match items[cur].node
    case Val(_) => true
    case Opr(op) =>
      if op == NotOp then false
      else if op == AndOp then
        if ContainsRequired(items, cur + items[cur].left, e.l) then true else ContainsRequired(items, cur - 1, e.r)
      else
        if ContainsRequired(items, cur + items[cur].left, e.l) then ContainsRequired(items, cur - 1, e.r) else false
  }

  /** A value is required just when the empty array fails the query with all negations taken to
      hold. */
  lemma {:induction false} RequiredIff(items: seq<Item>, cur: int, e: Expr)
    requires Linked(items, cur, e)
    ensures ContainsRequired(items, cur, e) <==> !Loosely(e, {})
    decreases e
  {
    if IsBinary(e) {
      RequiredIff(items, cur - 1, e.r);
      RequiredIff(items, cur + items[cur].left, e.l);
    }
  }

  /** The values that the index is asked for, and whether all arrays must be visited. */
  method QueryExtract(items: seq<Item>, ghost e: Expr) returns (entries: seq<int>, mode: SearchMode)
    requires items != [] ==> Linked(items, |items| - 1, e)
    ensures entries == Operands(items)
    ensures items != [] ==> (mode == SearchDefault <==> !Loosely(e, {}))
    ensures items == [] ==> mode == SearchDefault
  {
    if |items| == 0 {
      return [], SearchDefault;
    }
    RequiredIff(items, |items| - 1, e);
    mode := if ContainsRequired(items, |items| - 1, e) then SearchDefault else SearchAll;
    var res := new int[|items|];
    var nentries := 0;
    for i := 0 to |items|
      invariant nentries == |Operands(items[..i])| <= i
      invariant res[..nentries] == Operands(items[..i])
    {
      assert items[..i + 1][..i] == items[..i];
      if items[i].node.Val? {
        res[nentries] := items[i].node.n;
        nentries := nentries + 1;
      }
    }
    assert items[..|items|] == items;
    entries := res[..nentries];
  }

  /** Evaluation on one bit per extracted value. */
  method GinBoolConsistent(items: seq<Item>, check: seq<bool>, ghost e: Expr) returns (res: bool)
    requires items != [] ==> Linked(items, |items| - 1, e)
    requires |check| == |Operands(items)|
    ensures items == [] ==> !res
    ensures items != [] ==> forall a: set<int> {:trigger Meaning(e, a)} ::
      (forall k :: 0 <= k < |check| ==> check[k] == (Operands(items)[k] in a)) ==> res == Meaning(e, a)
  {
    hide Meaning, Execute, Linked;
    if |items| <= 0 {
      return false;
    }
    var mapped := new bool[|items|](_ => false);
    var j := 0;
    for i := 0 to |items|
      invariant j == |Operands(items[..i])|
      invariant forall k :: 0 <= k < i && items[k].node.Val? ==>
        |Operands(items[..k])| < |check| && mapped[k] == check[|Operands(items[..k])|]
    {
      assert items[..i + 1][..i] == items[..i];
      OperandsPrefix(items, i);
      if items[i].node.Val? {
        mapped[i] := check[j];
        j := j + 1;
      }
    }
    var bits := mapped[..];
    var chk := (i: nat) => i < |bits| && bits[i];
    res := Execute(items, |items| - 1, e, true, chk);
    forall a: set<int> | forall k :: 0 <= k < |check| ==> check[k] == (Operands(items)[k] in a)
      ensures res == Meaning(e, a)
    {
      forall i: nat | i < |items| && items[i].node.Val? ensures chk(i) == (items[i].node.n in a) {
        OperandsPrefix(items, i);
      }
      ExecuteIsMeaning(items, |items| - 1, e, chk, a);
    }
  }

  /** A query with a required value holds only of arrays with an extracted value. */
  lemma {:induction false} RequiredIsPresent(items: seq<Item>, cur: int, e: Expr, a: set<int>) returns (v: int)
    requires Linked(items, cur, e) && ContainsRequired(items, cur, e) && Meaning(e, a)
    ensures v in Operands(items) && v in a
    decreases e
  {
    if e.Num? {
      OperandsPrefix(items, cur);
      v := e.n;
    } else {
      var left := cur + items[cur].left;
      if ContainsRequired(items, left, e.l) && Meaning(e.l, a) {
        v := RequiredIsPresent(items, left, e.l, a);
      } else {
        v := RequiredIsPresent(items, cur - 1, e.r, a);
      }
    }
  }

  /** With a required value, an array that matches has one of the values asked for. */
  lemma MatchIsVisited(items: seq<Item>, e: Expr, a: set<int>, check: seq<bool>)
    requires Linked(items, |items| - 1, e) && !Loosely(e, {})
    requires |check| == |Operands(items)| && forall k :: 0 <= k < |check| ==> check[k] == (Operands(items)[k] in a)
    ensures Meaning(e, a) ==> true in check
  {
    if Meaning(e, a) {
      RequiredIff(items, |items| - 1, e);
      var v := RequiredIsPresent(items, |items| - 1, e, a);
      var k :| 0 <= k < |check| && Operands(items)[k] == v;
      assert check[k];
    }
  }

  /** One array against the index, which visits the array when an entry is found in it,
      or always in SearchAll mode, and keeps it when the test on the presence bits
      succeeds. The arrays kept are exactly those the query holds of. */
  method GinMatches(items: seq<Item>, ghost e: Expr, a: set<int>) returns (kept: bool)
    requires Linked(items, |items| - 1, e)
    ensures kept <==> Meaning(e, a)
  {
    var entries, mode := QueryExtract(items, e);
    var check := seq(|entries|, k requires 0 <= k < |entries| => entries[k] in a);
    if mode == SearchDefault && true !in check {
      MatchIsVisited(items, e, a, check);
      return false;
    }
    kept := GinBoolConsistent(items, check, e);
  }
}
