/** A stored query: the postfix form as an array whose operators carry the offset of
    their left operand, and how the offsets are found. */
module QueryItems {
  import opened QuerySyntax

  datatype Item = Item(node: Node, left: int)

  /** Conversion to the 16-bit field that holds the offset. */
  function ToInt16(x: int): (r: int)
    ensures -0x8000 <= r <= 0x7fff
    ensures -0x8000 <= x <= 0x7fff ==> r == x
  {
    (x + 0x8000) % 0x1_0000 - 0x8000
  }

  /** The items below `end` end with the postfix form of `e`. */
  ghost predicate EndsWith(items: seq<Item>, end: int, e: Expr)
  {
    && |Postfix(e)| <= end <= |items|
    && forall i :: 0 <= i < |Postfix(e)| ==> items[end - |Postfix(e)| + i].node == Postfix(e)[i]
  }

  predicate IsBinary(e: Expr)
  {
    e.And? || e.Or?
  }

  function Offset(e: Expr): int
  {
    if e.Num? then 0 else if e.Not? then -1 else -1 - |Postfix(e.r)|
  }

  function Root(e: Expr): Node
  {
    match e
    case Num(n) => Val(n)
    case Not(_) => Opr(NotOp)
    case And(_, _) => Opr(AndOp)
    case Or(_, _) => Opr(OrOp)
  }

  /** The subtree `e` whose root is at `root` has the offsets that a field of 16 bits
      keeps of the right ones. */
  predicate Stored(items: seq<Item>, root: int, e: Expr)
    decreases e
  {
    && 0 <= root < |items|
    && items[root] == Item(Root(e), ToInt16(Offset(e)))
    && (e.Not? ==> Stored(items, root - 1, e.e))
    && (IsBinary(e) ==> Stored(items, root - 1, e.r) && Stored(items, root - 1 - |Postfix(e.r)|, e.l))
  }

  /** Every operator of the subtree leads to the roots of its operands. */
  predicate Linked(items: seq<Item>, root: int, e: Expr)
    decreases e
  {
    && 0 <= root < |items|
    && items[root].node == Root(e)
    && (e.Not? ==> Linked(items, root - 1, e.e))
    && (IsBinary(e) ==>
          && items[root].left == Offset(e)
          && Linked(items, root - 1, e.r) && Linked(items, root + items[root].left, e.l))
  }

  /** No right operand is too long for a 16-bit offset. */
  predicate ShortRights(e: Expr)
  {
    && (e.Not? ==> ShortRights(e.e))
    && (IsBinary(e) ==> |Postfix(e.r)| < 0x8000 && ShortRights(e.l) && ShortRights(e.r))
  }

  /** The stored links are right exactly when no right operand is too long. */
  lemma {:induction false} StoredIsLinked(items: seq<Item>, root: int, e: Expr)
    requires Stored(items, root, e)
    ensures Linked(items, root, e) <==> ShortRights(e)
    decreases e
  {
    if e.Not? {
      StoredIsLinked(items, root - 1, e.e);
    } else if IsBinary(e) {
      StoredIsLinked(items, root - 1, e.r);
      StoredIsLinked(items, root - 1 - |Postfix(e.r)|, e.l);
    }
  }

  /** Postfix form is uniquely readable from its end. */
  lemma {:induction false} PostfixUnique(a: seq<Node>, x: Expr, b: seq<Node>, y: Expr)
    requires a + Postfix(x) == b + Postfix(y)
    ensures a == b && x == y
    decreases x
  {
    var s := a + Postfix(x);
    assert s[|s| - 1] == Postfix(x)[|Postfix(x)| - 1] == Postfix(y)[|Postfix(y)| - 1];
    match x
    case Num(_) =>
      assert a == s[..|s| - 1] == b;
    case Not(x1) =>
      assert a + Postfix(x1) == s[..|s| - 1] == b + Postfix(y.e);
      PostfixUnique(a, x1, b, y.e);
    case And(l, r) => PostfixUniqueBinary(a, Postfix(l), Postfix(r), b, Postfix(y.l), Postfix(y.r), AndOp);
      PostfixUnique(a + Postfix(l), r, b + Postfix(y.l), y.r);
      PostfixUnique(a, l, b, y.l);
    case Or(l, r) => PostfixUniqueBinary(a, Postfix(l), Postfix(r), b, Postfix(y.l), Postfix(y.r), OrOp);
      PostfixUnique(a + Postfix(l), r, b + Postfix(y.l), y.r);
      PostfixUnique(a, l, b, y.l);
  }

  lemma PostfixUniqueBinary(a: seq<Node>, l: seq<Node>, r: seq<Node>, b: seq<Node>, l1: seq<Node>,
                            r1: seq<Node>, op: Oper)
    requires a + (l + r + [Opr(op)]) == b + (l1 + r1 + [Opr(op)])
    ensures a + l + r == b + l1 + r1
  {
    var s := a + (l + r + [Opr(op)]);
    assert a + l + r == s[..|s| - 1];
    assert b + l1 + r1 == s[..|s| - 1];
  }

  lemma {:induction false} StoredFrame(items: seq<Item>, other: seq<Item>, root: int, e: Expr)
    requires Stored(items, root, e)
    requires root < |other| && forall i :: root - |Postfix(e)| < i <= root && i >= 0 ==> other[i] == items[i]
    ensures Stored(other, root, e)
    decreases e
  {
    if e.Not? {
      StoredFrame(items, other, root - 1, e.e);
    } else if IsBinary(e) {
      StoredFrame(items, other, root - 1, e.r);
      StoredFrame(items, other, root - 1 - |Postfix(e.r)|, e.l);
    }
  }

  lemma EndsWithParts(items: seq<Item>, end: int, e: Expr)
    requires EndsWith(items, end, e)
    ensures items[end - 1].node == Root(e)
    ensures e.Not? ==> EndsWith(items, end - 1, e.e)
    ensures IsBinary(e) ==>
      EndsWith(items, end - 1, e.r) && EndsWith(items, end - 1 - |Postfix(e.r)|, e.l)
  {
    assert Postfix(e)[|Postfix(e)| - 1] == Root(e);
    if IsBinary(e) {
      var n, k := |Postfix(e.l)|, |Postfix(e.r)|;
      forall i | 0 <= i < k ensures items[end - 1 - k + i].node == Postfix(e.r)[i] {
        assert Postfix(e)[n + i] == Postfix(e.r)[i];
      }
      forall i | 0 <= i < n ensures items[end - 1 - k - n + i].node == Postfix(e.l)[i] {
        assert Postfix(e)[i] == Postfix(e.l)[i];
      }
    } else if e.Not? {
      forall i | 0 <= i < |Postfix(e.e)| ensures items[end - 1 - |Postfix(e.e)| + i].node == Postfix(e.e)[i] {
        assert Postfix(e)[i] == Postfix(e.e)[i];
      }
    }
  }

  /** Sets the offsets of the subtree that ends at `pos`, from its root downwards; the
      result is the position before the subtree. */
  method FindOprnd(ptr: array<Item>, pos: int, ghost e: Expr) returns (next: int)
    requires EndsWith(ptr[..], pos + 1, e)
    modifies ptr
    ensures next == pos - |Postfix(e)|
    ensures Stored(ptr[..], pos, e)
    ensures forall i :: 0 <= i < ptr.Length ==> ptr[i].node == old(ptr[i].node)
    ensures forall i :: 0 <= i < ptr.Length && !(next < i <= pos) ==> ptr[i] == old(ptr[i])
    decreases e, 1
  {
    EndsWithParts(ptr[..], pos + 1, e);
    if ptr[pos].node.Val? {
      ptr[pos] := ptr[pos].(left := 0);
      next := pos - 1;
    } else if ptr[pos].node == Opr(NotOp) {
      ghost var items := ptr[..];
      ptr[pos] := ptr[pos].(left := -1);
      EndsWithFrame(items, ptr[..], pos, e.e);
      next := FindOprnd(ptr, pos - 1, e.e);
    } else {
      next := FindBoth(ptr, pos, e);
    }
  }

  /** The case of a binary operator: the right operand lies next to it, and where that
      one begins the left one ends. */
  method FindBoth(ptr: array<Item>, pos: int, ghost e: Expr) returns (next: int)
    requires EndsWith(ptr[..], pos + 1, e) && IsBinary(e)
    modifies ptr
    ensures next == pos - |Postfix(e)|
    ensures Stored(ptr[..], pos, e)
    ensures forall i :: 0 <= i < ptr.Length ==> ptr[i].node == old(ptr[i].node)
    ensures forall i :: 0 <= i < ptr.Length && !(next < i <= pos) ==> ptr[i] == old(ptr[i])
    decreases e, 0
  {
    hide ToInt16;
    ghost var items := ptr[..];
    EndsWithParts(items, pos + 1, e);
    next := FindOprnd(ptr, pos - 1, e.r);
    ghost var right := ptr[..];
    ptr[pos] := ptr[pos].(left := ToInt16(next - pos));
    assert EndsWith(ptr[..], next + 1, e.l) by {
      EndsWithFrame(items, ptr[..], next + 1, e.l);
    }
    next := FindOprnd(ptr, next, e.l);
    assert Stored(ptr[..], pos - 1, e.r) by {
      StoredFrame(right, ptr[..], pos - 1, e.r);
    }
    assert ptr[..][pos] == Item(Root(e), ToInt16(Offset(e)));
  }

  lemma EndsWithFrame(items: seq<Item>, other: seq<Item>, end: int, e: Expr)
    requires EndsWith(items, end, e)
    requires |other| == |items| && forall i :: 0 <= i < |items| ==> other[i].node == items[i].node
    ensures EndsWith(other, end, e)
  {
  }
}
