/** Index keys for variable-length values (contrib/btree_gist, type bytea): a leaf key is a
    value, a node key a pair of bounds truncated behind their common prefix. */
module VarKey {
  import opened ByteOrder

  datatype Key = Leaf(v: seq<byte>) | Node(lower: seq<byte>, upper: seq<byte>)

  /** The bounds of a key; those of a leaf key are its value. */
  function Lower(k: Key): seq<byte> { if k.Leaf? then k.v else k.lower }

  function Upper(k: Key): seq<byte> { if k.Leaf? then k.v else k.upper }

  // ---------------------------------------------------------------- operations

  /** gbt_var_node_cp_len. */
  method NodeCpLen(k: Key) returns (n: nat)
    ensures n == CommonLen(Lower(k), Upper(k))
  {
    var a, b := Lower(k), Upper(k);
    var ml := if |a| < |b| then |a| else |b|;
    n := 0;
    while n < ml
      invariant n <= ml && a[..n] == b[..n]
    {
      if a[n] != b[n] {
        CommonLenIs(a, b, n);
        return;
      }
      assert a[..n + 1] == a[..n] + [a[n]] && b[..n + 1] == b[..n] + [b[n]];
      n := n + 1;
    }
    CommonLenIs(a, b, n);
  }

  /** gbt_var_node_truncate: keeps one byte more than it is told. */
  function Truncate(k: Key, cpfLength: nat): Key
  {
    Node(Cut(Lower(k), cpfLength + 1), Cut(Upper(k), cpfLength + 1))
  }

  /** gbt_var_bin_union on a key that exists already. */
  method BinUnion(u: Key, e: Key) returns (r: Key)
    ensures Lower(r) == Least(Lower(u), Lower(e)) && Upper(r) == Greatest(Upper(u), Upper(e))
  {
    r := u;
    var lower, upper, update := Lower(u), Upper(u), false;
    if Cmp(Lower(u), Lower(e)) > 0 {
      lower, update := Lower(e), true;
    }
    if Cmp(Upper(u), Upper(e)) < 0 {
      upper, update := Upper(e), true;
    }
    if update {
      r := Node(lower, upper);
    }
  }

  function Least(a: seq<byte>, b: seq<byte>): seq<byte> { if Cmp(a, b) > 0 then b else a }

  function Greatest(a: seq<byte>, b: seq<byte>): seq<byte> { if Cmp(a, b) < 0 then b else a }

  /** Bounds of several keys. */
  function Lowest(keys: seq<Key>): seq<byte>
    requires keys != []
  {
    if |keys| == 1 then Lower(keys[0]) else Least(Lowest(keys[..|keys| - 1]), Lower(keys[|keys| - 1]))
  }

  function Highest(keys: seq<Key>): seq<byte>
    requires keys != []
  {
    if |keys| == 1 then Upper(keys[0]) else Greatest(Highest(keys[..|keys| - 1]), Upper(keys[|keys| - 1]))
  }

  /** The bounds bound every key. */
  lemma {:induction false} ExtremesBound(keys: seq<Key>, i: nat)
    requires i < |keys|
    ensures Le(Lowest(keys), Lower(keys[i])) && Le(Upper(keys[i]), Highest(keys))
    decreases |keys|
  {
    var last := |keys| - 1;
    CmpFacts(Lower(keys[i]), Lower(keys[i]));
    CmpFacts(Upper(keys[i]), Upper(keys[i]));
    if last > 0 {
      var lo, up := Lowest(keys[..last]), Highest(keys[..last]);
      CmpFacts(lo, Lower(keys[last]));
      CmpFacts(up, Upper(keys[last]));
      if i < last {
        ExtremesBound(keys[..last], i);
        if Cmp(lo, Lower(keys[last])) > 0 { LeTransitive(Lower(keys[last]), lo, Lower(keys[i])); }
        if Cmp(up, Upper(keys[last])) < 0 { LeTransitive(Upper(keys[i]), up, Upper(keys[last])); }
      }
    }
  }

  /** Each bound is the bound of one of the keys. */
  lemma {:induction false} ExtremesAttained(keys: seq<Key>) returns (i: nat, j: nat)
    requires keys != []
    ensures i < |keys| && Lowest(keys) == Lower(keys[i])
    ensures j < |keys| && Highest(keys) == Upper(keys[j])
    decreases |keys|
  {
    var last := |keys| - 1;
    i, j := last, last;
    if last > 0 {
      var k, l := ExtremesAttained(keys[..last]);
      if Lowest(keys) != Lower(keys[last]) { i := k; }
      if Highest(keys) != Upper(keys[last]) { j := l; }
    }
  }

  /** The union of keys before truncation, and the key that is stored. */
  function RawUnion(keys: seq<Key>): Key
    requires keys != []
  {
    Node(Lowest(keys), Highest(keys))
  }

  function UnionKey(keys: seq<Key>): Key
    requires keys != []
  {
    var raw := RawUnion(keys);
    Truncate(raw, CommonLen(raw.lower, raw.upper) + 1)
  }

  /** gbt_var_union. */
  method VarUnion(keys: seq<Key>) returns (r: Key)
    requires keys != []
    ensures r == UnionKey(keys)
  {
    var out := Node(Lower(keys[0]), Upper(keys[0]));
    assert keys[..1][0] == keys[0];
    for i := 1 to |keys|
      invariant Lower(out) == Lowest(keys[..i]) && Upper(out) == Highest(keys[..i])
    {
      assert keys[..i + 1][..i] == keys[..i];
      out := BinUnion(out, keys[i]);
    }
    assert keys[..|keys|] == keys;
    var plen := NodeCpLen(out);
    r := Truncate(out, plen + 1);
  }

  // ---------------------------------------------------------------- searching

  datatype Strategy = LessThan | LessEqual | Equal | GreaterEqual | GreaterThan | NotEqual

  /** Whether a value satisfies a search for `q`. */
  predicate Satisfies(v: seq<byte>, st: Strategy, q: seq<byte>)
  {
    match st
    case LessThan => Lt(v, q)
    case LessEqual => Le(v, q)
    case Equal => v == q
    case GreaterEqual => Le(q, v)
    case GreaterThan => Lt(q, v)
    case NotEqual => v != q
  }

  /** gbt_var_node_pf_match. */
  predicate PrefixMatch(k: Key, q: seq<byte>)
  {
    Lower(k) <= q || Upper(k) <= q
  }

  /** gbt_var_consistent. */
  predicate Consistent(k: Key, st: Strategy, q: seq<byte>)
  {
    match st
    case LessEqual => if k.Leaf? then Cmp(q, Lower(k)) >= 0 else Cmp(q, Lower(k)) >= 0 || PrefixMatch(k, q)
    case LessThan => if k.Leaf? then Cmp(q, Lower(k)) > 0 else Cmp(q, Lower(k)) >= 0 || PrefixMatch(k, q)
    case Equal =>
      if k.Leaf? then Cmp(q, Lower(k)) == 0
      else (Cmp(Lower(k), q) <= 0 && Cmp(q, Upper(k)) <= 0) || PrefixMatch(k, q)
    case GreaterThan => if k.Leaf? then Cmp(q, Upper(k)) < 0 else Cmp(q, Upper(k)) <= 0 || PrefixMatch(k, q)
    case GreaterEqual => if k.Leaf? then Cmp(q, Upper(k)) <= 0 else Cmp(q, Upper(k)) <= 0 || PrefixMatch(k, q)
    case NotEqual => !(Cmp(q, Lower(k)) == 0 && Cmp(q, Upper(k)) == 0)
  }

  /** On a leaf the test is exact. */
  lemma LeafExact(v: seq<byte>, st: Strategy, q: seq<byte>)
    ensures Consistent(Leaf(v), st, q) <==> Satisfies(v, st, q)
  {
    CmpFacts(q, v);
  }

  /** What the test of a node key comes to, by its bounds: searches for smaller values look at the
      lower bound; searches for greater ones go beyond the upper bound only to its extensions and those
      of the lower bound; a search for another value is refused only by a single value. */
  lemma NodeTests(k: Key, q: seq<byte>)
    requires k.Node? && Ordered(k)
    ensures Consistent(k, LessThan, q) <==> Le(k.lower, q)
    ensures Consistent(k, LessEqual, q) <==> Le(k.lower, q)
    ensures Consistent(k, GreaterThan, q) <==> Le(q, k.upper) || k.lower <= q || k.upper <= q
    ensures Consistent(k, GreaterEqual, q) <==> Le(q, k.upper) || k.lower <= q || k.upper <= q
    ensures Consistent(k, Equal, q) <==>
            Consistent(k, LessEqual, q) && Consistent(k, GreaterEqual, q)
    ensures Consistent(k, NotEqual, q) <==> k.lower != q || k.upper != q
  {
    var lo, up := k.lower, k.upper;
    CmpFacts(q, lo);
    CmpFacts(q, up);
    if lo <= q {
      PrefixLe(lo, q);
    }
    if up <= q {
      PrefixLe(up, q);
      LeTransitive(lo, up, q);
    }
  }

  // ---------------------------------------------------------------- soundness

  /** A value that a key stands for: at least the lower bound, and either at most the upper
      bound, or an extension of an upper bound that has been cut, which keeps at least two
      bytes behind the common prefix. */
  predicate Covers(k: Key, v: seq<byte>)
  {
    && Le(Lower(k), v)
    && (Le(v, Upper(k)) || (Upper(k) <= v && |Upper(k)| >= CommonLen(Lower(k), Upper(k)) + 2))
  }

  predicate Ordered(k: Key) { Le(Lower(k), Upper(k)) }

  /** Whatever a key stands for is found through it. */
  lemma CoversConsistent(k: Key, v: seq<byte>, st: Strategy, q: seq<byte>)
    requires k.Node? && Covers(k, v) && Satisfies(v, st, q)
    ensures Consistent(k, st, q)
  {
    var lo, up := Lower(k), Upper(k);
    CmpFacts(q, v);
    CmpFacts(q, lo);
    CmpFacts(q, up);
    match st
    case LessThan => LeTransitive(lo, v, q);
    case LessEqual => LeTransitive(lo, v, q);
    case Equal =>
    case GreaterThan => UpperSide(k, v, q);
    case GreaterEqual => UpperSide(k, v, q);
    case NotEqual =>
      if lo == up {
        EqualBounds(k, v);
      }
  }

  /** Equal bounds have not been cut. */
  lemma EqualBounds(k: Key, v: seq<byte>)
    requires Covers(k, v) && Lower(k) == Upper(k)
    ensures v == Lower(k)
  {
    CommonLenIs(Lower(k), Upper(k), |Lower(k)|);
    CmpFacts(Lower(k), v);
  }

  lemma UpperSide(k: Key, v: seq<byte>, q: seq<byte>)
    requires Covers(k, v) && Le(q, v)
    ensures Le(q, Upper(k)) || Upper(k) <= q
  {
    var up := Upper(k);
    if Le(v, up) {
      LeTransitive(q, v, up);
    } else if !Le(q, up) {
      CmpFacts(q, up);
      BetweenExtends(up, q, v);
    }
  }

  /** Cutting two bytes behind the common prefix, or later, keeps what lies within bounds. */
  lemma CutCovers(lo: seq<byte>, up: seq<byte>, v: seq<byte>, cut: nat)
    requires Le(lo, v) && Le(v, up) && cut >= CommonLen(lo, up) + 2
    ensures Covers(Node(Cut(lo, cut), Cut(up, cut)), v)
  {
    var lo', up' := Cut(lo, cut), Cut(up, cut);
    PrefixLe(lo', lo);
    LeTransitive(lo', lo, v);
    CutCommonLen(lo, up, cut);
    if !Le(v, up') {
      CmpFacts(v, up');
      BetweenExtends(up', v, up);
    }
  }

  /** The union of keys stands for whatever one of them stands for: if a value goes beyond
      a child's cut upper bound, the union's upper bound is cut at least as short. */
  lemma UnionCovers(keys: seq<Key>, i: nat, v: seq<byte>)
    requires i < |keys| && (forall j :: 0 <= j < |keys| ==> Ordered(keys[j])) && Covers(keys[i], v)
    ensures Covers(UnionKey(keys), v) && Ordered(UnionKey(keys))
  {
    hide Lowest, Highest, CommonLen, Cmp, Cut;
    var lo, up := Lowest(keys), Highest(keys);
    var cut := CommonLen(lo, up) + 2;
    ExtremesBound(keys, i);
    LeTransitive(lo, Lower(keys[i]), Upper(keys[i]));
    LeTransitive(lo, Upper(keys[i]), up);
    CutOrdered(lo, up, cut);
    LeTransitive(lo, Lower(keys[i]), v);
    if Le(v, up) {
      CutCovers(lo, up, v, cut);
    } else {
      CutBeyond(lo, up, keys[i], v, cut);
    }
  }

  lemma CutBeyond(lo: seq<byte>, up: seq<byte>, k: Key, v: seq<byte>, cut: nat)
    requires Ordered(k) && Covers(k, v) && Le(lo, Lower(k)) && Le(Upper(k), up) && !Le(v, up)
    requires cut == CommonLen(lo, up) + 2
    ensures Covers(Node(Cut(lo, cut), Cut(up, cut)), v)
  {
    var u := Upper(k);
    CmpFacts(v, up);
    if Le(v, u) {
      LeTransitive(v, u, up);
    }
    BetweenExtends(u, up, v);
    InnerCommonLen(lo, Lower(k), u, up);
    assert Cut(up, cut) == u[..cut] == v[..cut];
    PrefixLe(Cut(lo, cut), lo);
    LeTransitive(Cut(lo, cut), lo, Lower(k));
    LeTransitive(Cut(lo, cut), Lower(k), v);
    CutCommonLen(lo, up, cut);
  }
}
