/** Whole trees of keys, as unions and splits build them, and searches through them. */
module VarKeyTree {
  import opened ByteOrder
  import opened VarKey
  import opened VarKeySplit

  /** A value, the entries of a page under their union, or the entries of one half of a split page
      under the key that the split gave it. A page that takes a further entry has the union of its
      key and the key of the entry. */
  datatype Tree = Value(v: seq<byte>) | Above(children: seq<Tree>) | Half(children: seq<Tree>, cut: nat)

  /** Halves are cut at least two bytes behind their own common prefix, and have no loose key. */
  predicate Built(t: Tree)
    decreases t, 0
  {
    t.Value? ||
    (&& t.children != []
     && (forall c :: c in t.children ==> Built(c))
     && (t.Half? ==> t.cut >= RawCommon(Keys(t.children)) + 2 && NoneLoose(Keys(t.children), t.cut)))
  }

  predicate NoneLoose(keys: seq<Key>, cut: nat)
    requires keys != []
  {
    forall i :: 0 <= i < |keys| ==> !Loose(keys[i], HalfKey(keys, cut), Highest(keys), cut)
  }

  /** The key stored for a tree. */
  function KeyOf(t: Tree): Key
    requires Built(t)
    decreases t, 1
  {
    match t
    case Value(v) => Leaf(v)
    case Above(cs) => UnionKey(Keys(cs))
    case Half(cs, cut) => HalfKey(Keys(cs), cut)
  }

  function Keys(cs: seq<Tree>): (ks: seq<Key>)
    requires forall c :: c in cs ==> Built(c)
    ensures |ks| == |cs| && forall i :: 0 <= i < |cs| ==> ks[i] == KeyOf(cs[i])
    decreases cs, 2
  {
    seq(|cs|, i requires 0 <= i < |cs| => KeyOf(cs[i]))
  }

  predicate Holds(t: Tree, v: seq<byte>)
  {
    if t.Value? then v == t.v else exists c :: c in t.children && Holds(c, v)
  }

  lemma {:induction false} KeyOrdered(t: Tree)
    requires Built(t)
    ensures Ordered(KeyOf(t))
    decreases t
  {
    if t.Value? {
      CmpFacts(t.v, t.v);
    } else {
      var cs := t.children;
      forall i | 0 <= i < |cs| ensures Ordered(KeyOf(cs[i])) { KeyOrdered(cs[i]); }
      var k := KeyOf(cs[0]);
      CmpFacts(Lower(k), Lower(k));
      PageCovers(t, 0, Lower(k));
    }
  }

  /** The key of a page stands for what the key of an entry stands for. */
  lemma PageCovers(t: Tree, i: nat, v: seq<byte>)
    requires Built(t) && !t.Value? && i < |t.children| && Covers(KeyOf(t.children[i]), v)
    requires forall j :: 0 <= j < |t.children| ==> Ordered(KeyOf(t.children[j]))
    ensures Covers(KeyOf(t), v) && Ordered(KeyOf(t))
  {
    hide Covers, Ordered, UnionKey, HalfKey, Loose, RawCommon, Highest;
    var keys := Keys(t.children);
    if t.Above? {
      UnionCovers(keys, i, v);
    } else {
      HalfCovers(keys, t.cut, i, v);
    }
  }

  lemma {:induction false} KeyCovers(t: Tree, v: seq<byte>)
    requires Built(t) && Holds(t, v)
    ensures Covers(KeyOf(t), v)
    decreases t
  {
    if t.Value? {
      CmpFacts(v, v);
    } else {
      var cs := t.children;
      var c :| c in cs && Holds(c, v);
      KeyCovers(c, v);
      var i :| 0 <= i < |cs| && cs[i] == c;
      forall j | 0 <= j < |cs| ensures Ordered(KeyOf(cs[j])) { KeyOrdered(cs[j]); }
      PageCovers(t, i, v);
    }
  }

  /** Through any number of levels, a search never rejects a tree that holds a value it
      looks for. */
  lemma SearchFinds(t: Tree, v: seq<byte>, st: Strategy, q: seq<byte>)
    requires Built(t) && Holds(t, v) && Satisfies(v, st, q)
    ensures Consistent(KeyOf(t), st, q)
  {
    KeyCovers(t, v);
    if t.Value? {
      LeafExact(v, st, q);
    } else {
      CoversConsistent(KeyOf(t), v, st, q);
    }
  }

  /** Either half of a split leaf page is such a tree. */
  lemma LeafHalfBuilt(cs: seq<Tree>, cut: nat)
    requires cs != [] && (forall c :: c in cs ==> c.Value?) && cut >= RawCommon(Keys(cs)) + 2
    ensures Built(Half(cs, cut))
  {
    hide Loose, HalfKey, RawCommon, Highest;
    var keys := Keys(cs);
    forall i | 0 <= i < |keys| ensures !Loose(keys[i], HalfKey(keys, cut), Highest(keys), cut) {
      assert cs[i] in cs;
      LeafNotLoose(cs[i].v, HalfKey(keys, cut), Highest(keys), cut);
    }
  }

  // ---------------------------------------------------------------- a value that is lost

  /** Entries of a page of node keys, in order, that a split separates in the middle. */
  function SampleTrees(): seq<Tree>
  {
    [Above([Value([1]), Value([2, 3, 4])]),
     Above([Value([2, 3, 1]), Value([2, 3, 2])]),
     Above([Value([9, 9, 9, 1])]),
     Above([Value([9, 9, 9, 2])])]
  }

  lemma SampleKeys()
    ensures forall t :: t in SampleTrees() ==> Built(t)
    ensures Keys(SampleTrees()) ==
      [Node([1], [2, 3]), Node([2, 3, 1], [2, 3, 2]),
       Node([9, 9, 9, 1], [9, 9, 9, 1]), Node([9, 9, 9, 2], [9, 9, 9, 2])]
  {
    hide KeyOf;
    PairKey([1], [2, 3, 4]);
    PairKey([2, 3, 1], [2, 3, 2]);
    SingleKey([9, 9, 9, 1]);
    SingleKey([9, 9, 9, 2]);
    SampleCuts();
    var ks := Keys(SampleTrees());
    assert ks[0] == Node([1], [2, 3]) && ks[1] == Node([2, 3, 1], [2, 3, 2]);
  }

  lemma SampleCuts()
    ensures Lt([1], [2, 3, 4]) && CommonLen([1], [2, 3, 4]) == 0 && Cut([2, 3, 4], 2) == [2, 3]
    ensures Lt([2, 3, 1], [2, 3, 2]) && CommonLen([2, 3, 1], [2, 3, 2]) == 2
  {
    assert Cmp([1], [2]) < 0;
    assert Cmp([3, 1], [3, 2]) < 0;
    CommonLenIs([2, 3, 1], [2, 3, 2], 2);
  }

  lemma PairKey(a: seq<byte>, b: seq<byte>)
    requires Lt(a, b)
    ensures Built(Above([Value(a), Value(b)]))
    ensures var n := CommonLen(a, b) + 2; KeyOf(Above([Value(a), Value(b)])) == Node(Cut(a, n), Cut(b, n))
  {
    hide Cmp, CommonLen, Cut;
    CmpFacts(a, b);
    var ks := Keys([Value(a), Value(b)]);
    assert ks == [Leaf(a), Leaf(b)] && ks[..1] == [Leaf(a)];
    assert Lowest(ks[..1]) == a && Highest(ks[..1]) == a;
    assert Lowest(ks) == a && Highest(ks) == b;
  }

  lemma SingleKey(a: seq<byte>)
    ensures Built(Above([Value(a)]))
    ensures KeyOf(Above([Value(a)])) == Node(a, a)
  {
    CommonLenIs(a, a, |a|);
  }

  function SampleLeft(): seq<Key> { [Node([1], [2, 3]), Node([2, 3, 1], [2, 3, 2])] }

  function SampleRight(): seq<Key> { [Node([9, 9, 9, 1], [9, 9, 9, 1]), Node([9, 9, 9, 2], [9, 9, 9, 2])] }

  lemma PairBounds(a: Key, b: Key)
    requires Lt(Lower(a), Lower(b)) && Lt(Upper(a), Upper(b))
    ensures Lowest([a, b]) == Lower(a) && Highest([a, b]) == Upper(b)
  {
    assert [a, b][..1] == [a];
    assert Lowest([a]) == Lower(a) && Highest([a]) == Upper(a);
  }

  lemma LeftRejects(cut: nat)
    requires cut >= 3
    ensures !Consistent(HalfKey(SampleLeft(), cut), Equal, [2, 3, 4])
  {
    PrefixLe([2, 3], [2, 3, 2]);
    CmpFacts([2, 3], [2, 3, 2]);
    PairBounds(SampleLeft()[0], SampleLeft()[1]);
    AboveBytes([2, 3, 2], [2, 3, 4], 2);
    CmpFacts([2, 3, 2], [2, 3, 4]);
  }

  lemma RightCommon()
    ensures RawCommon(SampleRight()) >= 1
  {
    AboveBytes([9, 9, 9, 1], [9, 9, 9, 2], 3);
    PairBounds(SampleRight()[0], SampleRight()[1]);
    CommonLenIs([9, 9, 9, 1], [9, 9, 9, 2], 1);
  }

  /** After such a split the search for the value 2 3 4 does not enter the left half, though
      it is stored there. */
  lemma SplitLosesValue()
    ensures forall t :: t in SampleTrees() ==> Built(t)
    ensures Holds(SampleTrees()[0], [2, 3, 4])
    ensures
      var keys := Keys(SampleTrees());
      var cut := Max(RawCommon(keys[..2]), RawCommon(keys[2..])) + 2;
      !Consistent(HalfKey(keys[..2], cut), Equal, [2, 3, 4])
  {
    hide Consistent, HalfKey, RawCommon, KeyOf;
    SampleKeys();
    var keys := Keys(SampleTrees());
    assert Holds(SampleTrees()[0].children[1], [2, 3, 4]);
    assert keys[..2] == SampleLeft() && keys[2..] == SampleRight();
    RightCommon();
    LeftRejects(Max(RawCommon(keys[..2]), RawCommon(keys[2..])) + 2);
  }
}
