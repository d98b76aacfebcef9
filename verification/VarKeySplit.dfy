/** Splitting a page of keys: both halves are truncated to one shared length, chosen for
    the half with the longer common prefix. */
module VarKeySplit {
  import opened ByteOrder
  import opened VarKey

  function Max(a: nat, b: nat): nat { if a < b then b else a }

  function HalfKey(keys: seq<Key>, cut: nat): Key
    requires keys != []
  {
    Node(Cut(Lowest(keys), cut), Cut(Highest(keys), cut))
  }

  function RawCommon(keys: seq<Key>): nat
    requires keys != []
  {
    CommonLen(Lowest(keys), Highest(keys))
  }

  method Gather(keys: seq<Key>) returns (r: Key)
    requires keys != []
    ensures Lower(r) == Lowest(keys) && Upper(r) == Highest(keys)
  {
    r := Node(Lower(keys[0]), Upper(keys[0]));
    assert keys[..1][0] == keys[0];
    for i := 1 to |keys|
      invariant Lower(r) == Lowest(keys[..i]) && Upper(r) == Highest(keys[..i])
    {
      assert keys[..i + 1][..i] == keys[..i];
      r := BinUnion(r, keys[i]);
    }
    assert keys[..|keys|] == keys;
  }

  /** gbt_var_picksplit, after the entries have been sorted: the first half goes left. */
  method PickSplit(sorted: seq<Key>) returns (left: Key, right: Key, nleft: nat)
    requires |sorted| >= 2
    ensures nleft == |sorted| / 2
    ensures var cut := Max(RawCommon(sorted[..nleft]), RawCommon(sorted[nleft..])) + 2;
      left == HalfKey(sorted[..nleft], cut) && right == HalfKey(sorted[nleft..], cut)
  {
    hide Lowest, Highest, CommonLen, Cut;
    nleft := |sorted| / 2;
    left := Gather(sorted[..nleft]);
    right := Gather(sorted[nleft..]);
    var ll := NodeCpLen(left);
    var lr := NodeCpLen(right);
    ll := Max(ll, lr) + 1;
    left := Truncate(left, ll);
    right := Truncate(right, ll);
  }

  // ---------------------------------------------------------------- when nothing is lost

  /** No search for a value that one of the keys stands for is turned away. */
  ghost predicate FindsAll(k: Key, keys: seq<Key>)
  {
    forall i, v, st, q :: 0 <= i < |keys| && Covers(keys[i], v) && Satisfies(v, st, q) ==> Consistent(k, st, q)
  }

  /** The upper bound of the key has been cut, and it is cut shorter than the upper bound of
      the half, which goes on with a byte that is not the greatest. */
  predicate Loose(k: Key, half: Key, up: seq<byte>, cut: nat)
  {
    var u := Upper(k);
    && |u| >= CommonLen(Lower(k), u) + 2
    && u < up && |u| < cut
    && exists p :: |u| <= p < |Upper(half)| && Upper(half)[p] != 255
  }

  /** Nor is it an extension of the lower bound of the half. */
  predicate Stray(k: Key, half: Key, up: seq<byte>, cut: nat)
  {
    Loose(k, half, up, cut) && !(Lower(half) <= Upper(k))
  }

  function Maxed(n: nat): (s: seq<byte>)
    ensures |s| == n && forall i :: 0 <= i < n ==> s[i] == 255
  {
    if n == 0 then [] else Maxed(n - 1) + [255]
  }

  lemma {:induction false} AboveBytes(s: seq<byte>, t: seq<byte>, n: nat)
    requires |s| == |t| && n < |s| && s[n] < t[n] && forall i :: 0 <= i < n ==> s[i] == t[i]
    ensures Lt(s, t)
    decreases n
  {
    if n > 0 {
      assert forall i :: 0 <= i < n - 1 ==> s[1..][i] == t[1..][i];
      AboveBytes(s[1..], t[1..], n - 1);
    }
  }

  /** A string that ends in greatest bytes is exceeded only by its extensions. */
  lemma {:induction false} OnlyExtensionsAbove(u: seq<byte>, s: seq<byte>, v: seq<byte>)
    requires u <= s && u <= v && (forall i :: |u| <= i < |s| ==> s[i] == 255) && Lt(s, v)
    ensures s <= v
    decreases |s|
  {
    if s != [] {
      if u == [] {
        OnlyExtensionsAbove([], s[1..], v[1..]);
      } else {
        OnlyExtensionsAbove(u[1..], s[1..], v[1..]);
      }
      assert s == [s[0]] + s[1..] && v == [v[0]] + v[1..];
    }
  }

  /** A value that extends the lower bound is found. */
  lemma LowerPrefixConsistent(k: Key, v: seq<byte>, st: Strategy, q: seq<byte>)
    requires k.Node? && Lower(k) <= v && Satisfies(v, st, q) && Lower(k) != Upper(k)
    requires Le(Lower(k), Upper(k))
    ensures Consistent(k, st, q)
  {
    var lo, up := Lower(k), Upper(k);
    PrefixLe(lo, v);
    CmpFacts(q, v);
    CmpFacts(q, lo);
    CmpFacts(q, up);
    match st
    case LessThan => LeTransitive(lo, v, q);
    case LessEqual => LeTransitive(lo, v, q);
    case Equal =>
    case NotEqual =>
    case _ =>
      if !Le(q, up) {
        LeTransitive(lo, up, q);
        BetweenExtends(lo, q, v);
      }
  }

  /** The key of a half, when no key strays, finds what its keys stand for. */
  lemma HalfFinds(keys: seq<Key>, cut: nat, i: nat, v: seq<byte>, st: Strategy, q: seq<byte>)
    requires i < |keys| && (forall j :: 0 <= j < |keys| ==> Ordered(keys[j]))
    requires cut >= RawCommon(keys) + 2
    requires !Stray(keys[i], HalfKey(keys, cut), Highest(keys), cut)
    requires Covers(keys[i], v) && Satisfies(v, st, q)
    ensures Consistent(HalfKey(keys, cut), st, q)
  {
    var lo, up, half := Lowest(keys), Highest(keys), HalfKey(keys, cut);
    ExtremesBound(keys, i);
    LeTransitive(lo, Lower(keys[i]), v);
    if Le(v, up) {
      CutCovers(lo, up, v, cut);
      CoversConsistent(half, v, st, q);
    } else {
      BeyondHalf(lo, up, keys[i], v, cut);
      if Covers(half, v) {
        CoversConsistent(half, v, st, q);
      } else {
        LowerPrefixConsistent(half, v, st, q);
      }
    }
  }

  lemma BeyondHalf(lo: seq<byte>, up: seq<byte>, k: Key, v: seq<byte>, cut: nat)
    requires Ordered(k) && Covers(k, v) && Le(lo, Lower(k)) && Le(Upper(k), up) && !Le(v, up)
    requires cut >= CommonLen(lo, up) + 2
    requires !Stray(k, Node(Cut(lo, cut), Cut(up, cut)), up, cut)
    ensures var half := Node(Cut(lo, cut), Cut(up, cut));
      Covers(half, v) || (Lower(half) <= v && Lower(half) != Upper(half) && Le(Lower(half), Upper(half)))
  {
    hide Covers, Loose, CommonLen, Cmp;
    var half := Node(Cut(lo, cut), Cut(up, cut));
    BeyondFacts(lo, up, k, v, cut);
    if Loose(k, half, up, cut) {
      assert Lower(half) <= Upper(k) <= v;
    } else {
      BeyondCovers(lo, up, k, v, cut);
    }
  }

  /** A key that is not loose goes beyond the half only where the half has been cut itself. */
  lemma BeyondCovers(lo: seq<byte>, up: seq<byte>, k: Key, v: seq<byte>, cut: nat)
    requires Ordered(k) && Covers(k, v) && Le(lo, Lower(k)) && Le(Upper(k), up) && !Le(v, up)
    requires cut >= CommonLen(lo, up) + 2
    requires !Loose(k, Node(Cut(lo, cut), Cut(up, cut)), up, cut)
    ensures Covers(Node(Cut(lo, cut), Cut(up, cut)), v)
  {
    var u, half := Upper(k), Node(Cut(lo, cut), Cut(up, cut));
    BeyondFacts(lo, up, k, v, cut);
    if |u| >= cut || u == up {
      assert Upper(half) <= v;
    } else {
      PrefixLe(u, v);
      if !Le(v, Upper(half)) {
        CmpFacts(v, Upper(half));
        OnlyExtensionsAbove(u, Upper(half), v);
      }
    }
  }

  /** The key of a half stands for what one of its keys stands for, when that is not loose. */
  lemma HalfCovers(keys: seq<Key>, cut: nat, i: nat, v: seq<byte>)
    requires i < |keys| && (forall j :: 0 <= j < |keys| ==> Ordered(keys[j]))
    requires cut >= RawCommon(keys) + 2
    requires !Loose(keys[i], HalfKey(keys, cut), Highest(keys), cut)
    requires Covers(keys[i], v)
    ensures Covers(HalfKey(keys, cut), v) && Ordered(HalfKey(keys, cut))
  {
    hide Lowest, Highest, CommonLen, Cmp, Cut, Loose;
    var lo, up := Lowest(keys), Highest(keys);
    ExtremesBound(keys, i);
    LeTransitive(lo, Lower(keys[i]), v);
    LeTransitive(lo, Lower(keys[i]), Upper(keys[i]));
    LeTransitive(lo, Upper(keys[i]), up);
    CutOrdered(lo, up, cut);
    if Le(v, up) {
      CutCovers(lo, up, v, cut);
    } else {
      BeyondCovers(lo, up, keys[i], v, cut);
    }
  }

  /** The key of a value has not been cut. */
  lemma LeafNotLoose(v: seq<byte>, half: Key, up: seq<byte>, cut: nat)
    ensures !Loose(Leaf(v), half, up, cut)
  {
    CommonLenIs(v, v, |v|);
  }

  /** The upper bound of the key leads both to the value and to the upper bound of the half. */
  lemma BeyondFacts(lo: seq<byte>, up: seq<byte>, k: Key, v: seq<byte>, cut: nat)
    requires Ordered(k) && Covers(k, v) && Le(lo, Lower(k)) && Le(Upper(k), up) && !Le(v, up)
    requires cut >= CommonLen(lo, up) + 2
    ensures Upper(k) <= v && Upper(k) <= up && |Upper(k)| >= CommonLen(Lower(k), Upper(k)) + 2
    ensures |Upper(k)| >= CommonLen(lo, up) + 2
    ensures Le(Cut(lo, cut), v) && Le(Cut(lo, cut), Cut(up, cut)) && Cut(lo, cut) != Cut(up, cut)
    ensures CommonLen(Cut(lo, cut), Cut(up, cut)) == CommonLen(lo, up)
    ensures |Cut(up, cut)| >= CommonLen(lo, up) + 2
  {
    var u := Upper(k);
    CmpFacts(v, up);
    if Le(v, u) {
      LeTransitive(v, u, up);
    }
    BetweenExtends(u, up, v);
    InnerCommonLen(lo, Lower(k), u, up);
    PrefixLe(Cut(lo, cut), lo);
    LeTransitive(Cut(lo, cut), lo, Lower(k));
    LeTransitive(Cut(lo, cut), Lower(k), v);
    CutCommonLen(lo, up, cut);
    LeTransitive(lo, Lower(k), u);
    LeTransitive(lo, u, up);
    CutOrdered(lo, up, cut);
  }

  /** A stray key stands for a value that the half turns away. */
  lemma StrayLoses(keys: seq<Key>, cut: nat, i: nat) returns (v: seq<byte>)
    requires i < |keys| && (forall j :: 0 <= j < |keys| ==> Ordered(keys[j]))
    requires cut >= RawCommon(keys) + 2
    requires Stray(keys[i], HalfKey(keys, cut), Highest(keys), cut)
    ensures Covers(keys[i], v) && !Consistent(HalfKey(keys, cut), Equal, v)
  {
    var half, u := HalfKey(keys, cut), Upper(keys[i]);
    var up' := Upper(half);
    assert u <= up';
    v := u + Maxed(|up'| - |u|);
    assert u <= v;
    PrefixLe(u, v);
    LeTransitive(Lower(keys[i]), u, v);
    ExtremesBound(keys, i);
    PrefixLe(Lower(half), Lowest(keys));
    LeTransitive(Lower(half), Lowest(keys), Lower(keys[i]));
    LeTransitive(Lower(half), Lower(keys[i]), u);
    StrayAbove(u, up', v);
    CmpFacts(v, up');
    if Lower(half) <= v {
      if |Lower(half)| > |u| {
        assert u <= Lower(half);
        PrefixLe(u, Lower(half));
        CmpFacts(u, Lower(half));
      }
    }
  }

  lemma StrayAbove(u: seq<byte>, up: seq<byte>, v: seq<byte>)
    requires u <= up && v == u + Maxed(|up| - |u|)
    requires exists p :: |u| <= p < |up| && up[p] != 255
    ensures Lt(up, v) && !(up <= v)
  {
    var p :| |u| <= p < |up| && up[p] != 255;
    var m := FirstNotMax(up, |u|, p);
    AboveBytes(up, v, m);
  }

  lemma {:induction false} FirstNotMax(s: seq<byte>, from: nat, p: nat) returns (m: nat)
    requires from <= p < |s| && s[p] != 255
    ensures from <= m <= p && s[m] != 255 && forall i :: from <= i < m ==> s[i] == 255
    decreases p - from
  {
    if s[from] != 255 {
      m := from;
    } else {
      m := FirstNotMax(s, from + 1, p);
    }
  }

  /** A half finds everything exactly when no key of it strays. */
  lemma SplitExact(keys: seq<Key>, cut: nat)
    requires keys != [] && (forall j :: 0 <= j < |keys| ==> Ordered(keys[j])) && cut >= RawCommon(keys) + 2
    ensures FindsAll(HalfKey(keys, cut), keys)
       <==> forall i :: 0 <= i < |keys| ==> !Stray(keys[i], HalfKey(keys, cut), Highest(keys), cut)
  {
    var half := HalfKey(keys, cut);
    if i :| 0 <= i < |keys| && Stray(keys[i], half, Highest(keys), cut) {
      var v := StrayLoses(keys, cut, i);
      assert Satisfies(v, Equal, v);
    } else {
      forall i, v, st, q | 0 <= i < |keys| && Covers(keys[i], v) && Satisfies(v, st, q)
        ensures Consistent(half, st, q)
      {
        HalfFinds(keys, cut, i, v, st, q);
      }
    }
  }
}
