/** Byte strings in lexicographic order, a prefix before its extensions. */
module ByteOrder {
  type byte = b: int | 0 <= b < 256

  /** memcmp on the common length, then the lengths. */
  function Cmp(a: seq<byte>, b: seq<byte>): (c: int)
    ensures -1 <= c <= 1
  {
    if a == [] && b == [] then 0
    else if a == [] then -1
    else if b == [] then 1
    else if a[0] < b[0] then -1
    else if a[0] > b[0] then 1
    else Cmp(a[1..], b[1..])
  }

  predicate Le(a: seq<byte>, b: seq<byte>) { Cmp(a, b) <= 0 }

  predicate Lt(a: seq<byte>, b: seq<byte>) { Cmp(a, b) < 0 }

  lemma {:induction false} CmpFacts(a: seq<byte>, b: seq<byte>)
    ensures Cmp(a, b) == -Cmp(b, a)
    ensures Cmp(a, b) == 0 <==> a == b
    decreases |a|
  {
    if a != [] && b != [] {
      CmpFacts(a[1..], b[1..]);
      assert a == [a[0]] + a[1..] && b == [b[0]] + b[1..];
    }
  }

  lemma {:induction false} LeTransitive(a: seq<byte>, b: seq<byte>, c: seq<byte>)
    requires Le(a, b) && Le(b, c)
    ensures Le(a, c)
    ensures Lt(a, b) || Lt(b, c) ==> Lt(a, c)
    decreases |a|
  {
    if a != [] && b != [] && c != [] && a[0] == b[0] == c[0] {
      LeTransitive(a[1..], b[1..], c[1..]);
    }
  }

  /** The strings agree up to byte `i`, where the first has the smaller byte. */
  predicate SmallerAt(a: seq<byte>, b: seq<byte>, i: nat)
  {
    i < |a| && i < |b| && a[..i] == b[..i] && a[i] < b[i]
  }

  /** The order is that of the first byte that differs; a proper prefix comes first. */
  lemma {:induction false} LtMeans(a: seq<byte>, b: seq<byte>)
    ensures Lt(a, b) <==> a < b || exists i: nat :: SmallerAt(a, b, i)
    decreases |a|
  {
    if a != [] && b != [] {
      if a[0] == b[0] {
        LtMeans(a[1..], b[1..]);
        assert a == [a[0]] + a[1..] && b == [b[0]] + b[1..];
        if i: nat :| SmallerAt(a[1..], b[1..], i) {
          assert a[..i + 1] == [a[0]] + a[1..][..i] && b[..i + 1] == [b[0]] + b[1..][..i];
          assert SmallerAt(a, b, i + 1);
        }
        if i: nat :| SmallerAt(a, b, i) {
          assert i > 0;
          assert a[1..][..i - 1] == a[..i][1..] && b[1..][..i - 1] == b[..i][1..];
          assert SmallerAt(a[1..], b[1..], i - 1);
        }
      } else {
        assert a[..0] == b[..0];
        assert SmallerAt(a, b, 0) <==> a[0] < b[0];
        if i: nat :| SmallerAt(a, b, i) {
          assert i > 0 ==> a[..i][0] == b[..i][0];
        }
      }
    }
  }

  lemma {:induction false} PrefixLe(a: seq<byte>, b: seq<byte>)
    requires a <= b
    ensures Le(a, b)
    decreases |a|
  {
    if a != [] {
      PrefixLe(a[1..], b[1..]);
    }
  }

  /** What lies between a string and one of its extensions extends it too. */
  lemma {:induction false} BetweenExtends(p: seq<byte>, x: seq<byte>, y: seq<byte>)
    requires p <= y && Le(p, x) && Le(x, y)
    ensures p <= x
    decreases |p|
  {
    if p != [] {
      BetweenExtends(p[1..], x[1..], y[1..]);
      assert p == [p[0]] + p[1..] && x == [x[0]] + x[1..];
    }
  }

  /** Length of the longest common prefix. */
  function CommonLen(a: seq<byte>, b: seq<byte>): (n: nat)
    ensures n <= |a| && n <= |b|
    ensures a[..n] == b[..n]
    ensures n < |a| && n < |b| ==> a[n] != b[n]
    decreases |a|
  {
    if a == [] || b == [] || a[0] != b[0] then 0
    else
      var n := CommonLen(a[1..], b[1..]);
      assert a[..n + 1] == [a[0]] + a[1..][..n] && b[..n + 1] == [b[0]] + b[1..][..n];
      n + 1
  }

  lemma CommonLenIs(a: seq<byte>, b: seq<byte>, n: nat)
    requires n <= |a| && n <= |b| && a[..n] == b[..n]
    ensures n <= CommonLen(a, b)
    ensures n < |a| && n < |b| && a[n] != b[n] ==> n == CommonLen(a, b)
    ensures n == |a| || n == |b| ==> n == CommonLen(a, b)
  {
    var m := CommonLen(a, b);
    if m > n {
      assert a[n] == a[..m][n] && b[n] == b[..m][n];
    }
  }

  /** The common prefix of the outer bounds is one of everything in between. */
  lemma InnerCommonLen(lo: seq<byte>, a: seq<byte>, b: seq<byte>, up: seq<byte>)
    requires Le(lo, a) && Le(a, b) && Le(b, up)
    ensures CommonLen(lo, up) <= CommonLen(a, b)
  {
    var n := CommonLen(lo, up);
    var p := lo[..n];
    PrefixLe(p, lo);
    LeTransitive(p, lo, a);
    LeTransitive(p, a, b);
    LeTransitive(a, b, up);
    BetweenExtends(p, a, up);
    BetweenExtends(p, b, up);
    assert a[..n] == p && b[..n] == p;
    CommonLenIs(a, b, n);
  }

  function Cut(s: seq<byte>, n: nat): (r: seq<byte>)
    ensures r <= s && |r| <= n
    ensures |s| <= n ==> r == s
  {
    if |s| <= n then s else s[..n]
  }

  lemma CutCommonLen(a: seq<byte>, b: seq<byte>, n: nat)
    requires n > CommonLen(a, b)
    ensures CommonLen(Cut(a, n), Cut(b, n)) == CommonLen(a, b)
  {
    var m := CommonLen(a, b);
    assert Cut(a, n)[..m] == a[..m] && Cut(b, n)[..m] == b[..m];
    CommonLenIs(Cut(a, n), Cut(b, n), m);
  }

  lemma CutOrdered(a: seq<byte>, b: seq<byte>, n: nat)
    requires Le(a, b) && n > CommonLen(a, b)
    ensures Le(Cut(a, n), Cut(b, n))
  {
    DecidedEarly(a, b, Cut(a, n), Cut(b, n), n);
  }

  /** Order is decided within the first bytes after the common prefix. */
  lemma {:induction false} DecidedEarly(a: seq<byte>, b: seq<byte>, a': seq<byte>, b': seq<byte>, n: nat)
    requires n > CommonLen(a, b) && a' == Cut(a, n) && b' == Cut(b, n) && Le(a, b)
    ensures Le(a', b')
    decreases |a|
  {
    if a != [] && b != [] && a[0] == b[0] {
      assert a'[1..] == Cut(a[1..], n - 1) && b'[1..] == Cut(b[1..], n - 1);
      DecidedEarly(a[1..], b[1..], a'[1..], b'[1..], n - 1);
    }
  }
}
