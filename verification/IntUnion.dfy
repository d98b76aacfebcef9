/** The union of integer keys, from which page keys are formed. */
module IntUnion {
  import opened IntCover
  import opened IntCompress
  import opened IntGist
  import opened MachineInt
  import opened Growth
  import opened Wrappers

  /** A sorted arrangement of the integers. */
  method SortInts(s: seq<int>) returns (r: seq<int>)
    ensures Sorted(r) && Elements(r) == Elements(s)
  {
    r := [];
    var i := 0;
    while i < |s|
      invariant 0 <= i <= |s| && Sorted(r) && Elements(r) == Elements(s[..i])
    {
      var j := |r|;
      while j > 0 && s[i] < r[j - 1]
        invariant 0 <= j <= |r|
        invariant forall t :: j <= t < |r| ==> s[i] < r[t]
      {
        j := j - 1;
      }
      InsertElements(r, s[i], j);
      assert s[..i + 1] == s[..i] + [s[i]];
      r := r[..j] + [s[i]] + r[j..];
      i := i + 1;
    }
    assert s[..i] == s;
  }

  lemma InsertElements(r: seq<int>, x: int, j: nat)
    requires j <= |r|
    ensures Elements(r[..j] + [x] + r[j..]) == Elements(r) + {x}
  {
    assert r == r[..j] + r[j..];
  }

  /** Drops repeated integers from a sorted list. */
  method UniqueInts(s: seq<int>) returns (r: seq<int>)
    requires Sorted(s)
    ensures Increasing(r) && Elements(r) == Elements(s)
  {
    r := [];
    var i := 0;
    while i < |s|
      invariant 0 <= i <= |s| && Increasing(r) && Elements(r) == Elements(s[..i])
      invariant r != [] ==> i > 0 && r[|r| - 1] == s[i - 1]
      invariant i > 0 ==> r != []
    {
      assert s[..i + 1] == s[..i] + [s[i]];
      assert Elements(s[..i + 1]) == Elements(s[..i]) + {s[i]};
      if r == [] || r[|r| - 1] != s[i] {
        assert Elements(r + [s[i]]) == Elements(r) + {s[i]};
        r := r + [s[i]];
      } else {
        assert s[i] in Elements(r);
        assert Elements(r) + {s[i]} == Elements(r);
      }
      i := i + 1;
    }
    assert s[..i] == s;
  }

  function TotalLength(parts: seq<seq<int>>): nat
  {
    if parts == [] then 0 else TotalLength(parts[..|parts| - 1]) + |parts[|parts| - 1]|
  }

  /** The elements of all keys, sorted and without duplicates; none when they need too much memory
      at once. */
  method Union(parts: seq<seq<int>>) returns (u: Option<seq<int>>)
    requires forall i :: 0 <= i < |parts| ==> Int32(parts[i])
    ensures u.None? <==> ArrayBytes(TotalLength(parts)) > MAX_ALLOC
    ensures u.Some? ==> UnionOf(u.value, parts)
  {
    var totlen, i := 0, 0;
    while i < |parts|
      invariant 0 <= i <= |parts| && totlen == TotalLength(parts[..i])
    {
      assert parts[..i + 1][..i] == parts[..i];
      totlen := totlen + |parts[i]|;
      i := i + 1;
    }
    assert parts[..i] == parts;
    if ArrayBytes(totlen) > MAX_ALLOC {
      return None;
    }
    var all := Gathered(parts);
    var sorted := SortInts(all);
    var r := UniqueInts(sorted);
    UnionIs(parts, all, r);
    return Some(r);
  }

  method Gathered(parts: seq<seq<int>>) returns (all: seq<int>)
    ensures forall z :: z in all <==> exists j :: 0 <= j < |parts| && z in parts[j]
  {
    all := [];
    var i := 0;
    while i < |parts|
      invariant 0 <= i <= |parts|
      invariant forall z :: z in all <==> exists j :: 0 <= j < i && z in parts[j]
    {
      all := all + parts[i];
      i := i + 1;
    }
  }

  lemma UnionIs(parts: seq<seq<int>>, all: seq<int>, u: seq<int>)
    requires forall i :: 0 <= i < |parts| ==> Int32(parts[i])
    requires forall z :: z in all <==> exists j :: 0 <= j < |parts| && z in parts[j]
    requires Increasing(u) && Elements(u) == Elements(all)
    ensures UnionOf(u, parts)
  {
    forall z ensures z in u <==> exists j :: 0 <= j < |parts| && z in parts[j] {
      assert z in u <==> z in Elements(u);
      assert z in all <==> z in Elements(all);
    }
    forall t | 0 <= t < |u| ensures INT32_MIN <= u[t] <= INT32_MAX {
      assert u[t] in u;
      var j :| 0 <= j < |parts| && u[t] in parts[j];
      assert Int32(parts[j]);
    }
  }

  /** The key of a page, formed from the expanded keys of its entries, and whether it can be
      expanded in turn. */
  method PageKey(parts: seq<seq<int>>, k: nat) returns (r: Compression)
    requires k > 0 && forall i :: 0 <= i < |parts| ==> Int32(parts[i])
    ensures r.Key? ==> Formed(r.s, parts, k) && GoodKey(r.s, k)
    ensures r.Key? ==> (Expandable(r.s, k) <==> |AllOf(parts)| < 2 * k || INT32_MAX !in AllOf(parts))
  {
    hide Compressed, GoodKey, Expandable;
    var u := Union(parts);
    if u.None? {
      return TooLong;
    }
    r := Compress(u.value, k);
    if r.Key? {
      FormedIsGood(r.s, parts, k);
      FormedExpandable(r.s, parts, k);
    }
  }
}
