/** The printer of stores, whose buffer is large enough for what it writes. */
module HstorePrint {
  import opened Wrappers
  import opened Growth
  import opened ByteOrder
  import opened HstoreFormat
  import opened HstoreText

  // ---------------------------------------------------------------- the printed text

  predicate NeedsEscape(c: byte) { c == QUOTE || c == BACKSLASH }

  function Escaped(s: bytes): (r: bytes)
    ensures |s| <= |r| <= 2 * |s|
  {
    if s == [] then []
    else Escaped(s[..|s| - 1]) + if NeedsEscape(s[|s| - 1]) then [BACKSLASH, s[|s| - 1]] else [s[|s| - 1]]
  }

  function Quoted(s: bytes): bytes { [QUOTE] + Escaped(s) + [QUOTE] }

  const NULL_WORD: bytes := [78, 85, 76, 76]
  const ARROW: bytes := [EQUALS, GREATER]
  const SEPARATOR: bytes := [COMMA, SPACE]

  function PrintItem(it: Item): bytes
  {
    Quoted(it.key) + ARROW + if it.isnull then NULL_WORD else Quoted(it.val)
  }

  /** The text of the first pairs, each followed by a separator unless it is the last of all. */
  function PrintUpTo(items: seq<Item>, n: nat): bytes
    requires n <= |items|
  {
    if n == 0 then []
    else PrintUpTo(items, n - 1) + PrintItem(items[n - 1]) + if n < |items| then SEPARATOR else []
  }

  function Print(items: seq<Item>): bytes { PrintUpTo(items, |items|) }

  /** What the printer allots for the first pairs. */
  function Allotted(items: seq<Item>, n: nat): nat
    requires n <= |items|
  {
    if n == 0 then 0
    else
      var it := items[n - 1];
      Allotted(items, n - 1) + 6 + 2 * |it.key| + 2 + if it.isnull then 2 else 2 * |it.val|
  }

  lemma ItemFits(it: Item)
    ensures |PrintItem(it)| + 2 <= 6 + 2 * |it.key| + 2 + (if it.isnull then 2 else 2 * |it.val|)
  {
  }

  /** The text of the first pairs fits; of all pairs, with room for the terminator. */
  lemma {:induction false} PrintFits(items: seq<Item>, n: nat)
    requires n <= |items|
    ensures |PrintUpTo(items, n)| <= Allotted(items, n)
    ensures 0 < n == |items| ==> |PrintUpTo(items, n)| + 1 <= Allotted(items, n)
    decreases n
  {
    hide PrintItem;
    if n > 0 {
      PrintFits(items, n - 1);
      ItemFits(items[n - 1]);
    }
  }

  // ---------------------------------------------------------------- the code

  /** Memory that is written from the front. */
  class Output {
    const buf: array<byte>
    var ptr: nat

    ghost predicate Valid()
      reads this
    {
      ptr <= buf.Length
    }

    ghost function Text(): bytes
      requires Valid()
      reads this, buf
    {
      buf[..ptr]
    }

    constructor (size: nat)
      ensures Valid() && buf.Length == size && Text() == [] && fresh(buf)
    {
      buf := new byte[size](_ => 0);
      ptr := 0;
    }

    method Put(s: bytes)
      requires Valid() && ptr + |s| <= buf.Length
      modifies this, buf
      ensures Valid() && Text() == old(Text()) + s
    {
      forall i | 0 <= i < |s| {
        buf[ptr + i] := s[i];
      }
      ptr := ptr + |s|;
    }

    /** Copies a string, escaping quotes and backslashes. */
    method PutEscaped(s: bytes)
      requires Valid() && ptr + |Escaped(s)| <= buf.Length
      modifies this, buf
      ensures Valid() && Text() == old(Text()) + Escaped(s)
    {
      hide NeedsEscape, Escaped;
      ghost var was := Text();
      EscapedStart(s);
      var i := 0;
      while i < |s|
        invariant 0 <= i <= |s| && Valid() && Text() == was + Escaped(s[..i])
      {
        EscapedStep(s, i);
        EscapedGrows(s, i + 1);
        if NeedsEscape(s[i]) {
          Put([BACKSLASH]);
          Put([s[i]]);
          assert was + Escaped(s[..i]) + [BACKSLASH] + [s[i]] == was + (Escaped(s[..i]) + [BACKSLASH, s[i]]);
        } else {
          Put([s[i]]);
          assert was + Escaped(s[..i]) + [s[i]] == was + (Escaped(s[..i]) + [s[i]]);
        }
        i := i + 1;
      }
      assert s[..i] == s;
    }

    method PutQuoted(s: bytes)
      requires Valid() && ptr + |Quoted(s)| <= buf.Length
      modifies this, buf
      ensures Valid() && Text() == old(Text()) + Quoted(s)
    {
      hide Escaped;
      ghost var was := Text();
      Put([QUOTE]);
      PutEscaped(s);
      Put([QUOTE]);
      assert was + [QUOTE] + Escaped(s) + [QUOTE] == was + ([QUOTE] + Escaped(s) + [QUOTE]);
    }

    method PutItem(it: Item)
      requires Valid() && ptr + |PrintItem(it)| <= buf.Length
      modifies this, buf
      ensures Valid() && Text() == old(Text()) + PrintItem(it)
    {
      hide Quoted;
      ghost var was, key := Text(), Quoted(it.key);
      PutQuoted(it.key);
      Put([EQUALS]);
      Put([GREATER]);
      Joined(was, key, [EQUALS], [GREATER]);
      if it.isnull {
        Put(NULL_WORD);
        Joined(was, key, ARROW, NULL_WORD);
      } else {
        PutQuoted(it.val);
        Joined(was, key, ARROW, Quoted(it.val));
      }
    }
  }

  lemma Joined(a: bytes, b: bytes, c: bytes, d: bytes)
    ensures a + b + c + d == a + (b + c + d) && a + b + c + d == a + b + (c + d)
  {
  }

  lemma EscapedStart(s: bytes)
    ensures Escaped(s[..0]) == []
  {
  }

  lemma EscapedStep(s: bytes, i: nat)
    requires i < |s|
    ensures Escaped(s[..i + 1]) == Escaped(s[..i]) + if NeedsEscape(s[i]) then [BACKSLASH, s[i]] else [s[i]]
  {
    assert s[..i + 1][..i] == s[..i];
  }

  lemma {:induction false} EscapedGrows(s: bytes, i: nat)
    requires i <= |s|
    ensures |Escaped(s[..i])| <= |Escaped(s)|
    decreases |s| - i
  {
    if i < |s| {
      EscapedGrows(s, i + 1);
      EscapedStep(s, i);
    } else {
      assert s[..i] == s;
    }
  }

  lemma {:induction false} PrintGrows(items: seq<Item>, i: nat)
    requires i <= |items|
    ensures |PrintUpTo(items, i)| <= |Print(items)|
    decreases |items| - i
  {
    hide PrintItem;
    if i < |items| {
      PrintGrows(items, i + 1);
    }
  }

  /** The text of a store, or none when the buffer would be too large. The text and its terminator
      stay within the buffer. */
  method HstoreOut(h: HStore) returns (r: Option<bytes>)
    requires Packed(h)
    ensures r.None? <==> Allotted(Items(h), Count(h)) > MAX_ALLOC
    ensures r.Some? ==> r.value == Print(Items(h))
  {
    hide Packed, ItemAt, PrintItem;
    ghost var items := Items(h);
    var count := Count(h);
    if count == 0 {
      return Some([]);
    }
    var buflen, i := 0, 0;
    while i < count
      invariant 0 <= i <= count && buflen == Allotted(items, i)
    {
      var it := ItemAt(h, i);
      assert it == items[i];
      buflen := buflen + 6 + 2 * |it.key|;
      buflen := buflen + 2 + if it.isnull then 2 else 2 * |it.val|;
      i := i + 1;
    }
    if buflen > MAX_ALLOC {
      return None;
    }
    PrintFits(items, count);
    var out := new Output(buflen);
    i := 0;
    while i < count
      invariant 0 <= i <= count && out.Valid() && fresh(out) && fresh(out.buf) && out.buf.Length == buflen
      invariant out.Text() == PrintUpTo(items, i)
    {
      var it := ItemAt(h, i);
      assert it == items[i];
      PrintGrows(items, i + 1);
      out.PutItem(it);
      if i + 1 != count {
        out.Put(SEPARATOR);
      } else {
        assert PrintUpTo(items, i) + PrintItem(it) + [] == PrintUpTo(items, i) + PrintItem(it);
      }
      i := i + 1;
    }
    var n := out.ptr;
    out.Put([0]);
    return Some(out.buf[..n]);
  }
}
