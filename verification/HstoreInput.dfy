/** The parser reads back what the printer writes, as long as it has room for the pairs. */
module HstoreInput {
  import opened Wrappers
  import opened ByteOrder
  import opened HstoreFormat
  import opened HstoreText
  import opened HstorePrint

  // ---------------------------------------------------------------- reading what was printed

  lemma {:induction false} EscapedCons(c: byte, s: bytes)
    ensures Escaped([c] + s) == (if NeedsEscape(c) then [BACKSLASH, c] else [c]) + Escaped(s)
    decreases |s|
  {
    hide NeedsEscape;
    var t := [c] + s;
    if s == [] {
      assert t[..0] == [];
    } else {
      var n := |s| - 1;
      EscapedCons(c, s[..n]);
      assert t[..|t| - 1] == [c] + s[..n];
    }
  }

  /** Inside quotes the parser undoes the escapes. */
  lemma {:induction false} ReadEscaped(s: bytes, t: bytes, ignoreeq: bool, w: bytes, escaped: bool)
    requires |w| + |s| < WORD_MAX
    ensures ReadVal(Escaped(s) + [QUOTE] + t, ignoreeq, InEscVal, w, escaped) == Val(w + s, escaped, t)
    decreases |s|
  {
    hide Escaped, ReadVal, NeedsEscape;
    var text := Escaped(s) + [QUOTE] + t;
    if s == [] {
      EscapedStart(s);
      assert s[..0] == s && text == [QUOTE] + t && w + s == w;
      ReadClosing(t, ignoreeq, w, escaped);
    } else {
      var c, rest := s[0], Escaped(s[1..]) + [QUOTE] + t;
      assert s == [c] + s[1..];
      EscapedCons(c, s[1..]);
      ReadEscaped(s[1..], t, ignoreeq, w + [c], escaped);
      assert w + s == (w + [c]) + s[1..];
      ReadChar(c, rest, ignoreeq, w, escaped);
      assert text == (if NeedsEscape(c) then [BACKSLASH, c] else [c]) + rest;
    }
  }

  lemma ReadClosing(t: bytes, ignoreeq: bool, w: bytes, escaped: bool)
    ensures ReadVal([QUOTE] + t, ignoreeq, InEscVal, w, escaped) == Val(w, escaped, t)
  {
    assert ([QUOTE] + t)[1..] == t;
  }

  lemma ReadChar(c: byte, t: bytes, ignoreeq: bool, w: bytes, escaped: bool)
    requires |w| + 1 < WORD_MAX
    ensures ReadVal((if NeedsEscape(c) then [BACKSLASH, c] else [c]) + t, ignoreeq, InEscVal, w, escaped)
            == ReadVal(t, ignoreeq, InEscVal, w + [c], escaped)
  {
    if NeedsEscape(c) {
      var text := [BACKSLASH, c] + t;
      assert text[1..] == [c] + t && text[1..][1..] == t;
    } else {
      assert ([c] + t)[1..] == t;
    }
  }

  lemma ReadQuoted(s: bytes, t: bytes, ignoreeq: bool)
    requires |s| < WORD_MAX
    ensures ReadVal(Quoted(s) + t, ignoreeq, WaitVal, [], false) == Val(s, true, t)
  {
    hide Escaped;
    var text := Quoted(s) + t;
    assert text[0] == QUOTE && text[1..] == Escaped(s) + [QUOTE] + t;
    ReadEscaped(s, t, ignoreeq, [], true);
    assert [] + s == s;
  }

  lemma SkipSpace(t: bytes, ignoreeq: bool)
    ensures ReadVal([SPACE] + t, ignoreeq, WaitVal, [], false) == ReadVal(t, ignoreeq, WaitVal, [], false)
  {
    assert ([SPACE] + t)[1..] == t;
  }

  /** The word NULL without quotes, before a comma or at the end. */
  lemma ReadNull(t: bytes)
    requires t == [] || t[0] == COMMA
    ensures ReadVal(NULL_WORD + t, true, WaitVal, [], false) == Val(NULL_WORD, false, t)
  {
    hide ReadVal;
    var a := NULL_WORD + t;
    assert a[1..] == NULL_WORD[1..] + t;
    assert a[1..][1..] == NULL_WORD[2..] + t;
    assert a[1..][1..][1..] == NULL_WORD[3..] + t;
    assert a[1..][1..][1..][1..] == t;
    var w1: bytes := [] + [a[0]];
    var w2 := w1 + [a[1..][0]];
    var w3 := w2 + [a[1..][1..][0]];
    var w4 := w3 + [a[1..][1..][1..][0]];
    ReadOne(a, [], WaitVal);
    ReadOne(a[1..], w1, InVal);
    ReadOne(a[1..][1..], w2, InVal);
    ReadOne(a[1..][1..][1..], w3, InVal);
    assert w4 == NULL_WORD;
    ReadStops(t, w4);
  }

  lemma ReadStops(t: bytes, w: bytes)
    requires t == [] || t[0] == COMMA
    ensures ReadVal(t, true, InVal, w, false) == Val(w, false, t)
  {
  }

  lemma ReadOne(t: bytes, w: bytes, st: ValState)
    requires t != [] && (t[0] == 78 || t[0] == 85 || t[0] == 76) && |w| < 4
    requires st == InVal || (st == WaitVal && w == [])
    ensures ReadVal(t, true, st, w, false) == ReadVal(t[1..], true, InVal, w + [t[0]], false)
  {
  }

  lemma KeyRead(key: bytes, t: bytes, k: bytes, pairs: seq<Item>)
    requires |key| < WORD_MAX && |pairs| < PAIRS_MAX
    ensures ReadPairs(Quoted(key) + ARROW + t, WKey, k, pairs) == ReadPairs(t, WVal, key, pairs)
    ensures ReadPairs([SPACE] + (Quoted(key) + ARROW + t), WKey, k, pairs) == ReadPairs(t, WVal, key, pairs)
  {
    hide ReadVal, Quoted;
    var text := Quoted(key) + ARROW + t;
    assert text == Quoted(key) + (ARROW + t);
    ReadQuoted(key, ARROW + t, false);
    SkipSpace(text, false);
    var a := ARROW + t;
    assert a[0] == EQUALS && a[1..] == [GREATER] + t && a[1..][1..] == t;
    assert ReadPairs(a, WEq, key, pairs) == ReadPairs(a[1..], WGt, key, pairs);
  }

  /** When there is no room for a further pair, its key is read and then refused. */
  lemma KeyRefused(key: bytes, t: bytes, k: bytes, pairs: seq<Item>)
    requires |key| < WORD_MAX && |pairs| >= PAIRS_MAX
    ensures ReadPairs(Quoted(key) + t, WKey, k, pairs) == None
    ensures ReadPairs([SPACE] + (Quoted(key) + t), WKey, k, pairs) == None
  {
    hide ReadVal, Quoted;
    ReadQuoted(key, t, false);
    SkipSpace(Quoted(key) + t, false);
  }

  lemma ValRead(key: bytes, val: bytes, t: bytes, pairs: seq<Item>)
    requires |val| < WORD_MAX
    ensures ReadPairs(Quoted(val) + t, WVal, key, pairs) == ReadPairs(t, WDel, key, pairs + [Item(key, val, false)])
  {
    hide ReadVal, Quoted;
    ReadQuoted(val, t, true);
  }

  lemma NullRead(key: bytes, t: bytes, pairs: seq<Item>)
    requires t == [] || t[0] == COMMA
    ensures ReadPairs(NULL_WORD + t, WVal, key, pairs) == ReadPairs(t, WDel, key, pairs + [Item(key, NULL_WORD, true)])
  {
    hide ReadVal;
    ReadNull(t);
  }

  /** A pair as the parser returns it: a null comes with the word it was written as. */
  function Reread(it: Item): Item { if it.isnull then Item(it.key, NULL_WORD, true) else it }

  function RereadAll(items: seq<Item>): (r: seq<Item>)
    ensures |r| == |items| && forall i :: 0 <= i < |items| ==> r[i] == Reread(items[i])
  {
    seq(|items|, i requires 0 <= i < |items| => Reread(items[i]))
  }

  ghost predicate ShortItem(it: Item) { |it.key| < WORD_MAX && |it.val| < WORD_MAX }

  lemma ItemRead(it: Item, t: bytes, k: bytes, pairs: seq<Item>)
    requires ShortItem(it) && (t == [] || t[0] == COMMA) && |pairs| < PAIRS_MAX
    ensures ReadPairs(PrintItem(it) + t, WKey, k, pairs) == ReadPairs(t, WDel, it.key, pairs + [Reread(it)])
    ensures ReadPairs([SPACE] + (PrintItem(it) + t), WKey, k, pairs) == ReadPairs(t, WDel, it.key, pairs + [Reread(it)])
  {
    hide ReadPairs, Quoted;
    var v := if it.isnull then NULL_WORD else Quoted(it.val);
    assert PrintItem(it) + t == Quoted(it.key) + ARROW + (v + t);
    KeyRead(it.key, v + t, k, pairs);
    if it.isnull {
      NullRead(it.key, t, pairs);
    } else {
      ValRead(it.key, it.val, t, pairs);
    }
  }

  /** The text from pair `i` on. */
  ghost function PrintFrom(items: seq<Item>, i: nat): bytes
    requires i <= |items|
    decreases |items| - i
  {
    if i == |items| then []
    else PrintItem(items[i]) + ((if i + 1 < |items| then SEPARATOR else []) + PrintFrom(items, i + 1))
  }

  lemma {:induction false} PrintSplits(items: seq<Item>, i: nat)
    requires i <= |items|
    ensures PrintUpTo(items, i) + PrintFrom(items, i) == Print(items)
    decreases |items| - i
  {
    hide PrintItem;
    if i < |items| {
      PrintSplits(items, i + 1);
      var a, b, d := PrintUpTo(items, i), PrintItem(items[i]), PrintFrom(items, i + 1);
      var c := if i + 1 < |items| then SEPARATOR else [];
      assert PrintUpTo(items, i + 1) == a + b + c;
      assert a + b + c + d == a + (b + (c + d));
    } else {
      assert PrintUpTo(items, i) + [] == PrintUpTo(items, i);
    }
  }

  lemma ItemRefused(it: Item, t: bytes, k: bytes, pairs: seq<Item>)
    requires ShortItem(it) && |pairs| >= PAIRS_MAX
    ensures ReadPairs(PrintItem(it) + t, WKey, k, pairs) == None
    ensures ReadPairs([SPACE] + (PrintItem(it) + t), WKey, k, pairs) == None
  {
    hide ReadPairs, Quoted;
    var v := if it.isnull then NULL_WORD else Quoted(it.val);
    assert PrintItem(it) + t == Quoted(it.key) + (ARROW + v + t);
    KeyRefused(it.key, ARROW + v + t, k, pairs);
  }

  /** What comes of the text from pair `i` on after `pairs`: nothing, if that makes too many. */
  ghost function After(items: seq<Item>, i: nat, pairs: seq<Item>): Option<seq<Item>>
    requires i <= |items|
  {
    if |pairs| + |items| - i <= PAIRS_MAX then Some(pairs + RereadAll(items)[i..]) else None
  }

  lemma {:induction false} FromRead(items: seq<Item>, i: nat, k: bytes, pairs: seq<Item>)
    requires i < |items| && forall j :: 0 <= j < |items| ==> ShortItem(items[j])
    ensures ReadPairs(PrintFrom(items, i), WKey, k, pairs) == After(items, i, pairs)
    ensures ReadPairs([SPACE] + PrintFrom(items, i), WKey, k, pairs) == After(items, i, pairs)
    decreases |items| - i
  {
    hide PrintItem, RereadAll, Reread, ReadPairs;
    var it, all := items[i], RereadAll(items);
    var t := (if i + 1 < |items| then SEPARATOR else []) + PrintFrom(items, i + 1);
    if |pairs| >= PAIRS_MAX {
      ItemRefused(it, t, k, pairs);
      return;
    }
    ItemRead(it, t, k, pairs);
    assert all[i..] == [all[i]] + all[i + 1..] && all[i] == Reread(it);
    assert (pairs + [Reread(it)]) + all[i + 1..] == pairs + all[i..];
    if i + 1 < |items| {
      FromRead(items, i + 1, it.key, pairs + [Reread(it)]);
      CommaRead(PrintFrom(items, i + 1), it.key, pairs + [Reread(it)]);
    } else {
      assert t == [] && all[i + 1..] == [];
      EndRead(t, it.key, pairs + [Reread(it)]);
      assert (pairs + [Reread(it)]) + [] == pairs + [Reread(it)];
    }
  }

  lemma CommaRead(t: bytes, k: bytes, pairs: seq<Item>)
    ensures ReadPairs(SEPARATOR + t, WDel, k, pairs) == ReadPairs([SPACE] + t, WKey, k, pairs)
  {
    assert (SEPARATOR + t)[1..] == [SPACE] + t;
  }

  lemma EndRead(t: bytes, k: bytes, pairs: seq<Item>)
    requires t == []
    ensures ReadPairs(t, WDel, k, pairs) == Some(pairs)
    ensures ReadPairs(t, WKey, k, pairs) == Some(pairs)
  {
  }

  /** The parser reads back every printed list of pairs that it has room for, and no other. */
  lemma PrintedIsRead(items: seq<Item>)
    requires forall j :: 0 <= j < |items| ==> ShortItem(items[j])
    ensures ReadPairs(Print(items), WKey, [], []) == if |items| <= PAIRS_MAX then Some(RereadAll(items)) else None
  {
    hide PrintItem, RereadAll, ReadPairs;
    PrintSplits(items, 0);
    assert [] + PrintFrom(items, 0) == PrintFrom(items, 0);
    var all := RereadAll(items);
    if items == [] {
      EndRead(Print(items), [], []);
      assert all == [];
    } else {
      FromRead(items, 0, [], []);
      assert [] + all[0..] == all;
    }
  }
}
