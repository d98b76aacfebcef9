/** The texts of stores in all their spellings: bare and quoted words, escapes, blanks anywhere
    between words and signs. */
module HstoreSpelling {
  import opened Wrappers
  import opened ByteOrder
  import opened HstoreFormat
  import opened HstoreText

  // ---------------------------------------------------------------- words

  /** A word as it is written: in quotes or bare, and which of its bytes have a backslash before
      them. */
  datatype Spelling = Spelling(word: bytes, quoted: bool, esc: seq<bool>)

  /** White space: the blank, and the codes from horizontal tab to carriage return. */
  predicate Blank(c: byte) { c == 32 || c == 9 || c == 10 || c == 11 || c == 12 || c == 13 }

  predicate Blanks(s: bytes) { forall i :: 0 <= i < |s| ==> Blank(s[i]) }

  /** Bytes that cannot be written as such: in quotes the quote and the backslash; in a bare word the
      backslash, white space, a quote at its beginning, in keys the equals sign, and in values a comma
      behind the first byte. */
  predicate MustEscape(c: byte, quoted: bool, first: bool, key: bool)
  {
    if quoted then c == 34 || c == 92
    else c == 92 || Blank(c) || (first && c == 34) || (if key then c == 61 else !first && c == 44)
  }

  predicate GoodSpelling(s: Spelling, key: bool)
  {
    && |s.esc| == |s.word| < WORD_MAX && (s.word == [] ==> s.quoted)
    && forall i :: 0 <= i < |s.word| ==> MustEscape(s.word[i], s.quoted, i == 0, key) ==> s.esc[i]
  }

  function Written(word: bytes, esc: seq<bool>): bytes
    requires |word| == |esc|
  {
    if word == [] then []
    else (if esc[0] then [92, word[0]] else [word[0]]) + Written(word[1..], esc[1..])
  }

  function WordText(s: Spelling): bytes
    requires |s.word| == |s.esc|
  {
    if s.quoted then [34] + Written(s.word, s.esc) + [34] else Written(s.word, s.esc)
  }

  lemma BlankIsSpace(c: byte)
    ensures Blank(c) <==> IsSpace(c)
  {
  }

  /** The state inside a word. */
  function Inside(quoted: bool): ValState { if quoted then InEscVal else InVal }

  /** One byte of a word. */
  lemma ByteRead(c: byte, esc: bool, t: bytes, quoted: bool, key: bool, w: bytes)
    requires MustEscape(c, quoted, false, key) ==> esc
    requires |w| + 1 < WORD_MAX
    ensures ReadVal((if esc then [92, c] else [c]) + t, !key, Inside(quoted), w, quoted)
            == ReadVal(t, !key, Inside(quoted), w + [c], quoted)
  {
    BlankIsSpace(c);
    if esc {
      var text := [92, c] + t;
      assert text[1..] == [c] + t && text[1..][1..] == t;
    } else {
      assert ([c] + t)[1..] == t;
    }
  }

  /** The bytes of a word from some point on. */
  lemma {:induction false} BytesRead(word: bytes, esc: seq<bool>, t: bytes, quoted: bool, key: bool, w: bytes)
    requires |word| == |esc| && |w| + |word| < WORD_MAX
    requires forall i :: 0 <= i < |word| ==> MustEscape(word[i], quoted, false, key) ==> esc[i]
    ensures ReadVal(Written(word, esc) + t, !key, Inside(quoted), w, quoted)
            == ReadVal(t, !key, Inside(quoted), w + word, quoted)
    decreases |word|
  {
    hide ReadVal, MustEscape;
    if word == [] {
      assert Written(word, esc) + t == t && w + word == w;
    } else {
      var first, rest := if esc[0] then [92, word[0]] else [word[0]], Written(word[1..], esc[1..]) + t;
      assert Written(word, esc) + t == first + rest;
      ByteRead(word[0], esc[0], rest, quoted, key, w);
      BytesRead(word[1..], esc[1..], t, quoted, key, w + [word[0]]);
      assert (w + [word[0]]) + word[1..] == w + word;
    }
  }

  /** The first byte of a bare word. */
  lemma FirstByteRead(c: byte, esc: bool, t: bytes, key: bool)
    requires MustEscape(c, false, true, key) ==> esc
    ensures ReadVal((if esc then [92, c] else [c]) + t, !key, WaitVal, [], false) == ReadVal(t, !key, InVal, [c], false)
  {
    BlankIsSpace(c);
    assert [] + [c] == [c];
    if esc {
      var text := [92, c] + t;
      assert text[1..] == [c] + t && text[1..][1..] == t;
    } else {
      assert ([c] + t)[1..] == t;
    }
  }

  /** What the reader makes of what follows a word. */
  function Behind(s: Spelling, key: bool, t: bytes): Val
  {
    ReadVal(if s.quoted then [34] + t else t, !key, Inside(s.quoted), s.word, s.quoted)
  }

  lemma WordRead(s: Spelling, key: bool, t: bytes)
    requires GoodSpelling(s, key)
    ensures ReadVal(WordText(s) + t, !key, WaitVal, [], false) == Behind(s, key, t)
  {
    hide ReadVal, MustEscape;
    var word, esc := s.word, s.esc;
    if s.quoted {
      forall i | 0 <= i < |word| ensures MustEscape(word[i], true, false, key) ==> esc[i] {
        QuotedFirst(word[i], i == 0, key);
      }
      assert WordText(s) + t == [34] + (Written(word, esc) + ([34] + t));
      QuoteOpens(Written(word, esc) + ([34] + t), key);
      BytesRead(word, esc, [34] + t, true, key, []);
      assert [] + word == word;
    } else {
      var rest := Written(word[1..], esc[1..]) + t;
      assert WordText(s) + t == (if esc[0] then [92, word[0]] else [word[0]]) + rest;
      FirstByteRead(word[0], esc[0], rest, key);
      BytesRead(word[1..], esc[1..], t, false, key, [word[0]]);
      assert [word[0]] + word[1..] == word;
    }
  }

  lemma QuotedFirst(c: byte, first: bool, key: bool)
    ensures MustEscape(c, true, first, key) <==> MustEscape(c, true, false, key)
  {
  }

  lemma QuoteOpens(t: bytes, key: bool)
    ensures ReadVal([34] + t, !key, WaitVal, [], false) == ReadVal(t, !key, InEscVal, [], true)
  {
    assert ([34] + t)[1..] == t;
  }

  lemma {:induction false} BlanksSkipped(gap: bytes, t: bytes, key: bool)
    requires Blanks(gap)
    ensures ReadVal(gap + t, !key, WaitVal, [], false) == ReadVal(t, !key, WaitVal, [], false)
    decreases |gap|
  {
    if gap == [] {
      assert gap + t == t;
    } else {
      BlankIsSpace(gap[0]);
      BlanksSkipped(gap[1..], t, key);
      assert (gap + t)[1..] == gap[1..] + t;
    }
  }

  /** Behind a word comes white space, the end, or the sign that ends it when it is bare. The text
      goes on behind the first blank, if there is one behind a bare word. */
  lemma WordEnds(s: Spelling, key: bool, gap: bytes, t: bytes)
    requires Blanks(gap) && (!s.quoted ==> t == [] || t[0] == if key then 61 else 44)
    ensures Behind(s, key, gap + t)
            == Val(s.word, s.quoted, if s.quoted || gap == [] then gap + t else gap[1..] + t)
  {
    if s.quoted {
      assert ([34] + (gap + t))[1..] == gap + t;
    } else if gap == [] {
      assert gap + t == t;
    } else {
      BlankIsSpace(gap[0]);
      assert (gap + t)[1..] == gap[1..] + t;
    }
  }

  // ---------------------------------------------------------------- pairs

  /** A pair as it is written, with the white space before the key, around the arrow and behind the
      value. */
  datatype Pair = Pair(before: bytes, key: Spelling, left: bytes, right: bytes, val: Spelling, after: bytes)

  predicate GoodPair(p: Pair)
  {
    && Blanks(p.before) && Blanks(p.left) && Blanks(p.right) && Blanks(p.after)
    && GoodSpelling(p.key, true) && GoodSpelling(p.val, false)
  }

  /** The word null in any letter case. */
  predicate SpellsNull(w: bytes)
  {
    |w| == 4 && w[0] in [78, 110] && w[1] in [85, 117] && w[2] in [76, 108] && w[3] in [76, 108]
  }

  function ItemOf(p: Pair): Item
  {
    Item(p.key.word, p.val.word, !p.val.quoted && SpellsNull(p.val.word))
  }

  function ItemsOf(ps: seq<Pair>): seq<Item>
  {
    if ps == [] then [] else [ItemOf(ps[0])] + ItemsOf(ps[1..])
  }

  predicate GoodPairs(ps: seq<Pair>)
  {
    forall i :: 0 <= i < |ps| ==> GoodPair(ps[i])
  }

  function PairText(p: Pair, rest: bytes): bytes
    requires GoodPair(p)
  {
    p.before + (WordText(p.key) + (p.left + ([61, 62] + (p.right + (WordText(p.val) + (p.after + rest))))))
  }

  /** Pairs with commas between them; `tail` is white space behind a last comma, or alone where there
      is no pair. */
  function TextOf(ps: seq<Pair>, tail: Option<bytes>): bytes
    requires GoodPairs(ps)
  {
    if ps == [] then (if tail.Some? then tail.value else [])
    else PairText(ps[0], if |ps| == 1 && tail.None? then [] else [44] + TextOf(ps[1..], tail))
  }

  lemma NullIs(w: bytes)
    ensures SpellsNull(w) <==> IsNullWord(w)
  {
  }

  lemma {:induction false} BlanksBeforeArrow(gap: bytes, t: bytes, k: bytes, pairs: seq<Item>)
    requires Blanks(gap)
    ensures ReadPairs(gap + ([61, 62] + t), WEq, k, pairs) == ReadPairs(t, WVal, k, pairs)
    decreases |gap|
  {
    hide ReadVal;
    var text := gap + ([61, 62] + t);
    if gap == [] {
      assert text == [61, 62] + t && text[1..] == [62] + t && text[1..][1..] == t;
    } else {
      BlankIsSpace(gap[0]);
      BlanksBeforeArrow(gap[1..], t, k, pairs);
      assert text[1..] == gap[1..] + ([61, 62] + t);
    }
  }

  lemma {:induction false} BlanksBehindValue(gap: bytes, t: bytes, k: bytes, pairs: seq<Item>)
    requires Blanks(gap)
    ensures ReadPairs(gap + t, WDel, k, pairs) == ReadPairs(t, WDel, k, pairs)
    decreases |gap|
  {
    hide ReadVal;
    if gap == [] {
      assert gap + t == t;
    } else {
      BlankIsSpace(gap[0]);
      BlanksBehindValue(gap[1..], t, k, pairs);
      assert (gap + t)[1..] == gap[1..] + t;
    }
  }

  lemma BlanksTail(gap: bytes)
    requires Blanks(gap) && gap != []
    ensures Blanks(gap[1..])
  {
  }

  /** A key, when there is room for one more pair. */
  lemma KeyRead(p: Pair, rest: bytes, k: bytes, pairs: seq<Item>)
    requires GoodPair(p)
    ensures var t := p.right + (WordText(p.val) + (p.after + rest));
            ReadPairs(PairText(p, rest), WKey, k, pairs)
            == if |pairs| >= PAIRS_MAX then None else ReadPairs(t, WVal, p.key.word, pairs)
  {
    hide ReadVal, MustEscape, WordText, Blanks, Behind;
    var t := p.right + (WordText(p.val) + (p.after + rest));
    var arrow := [61, 62] + t;
    BlanksSkipped(p.before, WordText(p.key) + (p.left + arrow), true);
    WordRead(p.key, true, p.left + arrow);
    WordEnds(p.key, true, p.left, arrow);
    if !p.key.quoted && p.left != [] {
      BlanksTail(p.left);
      BlanksBeforeArrow(p.left[1..], t, p.key.word, pairs);
    } else {
      BlanksBeforeArrow(p.left, t, p.key.word, pairs);
    }
  }

  lemma ValueRead(p: Pair, rest: bytes, pairs: seq<Item>)
    requires GoodPair(p) && (rest == [] || rest[0] == 44)
    ensures ReadPairs(p.right + (WordText(p.val) + (p.after + rest)), WVal, p.key.word, pairs)
            == ReadPairs(rest, WDel, p.key.word, pairs + [ItemOf(p)])
  {
    hide ReadVal, MustEscape, WordText, Blanks, Behind, SpellsNull, IsNullWord;
    NullIs(p.val.word);
    BlanksSkipped(p.right, WordText(p.val) + (p.after + rest), false);
    WordRead(p.val, false, p.after + rest);
    WordEnds(p.val, false, p.after, rest);
    var more := pairs + [ItemOf(p)];
    if !p.val.quoted && p.after != [] {
      BlanksTail(p.after);
      BlanksBehindValue(p.after[1..], rest, p.key.word, more);
    } else {
      BlanksBehindValue(p.after, rest, p.key.word, more);
    }
  }

  lemma OnlyBlanks(t: bytes, k: bytes, pairs: seq<Item>)
    requires Blanks(t)
    ensures ReadPairs(t, WKey, k, pairs) == Some(pairs)
  {
    hide Blanks;
    BlanksSkipped(t, [], true);
    assert t + [] == t;
  }

  lemma AfterValue(t: bytes, k: bytes, pairs: seq<Item>)
    ensures ReadPairs([], WDel, k, pairs) == Some(pairs)
    ensures ReadPairs([44] + t, WDel, k, pairs) == ReadPairs(t, WKey, k, pairs)
  {
    hide ReadVal;
    assert ([44] + t)[1..] == t;
  }

  /** Whatever way the pairs are written, they are read as they are, as long as there is room for
      them. */
  lemma {:induction false} SpelledIsRead(ps: seq<Pair>, tail: Option<bytes>, k: bytes, pairs: seq<Item>)
    requires GoodPairs(ps) && (tail.Some? ==> Blanks(tail.value))
    ensures ReadPairs(TextOf(ps, tail), WKey, k, pairs)
            == if ps == [] || |pairs| + |ps| <= PAIRS_MAX then Some(pairs + ItemsOf(ps)) else None
    decreases |ps|
  {
    hide ReadPairs, GoodPair, PairText, ItemOf, Blanks;
    if ps == [] {
      NoBlanks();
      OnlyBlanks(TextOf(ps, tail), k, pairs);
      assert pairs + [] == pairs;
    } else {
      var p := ps[0];
      var rest := if |ps| == 1 && tail.None? then [] else [44] + TextOf(ps[1..], tail);
      KeyRead(p, rest, k, pairs);
      if |pairs| < PAIRS_MAX {
        var more := pairs + [ItemOf(p)];
        ValueRead(p, rest, pairs);
        AfterValue(TextOf(ps[1..], tail), p.key.word, more);
        SpelledIsRead(ps[1..], tail, p.key.word, more);
        assert more + ItemsOf(ps[1..]) == pairs + ItemsOf(ps);
        if |ps| == 1 {
          assert ps[1..] == [] && ItemsOf(ps[1..]) == [] && more + [] == more;
        }
      }
    }
  }

  lemma NoBlanks()
    ensures Blanks([])
  {
  }

  // ---------------------------------------------------------------- every text that is read

  /** What may follow the bytes of a word, given what the reader leaves: the closing quote, or for a
      bare word its end. */
  predicate Ends(quoted: bool, key: bool, tail: bytes, rest: bytes)
  {
    if quoted then tail == [34] + rest
    else
      || (tail == rest && (rest == [] || rest[0] == if key then 61 else 44))
      || (tail != [] && Blank(tail[0]) && rest == tail[1..])
  }

  predicate Escapes(word: bytes, esc: seq<bool>, quoted: bool, key: bool)
  {
    |word| == |esc| && forall i :: 0 <= i < |word| ==> MustEscape(word[i], quoted, false, key) ==> esc[i]
  }

  lemma EscapesMore(c: byte, e: bool, word: bytes, esc: seq<bool>, quoted: bool, key: bool)
    requires Escapes(word, esc, quoted, key) && (MustEscape(c, quoted, false, key) ==> e)
    ensures Escapes([c] + word, [e] + esc, quoted, key)
    ensures Written([c] + word, [e] + esc) == (if e then [92, c] else [c]) + Written(word, esc)
  {
    hide MustEscape;
    assert ([c] + word)[1..] == word && ([e] + esc)[1..] == esc;
  }

  predicate Stops(t: bytes, key: bool, quoted: bool)
  {
    t == [] || if quoted then t[0] == 34 else Blank(t[0]) || t[0] == if key then 61 else 44
  }

  lemma InsideStops(t: bytes, key: bool, quoted: bool, w: bytes)
    requires ReadVal(t, !key, Inside(quoted), w, quoted).Val? && Stops(t, key, quoted)
    ensures var v := ReadVal(t, !key, Inside(quoted), w, quoted);
            v.word == w && v.escaped == quoted && Ends(quoted, key, t, v.rest)
  {
    if t != [] {
      BlankIsSpace(t[0]);
      assert t == [t[0]] + t[1..];
    }
  }

  lemma InsideEscape(t: bytes, key: bool, quoted: bool, w: bytes)
    requires ReadVal(t, !key, Inside(quoted), w, quoted).Val? && t != [] && t[0] == 92
    ensures |t| >= 2 && !Full(w) && t == [92, t[1]] + t[2..]
    ensures ReadVal(t, !key, Inside(quoted), w, quoted) == ReadVal(t[2..], !key, Inside(quoted), w + [t[1]], quoted)
  {
    if |t| >= 2 {
      assert t[1..][1..] == t[2..] && t[1..][0] == t[1];
    }
  }

  lemma InsideByte(t: bytes, key: bool, quoted: bool, w: bytes)
    requires ReadVal(t, !key, Inside(quoted), w, quoted).Val? && !Stops(t, key, quoted) && t[0] != 92
    ensures !Full(w) && !MustEscape(t[0], quoted, false, key) && t == [t[0]] + t[1..]
    ensures ReadVal(t, !key, Inside(quoted), w, quoted) == ReadVal(t[1..], !key, Inside(quoted), w + [t[0]], quoted)
  {
    BlankIsSpace(t[0]);
  }

  /** The bytes that were read inside a word. */
  lemma {:induction false} InsideSpelled(t: bytes, key: bool, quoted: bool, w: bytes)
    returns (more: bytes, esc: seq<bool>, tail: bytes)
    requires ReadVal(t, !key, Inside(quoted), w, quoted).Val? && |w| < WORD_MAX
    ensures var v := ReadVal(t, !key, Inside(quoted), w, quoted);
            && v.word == w + more && v.escaped == quoted && |v.word| < WORD_MAX
            && Escapes(more, esc, quoted, key) && t == Written(more, esc) + tail && Ends(quoted, key, tail, v.rest)
    decreases |t|
  {
    hide ReadVal, MustEscape, Written, Ends, Inside, Stops;
    if Stops(t, key, quoted) {
      InsideStops(t, key, quoted, w);
      more, esc, tail := [], [], t;
      NothingWritten(more, esc, quoted, key);
      assert w + [] == w && [] + t == t;
    } else {
      StopsNot(t, key, quoted);
      var escaped := t[0] == 92;
      if escaped {
        InsideEscape(t, key, quoted, w);
      } else {
        InsideByte(t, key, quoted, w);
      }
      var d, rest := if escaped then t[1] else t[0], if escaped then t[2..] else t[1..];
      var m, e, l := InsideSpelled(rest, key, quoted, w + [d]);
      EscapesMore(d, escaped, m, e, quoted, key);
      more, esc, tail := [d] + m, [escaped] + e, l;
      assert (w + [d]) + m == w + more;
      var first := if escaped then [92, d] else [d];
      assert t == first + (Written(m, e) + l) == first + Written(m, e) + l;
    }
  }

  lemma NothingWritten(word: bytes, esc: seq<bool>, quoted: bool, key: bool)
    requires word == [] && esc == []
    ensures Escapes(word, esc, quoted, key) && Written(word, esc) == []
  {
  }

  lemma StopsNot(t: bytes, key: bool, quoted: bool)
    requires !Stops(t, key, quoted)
    ensures t != []
  {
  }

  /** What the reader finds: a word behind white space, or white space alone. */
  lemma {:induction false} WordSpelled(t: bytes, key: bool) returns (gap: bytes, s: Spelling, tail: bytes)
    requires !ReadVal(t, !key, WaitVal, [], false).BadVal?
    ensures var v := ReadVal(t, !key, WaitVal, [], false);
            && (v.NoVal? ==> Blanks(t))
            && (v.Val? ==>
                  && Blanks(gap) && GoodSpelling(s, key) && s.word == v.word && s.quoted == v.escaped
                  && t == gap + (WordText(s) + tail) && FollowsWord(s.quoted, key, tail, v.rest))
    decreases |t|
  {
    hide MustEscape, Written, Ends, WordText, Full;
    gap, s, tail := [], Spelling([], true, []), [];
    if t == [] {
    } else if Blank(t[0]) {
      BlankFirst(t, key);
      gap, s, tail := WordSpelled(t[1..], key);
      gap := [t[0]] + gap;
      assert t == [t[0]] + t[1..];
      BlanksCons(t[0], t[1..]);
      BlanksCons(t[0], gap[1..]);
    } else if t[0] == 34 {
      s, tail := QuotedSpelled(t, key);
      assert t == [] + (WordText(s) + tail);
    } else {
      s, tail := BareSpelled(t, key);
      assert t == [] + (WordText(s) + tail);
    }
  }

  /** What may follow a word. */
  predicate FollowsWord(quoted: bool, key: bool, tail: bytes, rest: bytes)
  {
    if quoted then tail == rest else Ends(false, key, tail, rest)
  }

  lemma BlankFirst(t: bytes, key: bool)
    requires t != [] && Blank(t[0])
    ensures ReadVal(t, !key, WaitVal, [], false) == ReadVal(t[1..], !key, WaitVal, [], false)
  {
    BlankIsSpace(t[0]);
  }

  lemma BlanksCons(c: byte, s: bytes)
    requires Blank(c)
    ensures Blanks(s) ==> Blanks([c] + s)
  {
  }

  lemma QuotedSpelled(t: bytes, key: bool) returns (s: Spelling, tail: bytes)
    requires t != [] && t[0] == 34 && !ReadVal(t, !key, WaitVal, [], false).BadVal?
    ensures var v := ReadVal(t, !key, WaitVal, [], false);
            && v.Val? && GoodSpelling(s, key) && s.word == v.word && s.quoted && v.escaped
            && t == WordText(s) + tail && tail == v.rest
  {
    hide ReadVal, MustEscape, Written;
    assert t == [34] + t[1..];
    QuoteOpens(t[1..], key);
    InsideIsVal(t[1..], key);
    var more, esc, left := InsideSpelled(t[1..], key, true, []);
    assert [] + more == more;
    s := Spelling(more, true, esc);
    tail := ReadVal(t, !key, WaitVal, [], false).rest;
    forall i | 0 <= i < |more| ensures MustEscape(more[i], true, i == 0, key) ==> esc[i] {
      QuotedFirst(more[i], i == 0, key);
    }
    assert t == [34] + (Written(more, esc) + ([34] + tail)) == WordText(s) + tail;
  }

  lemma {:induction false} InsideIsVal(t: bytes, key: bool)
    requires !ReadVal(t, !key, InEscVal, [], true).BadVal?
    ensures ReadVal(t, !key, InEscVal, [], true).Val?
  {
    NeverNothing(t, key, InEscVal, [], true);
  }

  lemma {:induction false} NeverNothing(t: bytes, key: bool, st: ValState, w: bytes, escaped: bool)
    requires !st.WaitVal?
    ensures !ReadVal(t, !key, st, w, escaped).NoVal?
    decreases |t|
  {
    if t != [] {
      var m := Next(t[0], !key, st, w, escaped);
      if m.Go? {
        NeverNothing(t[1..], key, m.st, m.word, m.escaped);
      }
    }
  }

  lemma BareSpelled(t: bytes, key: bool) returns (s: Spelling, tail: bytes)
    requires t != [] && !Blank(t[0]) && t[0] != 34 && !ReadVal(t, !key, WaitVal, [], false).BadVal?
    ensures var v := ReadVal(t, !key, WaitVal, [], false);
            && v.Val? && GoodSpelling(s, key) && s.word == v.word && !s.quoted && !v.escaped
            && t == WordText(s) + tail && Ends(false, key, tail, v.rest)
  {
    hide ReadVal, MustEscape, Ends;
    var c, e, rest := BareFirst(t, key);
    NeverNothing(rest, key, InVal, [c], false);
    var more, esc, left := InsideSpelled(rest, key, false, [c]);
    s, tail := Spelling([c] + more, false, [e] + esc), left;
    assert s.word[1..] == more && s.esc[1..] == esc;
    forall i | 0 <= i < |s.word| ensures MustEscape(s.word[i], false, i == 0, key) ==> s.esc[i] {
      if i > 0 {
        assert s.word[i] == more[i - 1] && s.esc[i] == esc[i - 1];
      }
    }
    var first := if e then [92, c] else [c];
    assert t == first + (Written(more, esc) + left) == first + Written(more, esc) + left;
  }

  lemma BareFirst(t: bytes, key: bool) returns (c: byte, e: bool, rest: bytes)
    requires t != [] && !Blank(t[0]) && t[0] != 34 && !ReadVal(t, !key, WaitVal, [], false).BadVal?
    ensures ReadVal(t, !key, WaitVal, [], false) == ReadVal(rest, !key, InVal, [c], false)
    ensures t == (if e then [92, c] else [c]) + rest && (MustEscape(c, false, true, key) ==> e)
  {
    BlankIsSpace(t[0]);
    assert t == [t[0]] + t[1..];
    if t[0] == 92 {
      c, e, rest := t[1], true, t[2..];
      assert t[1..][1..] == rest && t[1..][0] == c && [] + [c] == [c];
    } else {
      c, e, rest := t[0], false, t[1..];
      assert [] + [c] == [c];
    }
  }

  lemma {:induction false} ArrowSpelled(t: bytes, k: bytes, pairs: seq<Item>) returns (gap: bytes, rest: bytes)
    requires ReadPairs(t, WEq, k, pairs).Some?
    ensures Blanks(gap) && t == gap + ([61, 62] + rest)
    ensures ReadPairs(t, WEq, k, pairs) == ReadPairs(rest, WVal, k, pairs)
    decreases |t|
  {
    hide ReadVal;
    BlankIsSpace(t[0]);
    if t[0] == 61 {
      gap, rest := [], t[1..][1..];
      assert t[1..] != [] && t[1..][0] == 62;
      assert t == [] + ([61, 62] + rest);
    } else {
      gap, rest := ArrowSpelled(t[1..], k, pairs);
      BlanksCons(t[0], gap);
      gap := [t[0]] + gap;
      assert t == [t[0]] + t[1..];
    }
  }

  /** Behind a value: white space, then the end or a comma. */
  lemma {:induction false} CommaSpelled(t: bytes, k: bytes, pairs: seq<Item>) returns (gap: bytes, rest: bytes)
    requires ReadPairs(t, WDel, k, pairs).Some?
    ensures Blanks(gap) && t == gap + rest
    ensures rest == [] ==> ReadPairs(t, WDel, k, pairs) == Some(pairs)
    ensures rest != [] ==> rest[0] == 44 && ReadPairs(t, WDel, k, pairs) == ReadPairs(rest[1..], WKey, k, pairs)
    decreases |t|
  {
    hide ReadVal;
    if t == [] {
      gap, rest := [], [];
    } else {
      BlankIsSpace(t[0]);
      if t[0] == 44 {
        gap, rest := [], t;
      } else {
        gap, rest := CommaSpelled(t[1..], k, pairs);
        BlanksCons(t[0], gap);
        gap := [t[0]] + gap;
        assert t == [t[0]] + t[1..];
      }
    }
  }

  /** A pair at the beginning of the text. */
  lemma PairSpelled(t: bytes, k: bytes, pairs: seq<Item>) returns (p: Pair, rest: bytes)
    requires ReadPairs(t, WKey, k, pairs).Some? && ReadVal(t, false, WaitVal, [], false).Val?
    ensures |pairs| < PAIRS_MAX && GoodPair(p) && t == PairText(p, rest)
    ensures rest == [] ==> ReadPairs(t, WKey, k, pairs) == Some(pairs + [ItemOf(p)])
    ensures rest != [] ==> rest[0] == 44
    ensures rest != [] ==>
              ReadPairs(t, WKey, k, pairs) == ReadPairs(rest[1..], WKey, p.key.word, pairs + [ItemOf(p)])
  {
    hide ReadVal, MustEscape, WordText, Blanks, IsNullWord, SpellsNull;
    var before, key, tail := WordSpelled(t, true);
    var v := ReadVal(t, false, WaitVal, [], false);
    var gap, t2 := ArrowSpelled(v.rest, v.word, pairs);
    var left := JoinGap(key.quoted, true, tail, v.rest, gap, [61, 62] + t2);
    var right, val, tail2 := WordSpelled(t2, false);
    var u := ReadVal(t2, true, WaitVal, [], false);
    NullIs(val.word);
    var more := pairs + [Item(key.word, val.word, !val.quoted && SpellsNull(val.word))];
    var gap2, t3 := CommaSpelled(u.rest, key.word, more);
    var after := JoinGap(val.quoted, false, tail2, u.rest, gap2, t3);
    p, rest := Pair(before, key, left, right, val, after), t3;
  }

  /** The white space behind a word, the blank that ended it included. */
  lemma JoinGap(quoted: bool, key: bool, tail: bytes, rest: bytes, gap: bytes, t: bytes) returns (all: bytes)
    requires FollowsWord(quoted, key, tail, rest) && Blanks(gap) && rest == gap + t
    ensures Blanks(all) && tail == all + t
  {
    if quoted || tail == rest {
      all := gap;
    } else {
      BlanksCons(tail[0], gap);
      all := [tail[0]] + gap;
      assert tail == [tail[0]] + rest;
    }
  }

  /** Every text that is read is a spelling of the pairs that are read from it. */
  lemma {:induction false} ReadIsSpelled(t: bytes, k: bytes, pairs: seq<Item>)
    returns (ps: seq<Pair>, tail: Option<bytes>)
    requires ReadPairs(t, WKey, k, pairs).Some?
    ensures GoodPairs(ps) && (tail.Some? ==> Blanks(tail.value)) && TextOf(ps, tail) == t
    ensures ReadPairs(t, WKey, k, pairs) == Some(pairs + ItemsOf(ps))
    ensures ps != [] ==> |pairs| + |ps| <= PAIRS_MAX
    decreases |t|
  {
    hide ReadVal, GoodPair, PairText, ItemOf, Blanks;
    if !ReadVal(t, false, WaitVal, [], false).Val? {
      var gap, s, l := WordSpelled(t, true);
      ps, tail := [], Some(t);
      assert pairs + [] == pairs;
    } else {
      var p, rest := PairSpelled(t, k, pairs);
      var more := pairs + [ItemOf(p)];
      if rest == [] {
        ps, tail := [p], None;
        assert ps[1..] == [] && ItemsOf(ps) == [ItemOf(p)] + [] == [ItemOf(p)];
      } else {
        RestShorter(p, rest);
        NoBlanks();
        var qs, l := ReadIsSpelled(rest[1..], p.key.word, more);
        ps, tail := [p] + qs, if qs == [] then Some(rest[1..]) else l;
        assert ps[1..] == qs && rest == [44] + rest[1..];
        assert more + ItemsOf(qs) == pairs + ItemsOf(ps);
      }
    }
  }

  lemma RestShorter(p: Pair, rest: bytes)
    requires GoodPair(p)
    ensures |rest| < |PairText(p, rest)|
  {
  }
}
