/** The printed text as a spelling: quoted words with as few escapes as possible, an arrow without
    blanks, a comma and a blank between pairs, and the bare word NULL. */
module HstorePrintForm {
  import opened Wrappers
  import opened HstoreFormat
  import opened HstoreText
  import opened HstorePrint
  import opened HstoreInput
  import opened HstoreSpelling

  /** A word in quotes, with a backslash only where there must be one. */
  function InQuotes(word: bytes): (s: Spelling)
    ensures s.word == word && s.quoted && |s.esc| == |word|
    ensures forall i :: 0 <= i < |word| ==> (s.esc[i] <==> word[i] == 34 || word[i] == 92)
  {
    Spelling(word, true, seq(|word|, i requires 0 <= i < |word| => word[i] == 34 || word[i] == 92))
  }

  const BARE_NULL := Spelling([78, 85, 76, 76], false, [false, false, false, false])

  function PairOf(it: Item, first: bool): Pair
  {
    Pair(if first then [] else [32], InQuotes(it.key), [], [], if it.isnull then BARE_NULL else InQuotes(it.val), [])
  }

  function PairsOf(items: seq<Item>, i: nat): (ps: seq<Pair>)
    requires i <= |items|
    ensures |ps| == |items| - i
    decreases |items| - i
  {
    if i == |items| then [] else [PairOf(items[i], i == 0)] + PairsOf(items, i + 1)
  }

  lemma {:induction false} WrittenIsEscaped(word: bytes)
    ensures Written(word, InQuotes(word).esc) == Escaped(word)
    decreases |word|
  {
    if word == [] {
    } else {
      WrittenIsEscaped(word[1..]);
      assert InQuotes(word).esc[1..] == InQuotes(word[1..]).esc;
      assert word == [word[0]] + word[1..];
      EscapedCons(word[0], word[1..]);
    }
  }

  lemma QuotesGood(word: bytes, key: bool)
    requires |word| < WORD_MAX
    ensures GoodSpelling(InQuotes(word), key) && WordText(InQuotes(word)) == Quoted(word)
  {
    hide Written, Escaped;
    WrittenIsEscaped(word);
  }

  lemma NullGood()
    ensures GoodSpelling(BARE_NULL, false) && WordText(BARE_NULL) == NULL_WORD
  {
    var s := BARE_NULL;
    assert s.word[1..] == [85, 76, 76] && s.esc[1..] == [false, false, false];
    assert s.word[1..][1..] == [76, 76] && s.esc[1..][1..] == [false, false];
    assert s.word[1..][1..][1..] == [76] && s.esc[1..][1..][1..] == [false];
    assert s.word[1..][1..][1..][1..] == [] && s.esc[1..][1..][1..][1..] == [];
  }

  lemma PairGood(it: Item, first: bool, rest: bytes)
    requires |it.key| < WORD_MAX && |it.val| < WORD_MAX
    ensures GoodPair(PairOf(it, first))
    ensures PairText(PairOf(it, first), rest) == (if first then [] else [32]) + (PrintItem(it) + rest)
  {
    hide Quoted, GoodSpelling, WordText;
    QuotesGood(it.key, true);
    QuotesGood(it.val, false);
    NullGood();
    var v := if it.isnull then NULL_WORD else Quoted(it.val);
    assert [] + ([61, 62] + ([] + (v + ([] + rest)))) == [61, 62] + (v + rest);
    assert PrintItem(it) + rest == Quoted(it.key) + ([61, 62] + (v + rest));
  }

  lemma {:induction false} PairsGood(items: seq<Item>, i: nat)
    requires i <= |items| && forall j :: 0 <= j < |items| ==> ShortItem(items[j])
    ensures GoodPairs(PairsOf(items, i))
    ensures i < |items| ==>
              TextOf(PairsOf(items, i), None) == (if i == 0 then [] else [32]) + PrintFrom(items, i)
    decreases |items| - i
  {
    hide PairText, GoodPair, PrintItem, PairOf;
    if i < |items| {
      PairsGood(items, i + 1);
      var p, ps := PairOf(items[i], i == 0), PairsOf(items, i + 1);
      var rest := if i + 1 < |items| then [44] + TextOf(ps, None) else [];
      PairGood(items[i], i == 0, rest);
      assert PairsOf(items, i)[1..] == ps;
      assert rest == (if i + 1 < |items| then SEPARATOR else []) + PrintFrom(items, i + 1);
    }
  }

  /** What is printed is exactly this spelling of the pairs. */
  lemma PrintedForm(items: seq<Item>)
    requires forall j :: 0 <= j < |items| ==> ShortItem(items[j])
    ensures GoodPairs(PairsOf(items, 0)) && Print(items) == TextOf(PairsOf(items, 0), None)
  {
    hide PrintItem, PairOf;
    PairsGood(items, 0);
    PrintSplits(items, 0);
    assert [] + PrintFrom(items, 0) == PrintFrom(items, 0);
  }
}
