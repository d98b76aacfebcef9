/** The text form of a store: what the parser makes of a text. */
module HstoreText {
  import opened Wrappers
  import opened Growth
  import opened ByteOrder
  import opened HstoreFormat

  const QUOTE: byte := 34
  const BACKSLASH: byte := 92
  const EQUALS: byte := 61
  const GREATER: byte := 62
  const COMMA: byte := 44
  const SPACE: byte := 32

  predicate IsSpace(c: byte) { c == SPACE || 9 <= c <= 13 }

  // Words and pairs are collected in buffers that grow by doubling, from 32 bytes and from 16 pairs
  // of 40 bytes, as long as memory for them can be had. Words stay below the largest length of keys
  // and values, so that the checks for it never fail here.

  /** The length that a word cannot reach. */
  const WORD_MAX: nat := 0x2000_0000

  /** The number of pairs after which there is no further one. */
  const PAIRS_MAX: nat := 0x100_0000

  const PAIR_BYTES: nat := 40

  // ---------------------------------------------------------------- one word

  datatype ValState = WaitVal | InVal | InEscVal | WaitEscIn | WaitEscEscIn

  /** A word, whether it was quoted, and the text after it. */
  datatype Val = NoVal | Val(word: bytes, escaped: bool, rest: bytes) | BadVal

  /** No further byte can be added to the word. */
  predicate Full(word: bytes) { |word| + 1 >= WORD_MAX }

  /** What a byte does: the word goes on, it ended before the byte or ends with it, or the text is
      refused. */
  datatype Move = Go(st: ValState, word: bytes, escaped: bool) | EndBefore | EndWith | Refuse

  function Put(c: byte, st: ValState, word: bytes, escaped: bool): Move
  {
    if Full(word) then Refuse else Go(st, word + [c], escaped)
  }

  function Next(c: byte, ignoreeq: bool, st: ValState, word: bytes, escaped: bool): Move
  {
    match st
    case WaitVal =>
      if c == QUOTE then Go(InEscVal, word, true)
      else if c == EQUALS && !ignoreeq then Refuse
      else if c == BACKSLASH then Go(WaitEscIn, word, escaped)
      else if !IsSpace(c) then Go(InVal, word + [c], escaped)
      else Go(WaitVal, word, escaped)
    case InVal =>
      if c == BACKSLASH then Go(WaitEscIn, word, escaped)
      else if c == EQUALS && !ignoreeq then EndBefore
      else if c == COMMA && ignoreeq then EndBefore
      else if IsSpace(c) then EndWith
      else Put(c, InVal, word, escaped)
    case InEscVal =>
      if c == BACKSLASH then Go(WaitEscEscIn, word, escaped)
      else if c == QUOTE then EndWith
      else Put(c, InEscVal, word, escaped)
    case WaitEscIn => Put(c, InVal, word, escaped)
    case WaitEscEscIn => Put(c, InEscVal, word, escaped)
  }

  /** Reads one word from the rest of a text, in state `st` and with `word` read so far. The end of
      the text stands for the terminating zero. */
  function ReadVal(t: bytes, ignoreeq: bool, st: ValState, word: bytes, escaped: bool): (v: Val)
    ensures v.Val? ==> |v.rest| <= |t|
    ensures v.Val? && st.WaitVal? ==> |v.rest| < |t|
    decreases |t|
  {
    if t == [] then
      if st.WaitVal? then NoVal else if st.InVal? then Val(word, escaped, t) else BadVal
    else
      match Next(t[0], ignoreeq, st, word, escaped)
      case Go(after, more, quoted) => ReadVal(t[1..], ignoreeq, after, more, quoted)
      case EndBefore => Val(word, escaped, t)
      case EndWith => Val(word, escaped, t[1..])
      case Refuse => BadVal
  }

  // ---------------------------------------------------------------- the pairs

  datatype ParseState = WKey | WEq | WGt | WVal | WDel

  function Lower(c: byte): byte { if 65 <= c <= 90 then c + 32 else c }

  /** The word null in any case. */
  predicate IsNullWord(w: bytes)
  {
    |w| == 4 && Lower(w[0]) == 110 && Lower(w[1]) == 117 && Lower(w[2]) == 108 && Lower(w[3]) == 108
  }

  /** Reads the rest of a text; `key` is the key whose value is to come. */
  function ReadPairs(t: bytes, st: ParseState, key: bytes, pairs: seq<Item>): Option<seq<Item>>
    decreases |t|, if st.WKey? || st.WVal? then 0 else 1
  {
    match st
    case WKey =>
      (match ReadVal(t, false, WaitVal, [], false)
       case NoVal => Some(pairs)
       case BadVal => None
       case Val(word, _, rest) => if |pairs| >= PAIRS_MAX then None else ReadPairs(rest, WEq, word, pairs))
    case WEq =>
      if t == [] then None
      else if t[0] == EQUALS then ReadPairs(t[1..], WGt, key, pairs)
      else if IsSpace(t[0]) then ReadPairs(t[1..], WEq, key, pairs)
      else None
    case WGt =>
      if t == [] || t[0] != GREATER then None else ReadPairs(t[1..], WVal, key, pairs)
    case WVal =>
      (match ReadVal(t, true, WaitVal, [], false)
       case NoVal => None
       case BadVal => None
       case Val(word, escaped, rest) =>
         ReadPairs(rest, WDel, key, pairs + [Item(key, word, !escaped && IsNullWord(word))]))
    case WDel =>
      if t == [] then Some(pairs)
      else if t[0] == COMMA then ReadPairs(t[1..], WKey, key, pairs)
      else if IsSpace(t[0]) then ReadPairs(t[1..], WDel, key, pairs)
      else None
  }

  /** The parser's cursor, the word being read and the pairs found so far, with the lengths of
      the buffers for both. */
  class Parser {
    const text: bytes
    var ptr: nat
    var word: bytes
    var wordlen: nat
    var pairs: seq<Item>
    var plen: nat

    ghost predicate WordFits()
      reads this
    {
      wordlen > 1 && DoublesTo(wordlen, WORD_MAX) && |word| + 1 <= wordlen <= WORD_MAX
    }

    ghost predicate PairsFit()
      reads this
    {
      plen > 0 && DoublesTo(plen, PAIRS_MAX) && |pairs| <= plen <= PAIRS_MAX
    }

    constructor (text: bytes)
      ensures this.text == text && ptr == 0 && word == [] && pairs == []
    {
      this.text := text;
      ptr := 0;
      word := [];
      wordlen := 0;
      pairs := [];
      plen := 0;
    }

    /** Adds a byte to the word, after doubling its buffer if it is full. */
    method PutChar(c: byte) returns (ok: bool)
      requires WordFits()
      modifies this`word, this`wordlen
      ensures ok <==> !Full(old(word))
      ensures ok ==> WordFits() && word == old(word) + [c]
    {
      if |word| + 1 >= wordlen {
        if 2 * wordlen > MAX_ALLOC {
          return false;
        }
        wordlen := 2 * wordlen;
      }
      word := word + [c];
      return true;
    }

    /** Takes the next byte of a word. */
    method TakeByte(c: byte, ignoreeq: bool, st: ValState, escaped: bool) returns (m: Move)
      requires WordFits() && (st.WaitVal? ==> word == [])
      modifies this`word, this`wordlen
      ensures m == Next(c, ignoreeq, st, old(word), escaped)
      ensures m.Go? ==> WordFits() && word == m.word && (m.st.WaitVal? ==> word == [])
      ensures m.EndBefore? || m.EndWith? ==> word == old(word)
    {
      hide DoublesTo, IsSpace, Full;
      var after := st;
      match st {
        case WaitVal =>
          if c == QUOTE {
            return Go(InEscVal, word, true);
          } else if c == EQUALS && !ignoreeq {
            return Refuse;
          } else if c == BACKSLASH {
            return Go(WaitEscIn, word, escaped);
          } else if !IsSpace(c) {
            word := word + [c];
            return Go(InVal, word, escaped);
          }
          return Go(WaitVal, word, escaped);
        case InVal =>
          if c == BACKSLASH {
            return Go(WaitEscIn, word, escaped);
          } else if (c == EQUALS && !ignoreeq) || (c == COMMA && ignoreeq) {
            return EndBefore;
          } else if IsSpace(c) {
            return EndWith;
          }
        case InEscVal =>
          if c == BACKSLASH {
            return Go(WaitEscEscIn, word, escaped);
          } else if c == QUOTE {
            return EndWith;
          }
        case WaitEscIn =>
          after := InVal;
        case WaitEscEscIn =>
          after := InEscVal;
      }
      var ok := PutChar(c);
      return if ok then Go(after, word, escaped) else Refuse;
    }

    /** Reads a word; `found` tells whether there was one. Afterwards the cursor is behind the word. */
    method GetVal(ignoreeq: bool) returns (found: bool, escaped: bool, ok: bool)
      requires ptr <= |text|
      modifies this`ptr, this`word, this`wordlen
      ensures ptr <= |text|
      ensures var v := ReadVal(text[old(ptr)..], ignoreeq, WaitVal, [], false);
              && (ok <==> !v.BadVal?) && (ok ==> (found <==> v.Val?))
              && (ok && found ==> v == Val(word, escaped, text[ptr..]))
    {
      hide DoublesTo, Next;
      ghost var v := ReadVal(text[ptr..], ignoreeq, WaitVal, [], false);
      var st := WaitVal;
      BuffersDouble();
      word, wordlen := [], 32;
      escaped := false;
      while true
        invariant ptr <= |text| && v == ReadVal(text[ptr..], ignoreeq, st, word, escaped)
        invariant WordFits() && (st.WaitVal? ==> word == [])
        decreases |text| - ptr
      {
        if ptr == |text| {
          return st.InVal?, escaped, st.WaitVal? || st.InVal?;
        }
        assert text[ptr..][0] == text[ptr] && text[ptr..][1..] == text[ptr + 1..];
        var m := TakeByte(text[ptr], ignoreeq, st, escaped);
        match m {
          case Go(after, _, quoted) =>
            st, escaped := after, quoted;
            ptr := ptr + 1;
          case EndBefore =>
            return true, escaped, true;
          case EndWith =>
            ptr := ptr + 1;
            return true, escaped, true;
          case Refuse =>
            return false, escaped, false;
        }
      }
    }

    /** Makes room for a further pair. */
    method GrowPairs() returns (ok: bool)
      requires PairsFit()
      modifies this`plen
      ensures ok <==> |pairs| < PAIRS_MAX
      ensures ok ==> PairsFit() && |pairs| < plen
    {
      if |pairs| >= plen {
        if PAIR_BYTES * (2 * plen) > MAX_ALLOC {
          return false;
        }
        plen := 2 * plen;
      }
      return true;
    }

    /** Reads all pairs. */
    method Parse() returns (ok: bool)
      requires ptr == 0 && pairs == []
      modifies this
      ensures ok <==> ReadPairs(text, WKey, [], []).Some?
      ensures ok ==> ReadPairs(text, WKey, [], []) == Some(pairs)
    {
      hide ReadVal, IsNullWord, DoublesTo, IsSpace;
      var st, key := WKey, [];
      BuffersDouble();
      plen := 16;
      assert text[0..] == text;
      while true
        invariant ptr <= |text| && ReadPairs(text, WKey, [], []) == ReadPairs(text[ptr..], st, key, pairs)
        invariant PairsFit() && (st.WEq? || st.WGt? || st.WVal? ==> |pairs| < plen)
        decreases |text| - ptr, if st.WKey? || st.WVal? then 0 else 1
      {
        assert ptr < |text| ==> text[ptr..][0] == text[ptr] && text[ptr..][1..] == text[ptr + 1..];
        match st {
          case WKey =>
            var found, escaped, fine := GetVal(false);
            if !fine {
              return false;
            }
            if !found {
              return true;
            }
            var room := GrowPairs();
            if !room {
              return false;
            }
            key := word;
            st := WEq;
          case WEq =>
            if ptr == |text| {
              return false;
            } else if text[ptr] == EQUALS {
              st := WGt;
            } else if !IsSpace(text[ptr]) {
              return false;
            }
            ptr := ptr + 1;
          case WGt =>
            if ptr == |text| || text[ptr] != GREATER {
              return false;
            }
            st := WVal;
            ptr := ptr + 1;
          case WVal =>
            var found, escaped, fine := GetVal(true);
            if !fine || !found {
              return false;
            }
            pairs := pairs + [Item(key, word, !escaped && IsNullWord(word))];
            st := WDel;
          case WDel =>
            if ptr == |text| {
              return true;
            } else if text[ptr] == COMMA {
              st := WKey;
            } else if !IsSpace(text[ptr]) {
              return false;
            }
            ptr := ptr + 1;
        }
      }
    }
  }
}
