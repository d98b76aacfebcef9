/** A store under construction: words and bytes share one block of memory, and the bytes move
    down when fewer pairs were written than room was made for. */
module HstoreBuilder {
  import opened ByteOrder
  import opened HstoreFormat

  /** A byte of memory. A word takes four, of which the first stands for all. */
  datatype Cell = Word4(w: nat) | Rest | Byte(b: byte)

  /** The entries are in place at the start of the memory. */
  ghost predicate HasEntries(mem: seq<Cell>, items: seq<Item>, n: nat)
  {
    && n <= 2 * |items| && 4 * n <= |mem|
    && forall k :: 0 <= k < n ==> mem[4 * k] == Word4(Word(items, k))
  }

  /** The bytes are in place from `at` on. */
  ghost predicate HasBytes(mem: seq<Cell>, at: nat, s: bytes)
  {
    at + |s| <= |mem| && forall j :: 0 <= j < |s| ==> mem[at + j] == Byte(s[j])
  }

  /** The store that memory holds. */
  ghost predicate Holds(mem: seq<Cell>, h: HStore)
  {
    && 4 * |h.entries| + |h.str| <= |mem|
    && (forall k :: 0 <= k < |h.entries| ==> mem[4 * k] == Word4(h.entries[k]))
    && HasBytes(mem, 4 * |h.entries|, h.str)
  }

  predicate Readable(mem: seq<Cell>, n: nat, len: nat)
  {
    && 8 * n + len <= |mem|
    && (forall k :: 0 <= k < 2 * n ==> mem[4 * k].Word4?)
    && (forall j :: 8 * n <= j < 8 * n + len ==> mem[j].Byte?)
  }

  function ReadStore(mem: seq<Cell>, n: nat, len: nat): HStore
    requires Readable(mem, n, len)
  {
    HStore(seq(2 * n, k requires 0 <= k < 2 * n => mem[4 * k].w),
           seq<byte>(len, j requires 0 <= j < len => mem[8 * n + j].b))
  }

  lemma HoldsReads(mem: seq<Cell>, h: HStore, n: nat, len: nat)
    requires Holds(mem, h) && |h.entries| == 2 * n && |h.str| == len
    ensures Readable(mem, n, len) && ReadStore(mem, n, len) == h
  {
    forall j | 8 * n <= j < 8 * n + len ensures mem[j] == Byte(h.str[j - 8 * n]) {
      assert mem[4 * |h.entries| + (j - 8 * n)] == Byte(h.str[j - 8 * n]);
    }
    var g := ReadStore(mem, n, len);
    assert g.entries == h.entries;
    assert g.str == h.str;
  }

  lemma WordExtends(items: seq<Item>, it: Item, k: nat)
    requires k < 2 * |items|
    ensures Word(items + [it], k) == Word(items, k)
  {
    assert (items + [it])[..k / 2] == items[..k / 2];
  }

  lemma NewWords(items: seq<Item>, it: Item)
    ensures var n := 2 * |items|; var more := items + [it]; var pos := |Concat(items)| + |it.key|;
            && Word(more, n) == pos % POSITIONS
            && Word(more, n + 1) == (pos + |it.val|) % POSITIONS + (if it.isnull then ISNULL else 0)
            && Concat(more) == Concat(items) + it.key + it.val
  {
    hide Concat;
    var n, more := 2 * |items|, items + [it];
    assert more[..|items|] == items && more[..|items| + 1] == more;
    ConcatStep(more, |items|);
    HalfOf(|items|);
  }

  lemma HalfOf(m: nat)
    ensures 2 * m / 2 == m && (2 * m + 1) / 2 == m && 2 * m % 2 == 0 && (2 * m + 1) % 2 == 1
  {
  }

  class Builder {
    const mem: array<Cell>
    var count: nat
    var ed: nat
    var pd: nat
    ghost var items: seq<Item>

    /** Room for `count` pairs comes first; the bytes come after it. */
    ghost predicate Valid()
      reads this, mem
    {
      && |items| <= count && ed == 2 * |items| && pd == |Concat(items)| && 8 * count + pd <= mem.Length
      && HasEntries(mem[..], items, ed) && HasBytes(mem[..], 8 * count, Concat(items))
    }

    constructor (count: nat, size: nat)
      requires 8 * count <= size
      ensures Valid() && fresh(mem) && mem.Length == size && items == [] && this.count == count
    {
      mem := new Cell[size](_ => Rest);
      this.count := count;
      ed := 0;
      pd := 0;
      items := [];
    }

    method PutBytes(src: bytes)
      requires 8 * count + pd + |src| <= mem.Length
      modifies this`pd, mem
      ensures pd == old(pd) + |src|
      ensures forall j :: 0 <= j < |src| ==> mem[8 * count + old(pd) + j] == Byte(src[j])
      ensures forall j :: 0 <= j < 8 * count + old(pd) ==> mem[j] == old(mem[j])
    {
      var at := 8 * count + pd;
      forall j | 0 <= j < |src| {
        mem[at + j] := Byte(src[j]);
      }
      pd := pd + |src|;
    }

    method PutWord(w: nat)
      requires ed < 2 * count && 8 * count <= mem.Length
      modifies this`ed, mem
      ensures ed == old(ed) + 1 && mem[4 * old(ed)] == Word4(w)
      ensures forall j :: 0 <= j < mem.Length && !(4 * old(ed) <= j < 4 * old(ed) + 4) ==> mem[j] == old(mem[j])
    {
      mem[4 * ed] := Word4(w);
      mem[4 * ed + 1], mem[4 * ed + 2], mem[4 * ed + 3] := Rest, Rest, Rest;
      ed := ed + 1;
    }

    /** Copies one pair, whose key and value lie next to each other. */
    method CopyItem(src: bytes, klen: nat, vlen: nat, isnull: bool)
      requires Valid() && |src| == klen + vlen && |items| < count && 8 * count + pd + |src| <= mem.Length
      modifies this, mem
      ensures Valid() && count == old(count) && items == old(items) + [Item(src[..klen], src[klen..], isnull)]
    {
      hide Concat, Word, EndOf;
      ghost var it := Item(src[..klen], src[klen..], isnull);
      NewWords(items, it);
      ghost var was := mem[..];
      PutBytes(src);
      PutWord((pd - vlen) % POSITIONS);
      PutWord(pd % POSITIONS + if isnull then ISNULL else 0);
      ItemWritten(was, mem[..], count, items, it);
      items := items + [it];
    }

    /** The bytes of the key and their end. */
    method AddKey(key: bytes)
      requires Valid() && |items| < count && 8 * count + pd + |key| <= mem.Length
      modifies this`ed, this`pd, mem
      ensures ed == old(ed) + 1 && pd == old(pd) + |key|
      ensures mem[8 * |items|] == Word4(pd % POSITIONS) && HasBytes(mem[..], 8 * count + old(pd), key)
      ensures forall j :: 0 <= j < 8 * |items| ==> mem[j] == old(mem[j])
      ensures forall j :: 8 * count <= j < 8 * count + old(pd) ==> mem[j] == old(mem[j])
    {
      hide Concat, Word;
      ghost var at := 8 * count + pd;
      PutBytes(key);
      ghost var keyed := mem[..];
      assert HasBytes(keyed, at, key);
      PutWord(pd % POSITIONS);
      BytesStay(keyed, mem[..], at, key);
    }

    /** The bytes of the value and their end. */
    method AddVal(val: bytes)
      requires ed < 2 * count && 8 * count + pd + |val| <= mem.Length
      modifies this`ed, this`pd, mem
      ensures ed == old(ed) + 1 && pd == old(pd) + |val|
      ensures mem[4 * old(ed)] == Word4(pd % POSITIONS) && HasBytes(mem[..], 8 * count + old(pd), val)
      ensures forall j :: 0 <= j < 4 * old(ed) ==> mem[j] == old(mem[j])
      ensures forall j :: 8 * count <= j < 8 * count + old(pd) ==> mem[j] == old(mem[j])
    {
      ghost var at := 8 * count + pd;
      PutBytes(val);
      ghost var valued := mem[..];
      assert HasBytes(valued, at, val);
      PutWord(pd % POSITIONS);
      BytesStay(valued, mem[..], at, val);
    }

    /** Adds one pair; the bytes of a null value are left out. */
    method AddItem(pair: Item)
      requires Valid() && |items| < count
      requires 8 * count + pd + |pair.key| + (if pair.isnull then 0 else |pair.val|) <= mem.Length
      modifies this, mem
      ensures Valid() && count == old(count) &&
              items == old(items) + [if pair.isnull then Item(pair.key, [], true) else pair]
    {
      hide Concat, Word, EndOf;
      ghost var it := if pair.isnull then Item(pair.key, [], true) else pair;
      NewWords(items, it);
      ghost var was, at := mem[..], 8 * count + pd;
      AddKey(pair.key);
      ghost var keyed := mem[..];
      if pair.isnull {
        PutWord(pd % POSITIONS + ISNULL);
      } else {
        AddVal(pair.val);
      }
      BytesStay(keyed, mem[..], at, it.key);
      BytesJoin(mem[..], at, it.key, it.val);
      ItemWritten(was, mem[..], count, items, it);
      items := items + [it];
    }

    /** Moves bytes down. */
    method MoveBytes(to: nat, from: nat, len: nat, ghost s: bytes)
      requires to <= from && HasBytes(mem[..], from, s) && |s| == len
      modifies mem
      ensures HasBytes(mem[..], to, s) && forall j :: 0 <= j < to ==> mem[j] == old(mem[j])
    {
      ghost var was := mem[..];
      forall j | 0 <= j < len {
        mem[to + j] := mem[from + j];
      }
      forall j | 0 <= j < len ensures mem[to + j] == Byte(s[j]) {
        assert was[from + j] == Byte(s[j]);
      }
    }

    /** Marks the first entry and closes the gap between words and bytes. The store is then what
        memory holds. */
    method Finalize() returns (h: HStore)
      requires Valid()
      modifies this, mem
      ensures count == |old(items)| && h == Encode(old(items)) && Holds(mem[..], h)
    {
      hide Concat, Word, EndOf, MarkFirst, Encode, ReadStore, Readable;
      var n := ed / 2;
      ghost var was, out := mem[..], Encode(items);
      if n > 0 {
        assert mem[4 * 0] == Word4(Word(items, 0));
        mem[0] := Word4(MarkFirst(mem[0].w));
      }
      BytesStay(was, mem[..], 8 * count, Concat(items));
      if n != count {
        MoveBytes(8 * n, 8 * count, pd, Concat(items));
        count := n;
      }
      Finalized(was, mem[..], old(count), items, out);
      HoldsReads(mem[..], out, n, pd);
      h := ReadStore(mem[..], n, pd);
    }
  }

  lemma BytesStay(was: seq<Cell>, now: seq<Cell>, at: nat, s: bytes)
    requires HasBytes(was, at, s) && |now| == |was| && forall j :: at <= j < at + |s| ==> now[j] == was[j]
    ensures HasBytes(now, at, s)
  {
  }

  lemma BytesJoin(mem: seq<Cell>, at: nat, a: bytes, b: bytes)
    requires HasBytes(mem, at, a) && HasBytes(mem, at + |a|, b)
    ensures HasBytes(mem, at, a + b)
  {
    forall j | 0 <= j < |a + b| ensures mem[at + j] == Byte((a + b)[j]) {
      if j >= |a| {
        assert mem[at + |a| + (j - |a|)] == Byte(b[j - |a|]);
      }
    }
  }

  /** After the bytes and the two words of a pair are written, memory holds one pair more. */
  lemma ItemWritten(was: seq<Cell>, now: seq<Cell>, count: nat, items: seq<Item>, it: Item)
    requires |was| == |now| && |items| < count && HasEntries(was, items, 2 * |items|)
    requires HasBytes(was, 8 * count, Concat(items))
    requires 8 * count + |Concat(items)| + |it.key| + |it.val| <= |now|
    requires HasBytes(now, 8 * count + |Concat(items)|, it.key + it.val)
    requires now[8 * |items|] == Word4(Word(items + [it], 2 * |items|))
    requires now[8 * |items| + 4] == Word4(Word(items + [it], 2 * |items| + 1))
    requires forall j :: 0 <= j < 8 * |items| ==> now[j] == was[j]
    requires forall j :: 8 * count <= j < 8 * count + |Concat(items)| ==> now[j] == was[j]
    ensures HasEntries(now, items + [it], 2 * |items| + 2) && HasBytes(now, 8 * count, Concat(items + [it]))
  {
    hide Concat, Word, EndOf;
    var more := items + [it];
    NewWords(items, it);
    forall k | 0 <= k < 2 * |items| + 2 ensures now[4 * k] == Word4(Word(more, k)) {
      if k < 2 * |items| {
        WordExtends(items, it, k);
      }
    }
    var s := Concat(items);
    assert HasBytes(now, 8 * count, s);
    BytesJoin(now, 8 * count, s, it.key + it.val);
    assert s + (it.key + it.val) == Concat(more);
  }

  lemma Finalized(was: seq<Cell>, now: seq<Cell>, count: nat, items: seq<Item>, h: HStore)
    requires |was| == |now| && |items| <= count && h == Encode(items)
    requires HasEntries(was, items, 2 * |items|) && HasBytes(was, 8 * count, Concat(items))
    requires items != [] ==> now[0] == Word4(MarkFirst(Word(items, 0)))
    requires forall j :: 0 < j < 8 * |items| ==> now[j] == was[j]
    requires HasBytes(now, 8 * |items|, Concat(items))
    ensures Holds(now, h)
  {
    hide Concat, Word, EndOf, MarkFirst, Encode;
    forall k | 0 <= k < |h.entries| ensures now[4 * k] == Word4(h.entries[k]) {
      assert was[4 * k] == Word4(Word(items, k));
    }
  }
}
