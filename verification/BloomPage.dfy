/** Pages of a bloom index: adding entries, removing dead ones in place, and the index build. */
module BloomPage {
  import opened BloomRand
  import opened BloomSign

  const BLCKSZ: nat := 8192
  const PAGE_HEADER: nat := 24
  const OPAQUE: nat := 8
  const TUPLE_HEADER: nat := 6

  /** Bytes of one entry with a signature of `length` words. */
  function TupleSize(length: nat): nat { TUPLE_HEADER + 2 * length }

  function FreeSpace(maxoff: nat, size: nat): int
  {
    BLCKSZ - PAGE_HEADER - maxoff * size - OPAQUE
  }

  /** Number of entries that fit on a page. */
  function Capacity(size: nat): nat
    requires size > 0
  {
    (BLCKSZ - PAGE_HEADER - OPAQUE) / size
  }

  /** The free-space test tells exactly whether one more entry fits. */
  lemma FitsIffBelowCapacity(maxoff: nat, size: nat)
    requires size > 0
    ensures FreeSpace(maxoff, size) >= size <==> maxoff < Capacity(size)
  {
    var space := BLCKSZ - PAGE_HEADER - OPAQUE;
    var c := Capacity(size);
    assert space == c * size + space % size;
    if maxoff < c {
      assert (maxoff + 1) * size <= c * size;
    } else {
      assert (maxoff + 1) * size >= (c + 1) * size;
    }
  }

  /** Every signature length that is allowed leaves room for an entry on an empty page. */
  lemma EmptyPageFits(o: Options)
    requires ValidOptions(o)
    ensures Capacity(TupleSize(o.length)) >= 15
  {
    hide Capacity;
    FitsIffBelowCapacity(14, TupleSize(o.length));
  }

  datatype Page = New | Meta | Data(deleted: bool, entries: seq<Entry>)

  /** Pages that an insertion or allocation initialises before use. */
  predicate Unused(p: Page) { p.New? || (p.Data? && p.deleted) }

  function EntriesOf(p: Page): seq<Entry> { if p.Data? then p.entries else [] }

  /** The entries that stay when those of dead rows go. */
  function Survivors(es: seq<Entry>, dead: set<Tid>): (r: seq<Entry>)
    ensures |r| <= |es|
  {
    if es == [] then []
    else
      var last := es[|es| - 1];
      Survivors(es[..|es| - 1], dead) + if last.tid in dead then [] else [last]
  }

  lemma SurvivorsStart(es: seq<Entry>, dead: set<Tid>)
    ensures Survivors(es[..0], dead) == []
  {
  }

  lemma SurvivorsStep(es: seq<Entry>, dead: set<Tid>, n: nat)
    requires n < |es|
    ensures Survivors(es[..n + 1], dead) == Survivors(es[..n], dead) + if es[n].tid in dead then [] else [es[n]]
  {
    assert es[..n + 1][..n] == es[..n];
  }

  /** A page after the removal of dead entries. */
  function Purged(p: Page, dead: set<Tid>): Page
    requires p.Data?
  {
    var left := Survivors(p.entries, dead);
    if |left| < |p.entries| && left == [] then Data(true, []) else Data(p.deleted, left)
  }

  /** Removal drops exactly the dead entries and keeps the others as often as they occur. */
  lemma {:induction false} SurvivorsAre(es: seq<Entry>, dead: set<Tid>, e: Entry)
    ensures multiset(Survivors(es, dead))[e] == if e.tid in dead then 0 else multiset(es)[e]
    decreases |es|
  {
    if es != [] {
      var n := |es| - 1;
      assert es == es[..n] + [es[n]];
      SurvivorsAre(es[..n], dead, e);
    }
  }

  /** Removal marks a page as deleted just when it takes entries away and leaves none. */
  lemma PurgedDeletes(p: Page, dead: set<Tid>)
    requires p.Data?
    ensures Purged(p, dead).deleted <==>
            p.deleted || (p.entries != [] && forall i :: 0 <= i < |p.entries| ==> p.entries[i].tid in dead)
  {
    hide Survivors;
    var left := Survivors(p.entries, dead);
    SurvivorsStart(p.entries, dead);
    forall i | 0 <= i < |p.entries| ensures p.entries[i] in left <==> p.entries[i].tid !in dead {
      SurvivorsAre(p.entries, dead, p.entries[i]);
      InBoth(left, p.entries[i]);
      InBoth(p.entries, p.entries[i]);
    }
    if left != [] {
      SurvivorsAre(p.entries, dead, left[0]);
      InBoth(left, left[0]);
      InBoth(p.entries, left[0]);
    }
    if p.entries == [] {
      assert p.entries[..0] == p.entries;
    }
  }

  lemma InBoth(es: seq<Entry>, e: Entry)
    ensures multiset(es)[e] > 0 <==> e in es
  {
    assert e in multiset(es) <==> e in es;
  }

  /** A page in a buffer. */
  class Buffer {
    const size: nat
    const tuples: array<Entry>
    var maxoff: nat
    var deleted: bool

    ghost predicate Valid()
      reads this
    {
      size > 0 && tuples.Length == Capacity(size) && maxoff <= tuples.Length
    }

    ghost function Value(): Page
      requires Valid()
      reads this, tuples
    {
      Data(deleted, tuples[..maxoff])
    }

    constructor (size: nat)
      requires size > 0
      ensures Valid() && this.size == size && Value() == Data(false, []) && fresh(tuples)
    {
      this.size := size;
      tuples := new Entry[Capacity(size)](_ => Entry(Tid(0, 0), []));
      maxoff := 0;
      deleted := false;
    }

    method Init()
      requires Valid()
      modifies this
      ensures Valid() && Value() == Data(false, [])
    {
      maxoff := 0;
      deleted := false;
    }

    /** Adds an entry at the end unless the page is full. */
    method AddItem(e: Entry) returns (ok: bool)
      requires Valid() && !deleted
      modifies this, tuples
      ensures Valid()
      ensures ok <==> old(maxoff) < Capacity(size)
      ensures Value() == if ok then Data(false, old(Value()).entries + [e]) else old(Value())
    {
      FitsIffBelowCapacity(maxoff, size);
      if FreeSpace(maxoff, size) < size {
        return false;
      }
      tuples[maxoff] := e;
      maxoff := maxoff + 1;
      return true;
    }

    /** Removes the entries of dead rows, moving the others down, and marks an emptied page
        as deleted. */
    method Purge(dead: set<Tid>) returns (removed: nat, notFull: bool)
      requires Valid() && !deleted
      modifies this, tuples
      ensures Valid() && Value() == Purged(old(Value()), dead)
      ensures removed == |old(Value()).entries| - |Value().entries|
      ensures notFull <==> 0 < |Value().entries| < Capacity(size)
    {
      hide Survivors, Capacity, FreeSpace;
      ghost var was := tuples[..maxoff];
      SurvivorsStart(was, dead);
      var itup, itupPtr, itupEnd := 0, 0, maxoff;
      removed := 0;
      while itup < itupEnd
        invariant 0 <= itupPtr <= itup <= itupEnd <= tuples.Length && |was| == itupEnd
        invariant removed == itup - itupPtr && maxoff == itupEnd - removed && !deleted
        invariant tuples[..itupPtr] == Survivors(was[..itup], dead)
        invariant tuples[itup..itupEnd] == was[itup..]
      {
        SurvivorsStep(was, dead, itup);
        assert tuples[itup] == tuples[itup..itupEnd][0] == was[itup];
        ghost var rest := was[itup + 1..];
        assert tuples[itup + 1..itupEnd] == tuples[itup..itupEnd][1..] == rest;
        if tuples[itup].tid in dead {
          maxoff := maxoff - 1;
          removed := removed + 1;
        } else {
          ghost var kept := tuples[..itupPtr];
          if itupPtr != itup {
            tuples[itupPtr] := tuples[itup];
          }
          assert tuples[..itupPtr + 1] == kept + [was[itup]];
          assert tuples[itup + 1..itupEnd] == rest;
          itupPtr := itupPtr + 1;
        }
        itup := itup + 1;
      }
      assert was[..itup] == was;
      FitsIffBelowCapacity(maxoff, size);
      notFull := maxoff != 0 && FreeSpace(maxoff, size) >= size;
      if itupPtr != itup {
        if maxoff == 0 {
          deleted := true;
        }
      }
    }
  }

  // ---------------------------------------------------------------- the build

  /** All entries of a list of pages, in order. */
  ghost function Flattened(pages: seq<Page>): seq<Entry>
  {
    if pages == [] then [] else Flattened(pages[..|pages| - 1]) + EntriesOf(pages[|pages| - 1])
  }

  ghost predicate LivePages(pages: seq<Page>, size: nat)
    requires size > 0
  {
    forall i :: 0 <= i < |pages| ==> pages[i].Data? && !pages[i].deleted && 0 < |pages[i].entries| <= Capacity(size)
  }

  /** The state of an index build: the pages written so far and the page being filled. */
  class BuildState {
    const o: Options
    const gen: Generator
    const buf: Buffer
    var count: nat
    var flushed: seq<Page>

    ghost predicate Valid()
      reads this, buf
    {
      && ValidOptions(o) && buf.Valid() && buf.size == TupleSize(o.length)
      && !buf.deleted && count == buf.maxoff && LivePages(flushed, buf.size)
    }

    ghost function Contents(): seq<Entry>
      requires Valid()
      reads this, buf, buf.tuples
    {
      Flattened(flushed) + buf.Value().entries
    }

    constructor (o: Options)
      requires ValidOptions(o)
      ensures Valid() && this.o == o && Contents() == [] && fresh(buf) && fresh(buf.tuples) && fresh(gen)
    {
      this.o := o;
      gen := new Generator();
      buf := new Buffer(TupleSize(o.length));
      count := 0;
      flushed := [];
    }

    method FlushCachedPage()
      requires Valid() && count > 0
      modifies this
      ensures flushed == old(flushed) + [buf.Value()] && LivePages(flushed, buf.size)
      ensures count == old(count)
    {
      flushed := flushed + [Data(buf.deleted, buf.tuples[..buf.maxoff])];
    }

    method Add(itup: Entry)
      requires Valid()
      modifies this, buf, buf.tuples
      ensures Valid() && Contents() == old(Contents()) + [itup]
    {
      hide Flattened, Capacity, FreeSpace, TupleSize;
      ghost var before, cached := flushed, buf.Value();
      var ok := buf.AddItem(itup);
      if ok {
        count := count + 1;
        assert Flattened(before) + cached.entries + [itup] == Flattened(before) + (cached.entries + [itup]);
      } else {
        EmptyPageFits(o);
        FlushCachedPage();
        FlattenedAppend(before, cached);
        buf.Init();
        count := 0;
        ok := buf.AddItem(itup);
        assert ok && |buf.Value().entries| == 1;
        count := count + 1;
      }
    }

    /** One row of the table. */
    method Callback(tid: Tid, row: Row)
      requires Valid() && ValidRow(o, row)
      modifies this, gen, buf, buf.tuples
      ensures Valid() && Contents() == old(Contents()) + [Entry(tid, RowSign(o, row))]
    {
      hide Flattened, Capacity, TupleSize, RowSign;
      var itup := FormTuple(gen, o, tid, row);
      Add(itup);
    }
  }

  lemma FlattenedAppend(pages: seq<Page>, p: Page)
    ensures Flattened(pages + [p]) == Flattened(pages) + EntriesOf(p)
  {
    assert (pages + [p])[..|pages|] == pages;
  }

  /** A row of the table and where it lies. */
  datatype HeapRow = HeapRow(tid: Tid, row: Row)

  ghost predicate ValidRows(o: Options, rows: seq<HeapRow>)
  {
    ValidOptions(o) && forall i :: 0 <= i < |rows| ==> ValidRow(o, rows[i].row)
  }

  /** The rows of the table as entries. */
  ghost function EntriesFor(o: Options, rows: seq<HeapRow>): (es: seq<Entry>)
    requires ValidRows(o, rows)
    ensures |es| == |rows|
  {
    if rows == [] then []
    else
      var n := |rows| - 1;
      assert ValidRow(o, rows[n].row);
      EntriesFor(o, rows[..n]) + [Entry(rows[n].tid, RowSign(o, rows[n].row))]
  }

  /** Builds the index: a metapage, then pages that hold every row once, in order. */
  method Build(o: Options, rows: seq<HeapRow>) returns (pages: seq<Page>)
    requires ValidRows(o, rows)
    ensures |pages| > 0 && pages[0] == Meta && LivePages(pages[1..], TupleSize(o.length))
    ensures Flattened(pages[1..]) == EntriesFor(o, rows)
  {
    hide EntriesFor, Flattened, RowSign, Capacity, ValidRow;
    var b := new BuildState(o);
    NoEntries(o, rows);
    var i := 0;
    while i < |rows|
      invariant 0 <= i <= |rows| && b.o == o && b.Valid()
      invariant fresh(b) && fresh(b.gen) && fresh(b.buf) && fresh(b.buf.tuples)
      invariant b.Contents() == EntriesFor(o, rows[..i])
    {
      OneEntry(o, rows, i);
      b.Callback(rows[i].tid, rows[i].row);
      i := i + 1;
    }
    assert rows[..i] == rows;
    if b.count > 0 {
      FlattenedAppend(b.flushed, b.buf.Value());
      b.FlushCachedPage();
    } else {
      assert Flattened(b.flushed) + [] == Flattened(b.flushed);
    }
    pages := [Meta] + b.flushed;
    assert pages[1..] == b.flushed;
  }

  lemma NoEntries(o: Options, rows: seq<HeapRow>)
    requires ValidRows(o, rows)
    ensures EntriesFor(o, rows[..0]) == []
  {
  }

  lemma OneEntry(o: Options, rows: seq<HeapRow>, i: nat)
    requires ValidRows(o, rows) && i < |rows|
    ensures ValidRow(o, rows[i].row)
    ensures EntriesFor(o, rows[..i + 1]) == EntriesFor(o, rows[..i]) + [Entry(rows[i].tid, RowSign(o, rows[i].row))]
  {
    assert rows[..i + 1][..i] == rows[..i];
  }
}
