/** A bloom index under concurrent insertions, vacuums and scans: each step is what one process
    does under the page locks it holds at once. */
module BloomIndex {
  import opened Wrappers
  import opened BloomSign
  import opened BloomPage

  /** Number of block numbers that the metapage holds. */
  const META_BLOCKS: nat := 2004

  datatype MetaData = MetaData(nStart: nat, nEnd: nat, notFull: seq<nat>)

  /** Where a process is. An insertion reads the metapage (Entered), tries the block it saw
      (First), locks the metapage (Second), walks the list of blocks (Walk), looks for a free
      page (Alloc), or has extended the file without having locked the new page yet (Extended). */
  datatype Proc =
    | Idle
    | Entered(e: Entry)
    | First(e: Entry, blk: nat)
    | Second(e: Entry, tried: Option<nat>)
    | Walk(e: Entry, n: nat)
    | Alloc(e: Entry)
    | Extended(e: Entry, blk: nat)
    | Vacuum(dead: set<Tid>, npages: nat, next: nat, found: seq<nat>)
    | Scan(sign: seq<bv16>, npages: nat, next: nat, result: set<Tid>)

  /** `owner` holds the exclusive lock of the metapage. `inserted` and `removed` record what
      was inserted and what vacuums removed. */
  datatype State = State(
    pages: seq<Page>, meta: MetaData, owner: Option<nat>, procs: seq<Proc>,
    inserted: multiset<Entry>, removed: multiset<Entry>)

  datatype Action =
    | BeginInsert(e: Entry) | ReadMeta | TryFirst | LockMeta | TryNext | TakeFree(blk: nat) | Extend | InitExtended
    | BeginVacuum(dead: set<Tid>) | VacuumPage | WriteMeta
    | BeginScan(sign: seq<bv16>) | ScanPage | EndScan
    | Abort

  /** A page as an insertion finds it, after initialising it if it is unused. */
  function Ready(p: Page): Page { if Unused(p) then Data(false, []) else p }

  predicate Fits(p: Page, cap: nat) { Ready(p).Data? && |Ready(p).entries| < cap }

  function Added(p: Page, e: Entry): Page
    requires Ready(p).Data?
  {
    Data(false, Ready(p).entries + [e])
  }

  function At(s: State, p: nat, q: Proc): State
    requires p < |s.procs|
  {
    s.(procs := s.procs[p := q])
  }

  /** The entry is on the page and the insertion is over. */
  function Placed(s: State, p: nat, blk: nat, e: Entry, page: Page): State
    requires p < |s.procs| && blk < |s.pages|
  {
    At(s, p, Idle).(pages := s.pages[blk := page], inserted := s.inserted + multiset{e})
  }

  /** The metapage lists just the new page. */
  function OnlyPage(m: MetaData, blk: nat): MetaData
    requires |m.notFull| > 0
  {
    MetaData(0, 1, m.notFull[0 := blk])
  }

  // ---------------------------------------------------------------- insertion steps

  predicate ReadMetaStep(s: State, p: nat, t: State)
    requires p < |s.procs|
  {
    && s.procs[p].Entered? && s.owner.None?
    && var e := s.procs[p].e;
    if s.meta.nEnd > s.meta.nStart
    then s.meta.nStart < |s.meta.notFull| && t == At(s, p, First(e, s.meta.notFull[s.meta.nStart]))
    else t == At(s, p, Second(e, None))
  }

  predicate TryFirstStep(s: State, p: nat, t: State, cap: nat)
    requires p < |s.procs|
  {
    && s.procs[p].First?
    && var e, blk := s.procs[p].e, s.procs[p].blk;
    && blk < |s.pages| && Ready(s.pages[blk]).Data?
    && if Fits(s.pages[blk], cap)
       then t == Placed(s, p, blk, e, Added(s.pages[blk], e))
       else t == At(s, p, Second(e, Some(blk)))
  }

  predicate LockMetaStep(s: State, p: nat, t: State)
    requires p < |s.procs|
  {
    && s.procs[p].Second? && s.owner.None?
    && var n := s.meta.nStart;
    && (n < s.meta.nEnd ==> n < |s.meta.notFull|)
    && var skip := n < s.meta.nEnd && s.procs[p].tried == Some(s.meta.notFull[n]);
    t == At(s, p, Walk(s.procs[p].e, if skip then n + 1 else n)).(owner := Some(p))
  }

  predicate TryNextStep(s: State, p: nat, t: State, cap: nat)
    requires p < |s.procs|
  {
    && s.procs[p].Walk?
    && var e, n := s.procs[p].e, s.procs[p].n;
    if n >= s.meta.nEnd then t == At(s, p, Alloc(e))
    else
      && n < |s.meta.notFull|
      && var blk := s.meta.notFull[n];
      && blk < |s.pages| && Ready(s.pages[blk]).Data?
      && if Fits(s.pages[blk], cap)
         then t == Placed(s, p, blk, e, Added(s.pages[blk], e)).(meta := s.meta.(nStart := n), owner := None)
         else t == At(s, p, Walk(e, n + 1))
  }

  /** The free space map may name any block; only an unused one is taken. */
  predicate TakeFreeStep(s: State, p: nat, blk: nat, t: State)
    requires p < |s.procs|
  {
    && s.procs[p].Alloc? && blk < |s.pages| && Unused(s.pages[blk]) && |s.meta.notFull| > 0
    && var e := s.procs[p].e;
    t == Placed(s, p, blk, e, Data(false, [e])).(meta := OnlyPage(s.meta, blk), owner := None)
  }

  predicate ExtendStep(s: State, p: nat, t: State)
    requires p < |s.procs|
  {
    && s.procs[p].Alloc?
    && t == At(s, p, Extended(s.procs[p].e, |s.pages|)).(pages := s.pages + [New])
  }

  /** The new page is locked and initialised, whatever it holds by then. */
  predicate InitExtendedStep(s: State, p: nat, t: State)
    requires p < |s.procs|
  {
    && s.procs[p].Extended? && s.procs[p].blk < |s.pages| && |s.meta.notFull| > 0
    && var e, blk := s.procs[p].e, s.procs[p].blk;
    t == Placed(s, p, blk, e, Data(false, [e])).(meta := OnlyPage(s.meta, blk), owner := None)
  }

  // ---------------------------------------------------------------- vacuum and scan steps

  predicate VacuumPageStep(s: State, p: nat, t: State, cap: nat)
    requires p < |s.procs|
  {
    && s.procs[p].Vacuum?
    && var v := s.procs[p];
    && v.next < v.npages <= |s.pages|
    && var pg := s.pages[v.next];
    if Unused(pg) then t == At(s, p, Vacuum(v.dead, v.npages, v.next + 1, v.found))
    else
      && pg.Data?
      && var left := Purged(pg, v.dead);
      var listed := 0 < |left.entries| < cap && |v.found| < META_BLOCKS;
      t == At(s, p, Vacuum(v.dead, v.npages, v.next + 1, if listed then v.found + [v.next] else v.found))
           .(pages := s.pages[v.next := left],
             removed := s.removed + (multiset(pg.entries) - multiset(left.entries)))
  }

  predicate WriteMetaStep(s: State, p: nat, t: State)
    requires p < |s.procs|
  {
    && s.procs[p].Vacuum? && s.owner.None?
    && var v := s.procs[p];
    && v.next == v.npages && |v.found| <= |s.meta.notFull|
    && t == At(s, p, Idle).(meta := MetaData(0, |v.found|, v.found + s.meta.notFull[|v.found|..]))
  }

  /** The rows of the page whose signature contains `sign`. */
  function Hits(es: seq<Entry>, sign: seq<bv16>): (r: set<Tid>)
  {
    set i | 0 <= i < |es| && Sub(sign, es[i].sign) :: es[i].tid
  }

  /** The scan of one page, entry by entry. */
  method ScanEntries(es: seq<Entry>, sign: seq<bv16>) returns (hits: set<Tid>)
    requires forall i :: 0 <= i < |es| ==> |es[i].sign| == |sign|
    ensures hits == Hits(es, sign)
  {
    hide Sub;
    hits := {};
    var offset := 1;
    while offset <= |es|
      invariant 1 <= offset <= |es| + 1
      invariant hits == Hits(es[..offset - 1], sign)
    {
      var res := SignMatches(es[offset - 1].sign, sign);
      assert es[..offset] == es[..offset - 1] + [es[offset - 1]];
      if res {
        hits := hits + {es[offset - 1].tid};
      }
      offset := offset + 1;
    }
    assert es[..offset - 1] == es;
  }

  predicate ScanPageStep(s: State, p: nat, t: State)
    requires p < |s.procs|
  {
    && s.procs[p].Scan?
    && var v := s.procs[p];
    && v.next < v.npages <= |s.pages|
    && var pg := s.pages[v.next];
    var hits := if pg.Data? && !pg.deleted then Hits(pg.entries, v.sign) else {};
    t == At(s, p, Scan(v.sign, v.npages, v.next + 1, v.result + hits))
  }

  predicate Step(s: State, p: nat, a: Action, t: State, cap: nat)
  {
    && p < |s.procs|
    && match a
       case BeginInsert(e) => s.procs[p].Idle? && t == At(s, p, Entered(e))
       case ReadMeta => ReadMetaStep(s, p, t)
       case TryFirst => TryFirstStep(s, p, t, cap)
       case LockMeta => LockMetaStep(s, p, t)
       case TryNext => TryNextStep(s, p, t, cap)
       case TakeFree(blk) => TakeFreeStep(s, p, blk, t)
       case Extend => ExtendStep(s, p, t)
       case InitExtended => InitExtendedStep(s, p, t)
       case BeginVacuum(dead) => s.procs[p].Idle? && t == At(s, p, Vacuum(dead, |s.pages|, 1, []))
       case VacuumPage => VacuumPageStep(s, p, t, cap)
       case WriteMeta => WriteMetaStep(s, p, t)
       case BeginScan(sign) => s.procs[p].Idle? && t == At(s, p, Scan(sign, |s.pages|, 1, {}))
       case ScanPage => ScanPageStep(s, p, t)
       case EndScan => s.procs[p].Scan? && s.procs[p].next == s.procs[p].npages && t == At(s, p, Idle)
       case Abort =>
         && !s.procs[p].Idle?
         && t == At(s, p, Idle).(owner := if s.owner == Some(p) then None else s.owner)
  }

  // ---------------------------------------------------------------- the invariant

  predicate HoldsMeta(q: Proc) { q.Walk? || q.Alloc? || q.Extended? }

  /** The block that has been added to the file and is not locked yet. */
  function Pending(s: State): Option<nat>
  {
    if s.owner.Some? && s.owner.value < |s.procs| && s.procs[s.owner.value].Extended?
    then Some(s.procs[s.owner.value].blk)
    else None
  }

  /** A block that may be used without looking for it: a page of the index that no process is
      about to initialise. */
  predicate Usable(s: State, b: nat)
  {
    1 <= b < |s.pages| && Pending(s) != Some(b)
  }

  ghost predicate PagesOk(pages: seq<Page>, cap: nat)
  {
    && |pages| > 0 && pages[0] == Meta
    && (forall b :: 1 <= b < |pages| ==> pages[b] != Meta)
    && (forall b :: 0 <= b < |pages| && Unused(pages[b]) ==> EntriesOf(pages[b]) == [])
    && (forall b :: 0 <= b < |pages| ==> |EntriesOf(pages[b])| <= cap)
  }

  ghost predicate MetaOk(s: State)
  {
    && |s.meta.notFull| == META_BLOCKS && s.meta.nStart <= s.meta.nEnd <= META_BLOCKS
    && forall i :: 0 <= i < s.meta.nEnd ==> Usable(s, s.meta.notFull[i])
  }

  ghost predicate ProcOk(s: State, q: Proc)
  {
    match q
    case First(_, blk) => Usable(s, blk)
    case Walk(_, n) => n <= s.meta.nEnd
    case Extended(_, blk) => 1 <= blk < |s.pages| && s.pages[blk].New?
    case Vacuum(_, npages, next, found) =>
      && 1 <= next <= npages <= |s.pages| && |found| <= META_BLOCKS
      && forall i :: 0 <= i < |found| ==> Usable(s, found[i])
    case Scan(_, npages, next, _) => 1 <= next <= npages <= |s.pages|
    case _ => true
  }

  ghost predicate LockOk(s: State)
  {
    && (s.owner.Some? ==> s.owner.value < |s.procs|)
    && forall p: nat :: p < |s.procs| ==> (HoldsMeta(s.procs[p]) <==> s.owner == Some(p))
  }

  /** All entries of all pages. */
  ghost function Total(pages: seq<Page>): multiset<Entry>
  {
    if pages == [] then multiset{} else Total(pages[..|pages| - 1]) + multiset(EntriesOf(pages[|pages| - 1]))
  }

  ghost predicate Inv(s: State, cap: nat)
  {
    && cap > 0 && PagesOk(s.pages, cap) && MetaOk(s) && LockOk(s)
    && (forall p: nat :: p < |s.procs| ==> ProcOk(s, s.procs[p]))
    && Total(s.pages) + s.removed == s.inserted
  }

  lemma {:induction false} TotalUpdate(pages: seq<Page>, b: nat, pg: Page)
    requires b < |pages|
    ensures Total(pages[b := pg]) + multiset(EntriesOf(pages[b])) == Total(pages) + multiset(EntriesOf(pg))
    decreases |pages|
  {
    var n := |pages| - 1;
    if b < n {
      TotalUpdate(pages[..n], b, pg);
      assert pages[b := pg][..n] == pages[..n][b := pg];
      Rearrange(Total(pages[..n]), Total(pages[..n][b := pg]), multiset(EntriesOf(pages[n])),
                multiset(EntriesOf(pages[b])), multiset(EntriesOf(pg)));
    } else {
      assert pages[b := pg][..n] == pages[..n];
    }
  }

  lemma Rearrange(a: multiset<Entry>, c: multiset<Entry>, last: multiset<Entry>, was: multiset<Entry>,
                  more: multiset<Entry>)
    requires c + was == a + more
    ensures (c + last) + was == (a + last) + more
  {
    assert (c + last) + was == (c + was) + last;
    assert (a + last) + more == (a + more) + last;
  }

  lemma TotalExtend(pages: seq<Page>, pg: Page)
    ensures Total(pages + [pg]) == Total(pages) + multiset(EntriesOf(pg))
  {
    assert (pages + [pg])[..|pages|] == pages;
  }

  // ---------------------------------------------------------------- every step keeps it

  /** What steps do to the pages: nothing, one page more, or one page changed. */
  lemma PagesUpdated(s: State, t: State, b: nat, pg: Page, cap: nat)
    requires PagesOk(s.pages, cap) && 1 <= b < |s.pages| && t.pages == s.pages[b := pg]
    requires pg != Meta && (Unused(pg) ==> EntriesOf(pg) == []) && |EntriesOf(pg)| <= cap
    ensures PagesOk(t.pages, cap)
  {
  }

  /** Blocks stay usable while the file does not shrink and no new block is pending. */
  lemma StaysUsable(s: State, t: State)
    requires |s.pages| <= |t.pages| && (Pending(t) == Pending(s) || Pending(t).None? || Pending(t) == Some(|s.pages|))
    ensures forall b: nat :: Usable(s, b) ==> Usable(t, b)
  {
  }

  /** What the other processes and the metapage rely on survives a step that leaves the
      metapage's list and pending pages alone. */
  lemma OthersOk(s: State, t: State, p: nat, q: Proc, cap: nat)
    requires Inv(s, cap) && p < |s.procs| && t.procs == s.procs[p := q]
    requires forall b: nat :: Usable(s, b) ==> Usable(t, b)
    requires |s.pages| <= |t.pages| && (t.meta.nEnd == s.meta.nEnd || s.owner.None? || s.owner == Some(p))
    requires forall r: nat :: r < |s.procs| && r != p && s.procs[r].Extended? ==> t.pages[s.procs[r].blk].New?
    ensures forall r: nat :: r < |s.procs| && r != p ==> ProcOk(t, t.procs[r])
  {
    forall r: nat | r < |s.procs| && r != p ensures ProcOk(t, t.procs[r]) {
      assert ProcOk(s, s.procs[r]) && t.procs[r] == s.procs[r];
      assert HoldsMeta(s.procs[r]) <==> s.owner == Some(r);
    }
  }

  /** Steps that only move the process on. */
  lemma QuietStep(s: State, p: nat, q: Proc, t: State, cap: nat)
    requires Inv(s, cap) && p < |s.procs| && t == At(s, p, q)
    requires HoldsMeta(q) == HoldsMeta(s.procs[p]) && !q.Extended? && !s.procs[p].Extended? && ProcOk(s, q)
    ensures Inv(t, cap)
  {
    hide PagesOk, Total;
    SamePending(s, t, p);
    StaysUsable(s, t);
    OthersOk(s, t, p, q, cap);
  }

  lemma SamePending(s: State, t: State, p: nat)
    requires LockOk(s) && p < |s.procs| == |t.procs| && t.owner == s.owner && t.procs == s.procs[p := t.procs[p]]
    requires !t.procs[p].Extended? && !s.procs[p].Extended?
    ensures Pending(t) == Pending(s)
  {
  }

  /** Giving up the metapage's lock, or never having had it, leaves no new page pending. */
  lemma FreedPending(s: State, t: State, p: nat)
    requires LockOk(s) && p < |s.procs| && t.procs == s.procs[p := Idle]
    requires t.owner == if s.owner == Some(p) then None else s.owner
    ensures LockOk(t) && (Pending(t) == Pending(s) || Pending(t).None?)
  {
  }

  /** Steps that put an entry on a page. */
  lemma PlaceStep(s: State, p: nat, blk: nat, e: Entry, page: Page, t: State, cap: nat)
    requires Inv(s, cap) && p < |s.procs| && 1 <= blk < |s.pages|
    requires t.procs == s.procs[p := Idle] && t.pages == s.pages[blk := page]
    requires t.owner == if s.owner == Some(p) then None else s.owner
    requires t.inserted == s.inserted + multiset{e} && t.removed == s.removed
    requires t.meta == s.meta || s.owner == Some(p)
    requires page.Data? && !page.deleted && |page.entries| <= cap && page.entries == EntriesOf(s.pages[blk]) + [e]
    requires Pending(s) != Some(blk) || s.owner == Some(p)
    requires MetaOk(t)
    ensures Inv(t, cap)
  {
    hide PagesOk, Total, MetaOk;
    PagesUpdated(s, t, blk, page, cap);
    FreedPending(s, t, p);
    StaysUsable(s, t);
    TotalUpdate(s.pages, blk, page);
    AddToTotal(Total(s.pages), Total(t.pages), EntriesOf(s.pages[blk]), e, s.removed, s.inserted);
    PendingUntouched(s, t, p, blk, page, cap);
    OthersOk(s, t, p, Idle, cap);
  }

  lemma PendingUntouched(s: State, t: State, p: nat, blk: nat, page: Page, cap: nat)
    requires Inv(s, cap) && p < |s.procs| && blk < |s.pages| && t.pages == s.pages[blk := page]
    requires Pending(s) != Some(blk) || s.owner == Some(p)
    ensures forall r: nat :: r < |s.procs| && r != p && s.procs[r].Extended? ==>
              s.procs[r].blk < |t.pages| && t.pages[s.procs[r].blk].New?
  {
    forall r: nat | r < |s.procs| && r != p && s.procs[r].Extended?
      ensures s.procs[r].blk < |t.pages| && t.pages[s.procs[r].blk].New?
    {
      assert ProcOk(s, s.procs[r]) && HoldsMeta(s.procs[r]);
    }
  }

  lemma AddToTotal(a: multiset<Entry>, b: multiset<Entry>, was: seq<Entry>, e: Entry,
                   removed: multiset<Entry>, inserted: multiset<Entry>)
    requires b + multiset(was) == a + multiset(was + [e]) && a + removed == inserted
    ensures b + removed == inserted + multiset{e}
  {
    assert multiset(was + [e]) == multiset(was) + multiset{e};
    forall x: Entry ensures b[x] == (a + multiset{e})[x] {
      assert (b + multiset(was))[x] == (a + multiset(was + [e]))[x];
    }
    assert b == a + multiset{e};
  }

  lemma TryFirstKeeps(s: State, p: nat, t: State, cap: nat)
    requires Inv(s, cap) && p < |s.procs| && TryFirstStep(s, p, t, cap)
    ensures Inv(t, cap)
  {
    hide PagesOk, Total;
    var e, blk := s.procs[p].e, s.procs[p].blk;
    assert ProcOk(s, s.procs[p]);
    if Fits(s.pages[blk], cap) {
      ReadyEntries(s, blk, cap);
      NotOwner(s, p);
      SameMetaOk(s, t, p);
      PlaceStep(s, p, blk, e, Added(s.pages[blk], e), t, cap);
    } else {
      QuietStep(s, p, Second(e, Some(blk)), t, cap);
    }
  }

  lemma NotOwner(s: State, p: nat)
    requires LockOk(s) && p < |s.procs| && !HoldsMeta(s.procs[p])
    ensures s.owner != Some(p)
  {
  }

  /** The list stays good when the metapage is not touched. */
  lemma SameMetaOk(s: State, t: State, p: nat)
    requires LockOk(s) && MetaOk(s) && p < |s.procs| && t.procs == s.procs[p := Idle] && |t.pages| == |s.pages|
    requires t.owner == if s.owner == Some(p) then None else s.owner
    requires t.meta == s.meta.(nStart := t.meta.nStart) && t.meta.nStart <= s.meta.nEnd
    ensures MetaOk(t)
  {
    FreedPending(s, t, p);
    StaysUsable(s, t);
  }

  lemma ReadyEntries(s: State, blk: nat, cap: nat)
    requires PagesOk(s.pages, cap) && blk < |s.pages| && Ready(s.pages[blk]).Data?
    ensures Ready(s.pages[blk]).entries == EntriesOf(s.pages[blk])
  {
  }

  lemma LockMetaKeeps(s: State, p: nat, t: State, cap: nat)
    requires Inv(s, cap) && p < |s.procs| && LockMetaStep(s, p, t)
    ensures Inv(t, cap)
  {
    hide PagesOk, Total;
    assert Pending(t).None?;
    StaysUsable(s, t);
    OthersOk(s, t, p, t.procs[p], cap);
  }

  lemma TryNextKeeps(s: State, p: nat, t: State, cap: nat)
    requires Inv(s, cap) && p < |s.procs| && TryNextStep(s, p, t, cap)
    ensures Inv(t, cap)
  {
    hide PagesOk, Total;
    var e, n := s.procs[p].e, s.procs[p].n;
    assert ProcOk(s, s.procs[p]) && HoldsMeta(s.procs[p]);
    if n >= s.meta.nEnd {
      QuietStep(s, p, Alloc(e), t, cap);
    } else {
      var blk := s.meta.notFull[n];
      assert Usable(s, blk);
      if Fits(s.pages[blk], cap) {
        ReadyEntries(s, blk, cap);
        SameMetaOk(s, t, p);
        PlaceStep(s, p, blk, e, Added(s.pages[blk], e), t, cap);
      } else {
        QuietStep(s, p, Walk(e, n + 1), t, cap);
      }
    }
  }

  /** A new list of one usable page is good. */
  lemma OnlyPageOk(s: State, t: State, p: nat, blk: nat)
    requires LockOk(s) && MetaOk(s) && p < |s.procs| && s.owner == Some(p) && 1 <= blk < |s.pages|
    requires t.procs == s.procs[p := Idle] && t.owner.None? && |t.pages| == |s.pages| && t.meta == OnlyPage(s.meta, blk)
    ensures MetaOk(t)
  {
  }

  lemma TakeFreeKeeps(s: State, p: nat, blk: nat, t: State, cap: nat)
    requires Inv(s, cap) && p < |s.procs| && TakeFreeStep(s, p, blk, t)
    ensures Inv(t, cap)
  {
    hide Total;
    var e := s.procs[p].e;
    assert HoldsMeta(s.procs[p]);
    OnlyPageOk(s, t, p, blk);
    PlaceStep(s, p, blk, e, Data(false, [e]), t, cap);
  }

  lemma InitExtendedKeeps(s: State, p: nat, t: State, cap: nat)
    requires Inv(s, cap) && p < |s.procs| && InitExtendedStep(s, p, t)
    ensures Inv(t, cap)
  {
    hide Total;
    var e, blk := s.procs[p].e, s.procs[p].blk;
    assert HoldsMeta(s.procs[p]) && ProcOk(s, s.procs[p]);
    OnlyPageOk(s, t, p, blk);
    PlaceStep(s, p, blk, e, Data(false, [e]), t, cap);
  }

  lemma ExtendKeeps(s: State, p: nat, t: State, cap: nat)
    requires Inv(s, cap) && p < |s.procs| && ExtendStep(s, p, t)
    ensures Inv(t, cap)
  {
    hide Total;
    assert HoldsMeta(s.procs[p]);
    TotalExtend(s.pages, New);
    StaysUsable(s, t);
    OthersOk(s, t, p, t.procs[p], cap);
  }

  lemma VacuumPageKeeps(s: State, p: nat, t: State, cap: nat)
    requires Inv(s, cap) && p < |s.procs| && VacuumPageStep(s, p, t, cap)
    ensures Inv(t, cap)
  {
    hide Total, PagesOk, MetaOk, LockOk, Purged;
    var v := s.procs[p];
    assert ProcOk(s, v);
    var pg := s.pages[v.next];
    if Unused(pg) {
      QuietStep(s, p, t.procs[p], t, cap);
    } else {
      PurgeKeeps(s, p, t, pg, Purged(pg, v.dead), cap);
    }
  }

  /** The step that rewrites a page. */
  lemma PurgeKeeps(s: State, p: nat, t: State, pg: Page, left: Page, cap: nat)
    requires Inv(s, cap) && p < |s.procs| && s.procs[p].Vacuum? && 1 <= s.procs[p].next < s.procs[p].npages <= |s.pages|
    requires pg == s.pages[s.procs[p].next] && !Unused(pg) && pg.Data? && left == Purged(pg, s.procs[p].dead)
    requires VacuumPageStep(s, p, t, cap)
    ensures Inv(t, cap)
  {
    hide Total, PagesOk, Purged;
    var v := s.procs[p];
    SamePending(s, t, p);
    NotPending(s, v.next, cap);
    PendingUntouched(s, t, p, v.next, left, cap);
    PurgedIs(s.pages, v.next, v.dead, cap);
    PagesUpdated(s, t, v.next, left, cap);
    StaysUsable(s, t);
    OthersOk(s, t, p, t.procs[p], cap);
    VacuumOk(s, t, p);
    TotalUpdate(s.pages, v.next, left);
    DropFromTotal(Total(s.pages), Total(t.pages), multiset(pg.entries), multiset(left.entries), s.removed, s.inserted);
  }

  lemma PurgedIs(pages: seq<Page>, b: nat, dead: set<Tid>, cap: nat)
    requires PagesOk(pages, cap) && b < |pages| && pages[b].Data? && !pages[b].deleted
    ensures var left := Purged(pages[b], dead);
            && left.Data? && (Unused(left) ==> left.entries == []) && |left.entries| <= cap
            && multiset(left.entries) <= multiset(pages[b].entries)
  {
    hide Survivors;
    Purging(pages[b].entries, dead);
  }

  lemma VacuumOk(s: State, t: State, p: nat)
    requires p < |s.procs| == |t.procs| && s.procs[p].Vacuum? && ProcOk(s, s.procs[p])
    requires s.procs[p].next < s.procs[p].npages && |s.pages| <= |t.pages|
    requires var v, w := s.procs[p], t.procs[p];
             && w.Vacuum? && w.npages == v.npages && w.next == v.next + 1
             && (w.found == v.found || (w.found == v.found + [v.next] && |v.found| < META_BLOCKS))
    requires forall b: nat :: Usable(s, b) ==> Usable(t, b)
    requires Usable(t, s.procs[p].next)
    ensures ProcOk(t, t.procs[p])
  {
  }

  /** A page that is in use is not pending. */
  lemma NotPending(s: State, b: nat, cap: nat)
    requires Inv(s, cap) && b < |s.pages| && !s.pages[b].New?
    ensures Pending(s) != Some(b)
  {
    if s.owner.Some? {
      assert ProcOk(s, s.procs[s.owner.value]);
    }
  }

  lemma Purging(es: seq<Entry>, dead: set<Tid>)
    ensures multiset(Survivors(es, dead)) <= multiset(es)
  {
    forall e ensures multiset(Survivors(es, dead))[e] <= multiset(es)[e] {
      SurvivorsAre(es, dead, e);
    }
  }

  lemma DropFromTotal(a: multiset<Entry>, b: multiset<Entry>, was: multiset<Entry>, left: multiset<Entry>,
                      removed: multiset<Entry>, inserted: multiset<Entry>)
    requires b + was == a + left && left <= was && a + removed == inserted
    ensures b + (removed + (was - left)) == inserted
  {
    forall x: Entry ensures (b + (was - left))[x] == a[x] {
      assert (b + was)[x] == (a + left)[x];
    }
    assert b + (was - left) == a;
  }

  lemma WriteMetaKeeps(s: State, p: nat, t: State, cap: nat)
    requires Inv(s, cap) && p < |s.procs| && WriteMetaStep(s, p, t)
    ensures Inv(t, cap)
  {
    hide Total, PagesOk;
    assert ProcOk(s, s.procs[p]);
    SamePending(s, t, p);
    StaysUsable(s, t);
    OthersOk(s, t, p, Idle, cap);
  }

  lemma AbortKeeps(s: State, p: nat, t: State, cap: nat)
    requires Inv(s, cap) && Step(s, p, Abort, t, cap)
    ensures Inv(t, cap)
  {
    hide Total, PagesOk;
    FreedPending(s, t, p);
    StaysUsable(s, t);
    OthersOk(s, t, p, Idle, cap);
  }

  /** Every step keeps the invariant. */
  lemma StepKeeps(s: State, p: nat, a: Action, t: State, cap: nat)
    requires Inv(s, cap) && Step(s, p, a, t, cap)
    ensures Inv(t, cap)
  {
    hide Inv, TryFirstStep, LockMetaStep, TryNextStep, TakeFreeStep;
    hide ExtendStep, InitExtendedStep, VacuumPageStep, WriteMetaStep;
    match a {
      case TryFirst => TryFirstKeeps(s, p, t, cap);
      case LockMeta => LockMetaKeeps(s, p, t, cap);
      case TryNext => TryNextKeeps(s, p, t, cap);
      case TakeFree(blk) => TakeFreeKeeps(s, p, blk, t, cap);
      case Extend => ExtendKeeps(s, p, t, cap);
      case InitExtended => InitExtendedKeeps(s, p, t, cap);
      case VacuumPage => VacuumPageKeeps(s, p, t, cap);
      case WriteMeta => WriteMetaKeeps(s, p, t, cap);
      case Abort => AbortKeeps(s, p, t, cap);
      case _ => OtherKeeps(s, p, a, t, cap);
    }
  }

  lemma OtherKeeps(s: State, p: nat, a: Action, t: State, cap: nat)
    requires Inv(s, cap) && Step(s, p, a, t, cap)
    requires a.BeginInsert? || a.ReadMeta? || a.BeginVacuum? || a.BeginScan? || a.ScanPage? || a.EndScan?
    ensures Inv(t, cap)
  {
    hide Total;
    assert ProcOk(s, s.procs[p]);
    QuietStep(s, p, t.procs[p], t, cap);
  }
}
