/** What holds over whole runs of a bloom index, however its processes interleave. */
module BloomRuns {
  import opened Wrappers
  import opened BloomSign
  import opened BloomPage
  import opened BloomIndex

  datatype Label = Label(p: nat, a: Action)

  ghost predicate Run(states: seq<State>, labels: seq<Label>, cap: nat)
  {
    && |states| == |labels| + 1
    && forall i :: 0 <= i < |labels| ==> Step(states[i], labels[i].p, labels[i].a, states[i + 1], cap)
  }

  lemma {:induction false} RunKeeps(states: seq<State>, labels: seq<Label>, cap: nat, i: nat)
    requires Run(states, labels, cap) && Inv(states[0], cap) && i < |states|
    ensures Inv(states[i], cap)
    decreases i
  {
    hide Inv, Step;
    if i > 0 {
      RunKeeps(states, labels, cap, i - 1);
      StepKeeps(states[i - 1], labels[i - 1].p, labels[i - 1].a, states[i], cap);
    }
  }

  // ---------------------------------------------------------------- the start

  /** An index as the build leaves it, with `n` processes that have not begun anything. */
  ghost function Initial(pages: seq<Page>, n: nat): State
  {
    State(pages, MetaData(0, 0, seq(META_BLOCKS, _ => 0)), None, seq(n, _ => Idle), Total(pages), multiset{})
  }

  lemma BuiltIsInitial(o: Options, pages: seq<Page>, n: nat)
    requires ValidOptions(o) && |pages| > 0 && pages[0] == Meta && LivePages(pages[1..], TupleSize(o.length))
    ensures Inv(Initial(pages, n), Capacity(TupleSize(o.length)))
  {
    hide Total, Capacity;
    EmptyPageFits(o);
    forall b | 1 <= b < |pages| ensures pages[b] == pages[1..][b - 1] { }
  }

  // ---------------------------------------------------------------- conservation

  /** All entries of the pages that are in use. */
  ghost function InUse(pages: seq<Page>): multiset<Entry>
  {
    if pages == [] then multiset{}
    else
      var last := pages[|pages| - 1];
      InUse(pages[..|pages| - 1]) + if Unused(last) then multiset{} else multiset(EntriesOf(last))
  }

  lemma {:induction false} InUseIsTotal(pages: seq<Page>)
    requires forall b :: 0 <= b < |pages| && Unused(pages[b]) ==> EntriesOf(pages[b]) == []
    ensures InUse(pages) == Total(pages)
    decreases |pages|
  {
    if pages != [] {
      InUseIsTotal(pages[..|pages| - 1]);
    }
  }

  /** At every point of every run the entries on the pages in use are those inserted and not
      removed, and unused pages hold none. */
  lemma Conservation(states: seq<State>, labels: seq<Label>, cap: nat, i: nat)
    requires Run(states, labels, cap) && Inv(states[0], cap) && i < |states|
    ensures InUse(states[i].pages) + states[i].removed == states[i].inserted
    ensures forall b :: 0 <= b < |states[i].pages| && Unused(states[i].pages[b]) ==> EntriesOf(states[i].pages[b]) == []
  {
    hide Step, Total, InUse;
    RunKeeps(states, labels, cap, i);
    InUseIsTotal(states[i].pages);
  }

  /** A step of a vacuum on page `b`. */
  predicate Purges(s: State, l: Label, b: nat)
  {
    l.a.VacuumPage? && l.p < |s.procs| && s.procs[l.p].Vacuum? && s.procs[l.p].next == b
  }

  /** The entries of a page before and after a step: the same, one more, or those that a vacuum
      of the page leaves. */
  ghost predicate Changes(s: State, l: Label, b: nat, was: seq<Entry>, now: seq<Entry>)
  {
    || now == was
    || (|now| == |was| + 1 && now[..|was|] == was)
    || (Purges(s, l, b) && now == Survivors(was, s.procs[l.p].dead))
  }

  /** A step changes the entries of a page in two ways only: a vacuum of the page removes those of
      dead rows, or an insertion appends one. In particular no page with entries is
      initialised anew. */
  lemma OnlyVacuumRemoves(s: State, l: Label, t: State, cap: nat, b: nat)
    requires Inv(s, cap) && Step(s, l.p, l.a, t, cap) && b < |s.pages|
    ensures b < |t.pages| && Changes(s, l, b, EntriesOf(s.pages[b]), EntriesOf(t.pages[b]))
  {
    hide Inv, TryNextStep, TryFirstStep, TakeFreeStep, InitExtendedStep, VacuumPageStep;
    match l.a {
      case TryFirst => FirstAdds(s, l, t, cap, b);
      case TryNext => NextAdds(s, l, t, cap, b);
      case TakeFree(blk) => FreeAdds(s, l, blk, t, cap, b);
      case InitExtended => ExtendedAdds(s, l, t, cap, b);
      case VacuumPage => PageShrinks(s, l, t, cap, b);
      case _ =>
    }
  }

  lemma FirstAdds(s: State, l: Label, t: State, cap: nat, b: nat)
    requires Inv(s, cap) && l.p < |s.procs| && TryFirstStep(s, l.p, t, cap) && b < |s.pages|
    ensures b < |t.pages| && Changes(s, l, b, EntriesOf(s.pages[b]), EntriesOf(t.pages[b]))
  {
    hide PagesOk, MetaOk, Total;
    ReadyEntries(s, s.procs[l.p].blk, cap);
  }

  lemma NextAdds(s: State, l: Label, t: State, cap: nat, b: nat)
    requires Inv(s, cap) && l.p < |s.procs| && TryNextStep(s, l.p, t, cap) && b < |s.pages|
    ensures b < |t.pages| && Changes(s, l, b, EntriesOf(s.pages[b]), EntriesOf(t.pages[b]))
  {
    hide PagesOk, MetaOk, Total;
    var n := s.procs[l.p].n;
    if n < s.meta.nEnd {
      ReadyEntries(s, s.meta.notFull[n], cap);
    }
  }

  lemma FreeAdds(s: State, l: Label, blk: nat, t: State, cap: nat, b: nat)
    requires Inv(s, cap) && l.p < |s.procs| && TakeFreeStep(s, l.p, blk, t) && b < |s.pages|
    ensures b < |t.pages| && Changes(s, l, b, EntriesOf(s.pages[b]), EntriesOf(t.pages[b]))
  {
    hide MetaOk, Total;
    assert EntriesOf(s.pages[blk]) == [];
  }

  lemma ExtendedAdds(s: State, l: Label, t: State, cap: nat, b: nat)
    requires Inv(s, cap) && l.p < |s.procs| && InitExtendedStep(s, l.p, t) && b < |s.pages|
    ensures b < |t.pages| && Changes(s, l, b, EntriesOf(s.pages[b]), EntriesOf(t.pages[b]))
  {
    hide PagesOk, MetaOk, Total;
    assert ProcOk(s, s.procs[l.p]);
    assert EntriesOf(s.pages[s.procs[l.p].blk]) == [];
  }

  lemma PageShrinks(s: State, l: Label, t: State, cap: nat, b: nat)
    requires Inv(s, cap) && l.a.VacuumPage? && l.p < |s.procs| && VacuumPageStep(s, l.p, t, cap) && b < |s.pages|
    ensures b < |t.pages| && Changes(s, l, b, EntriesOf(s.pages[b]), EntriesOf(t.pages[b]))
  {
    hide PagesOk, MetaOk, Total, Survivors;
  }

  lemma {:induction false} SurvivorsKeep(es: seq<Entry>, dead: set<Tid>, e: Entry)
    requires e in es && e.tid !in dead
    ensures e in Survivors(es, dead)
    decreases |es|
  {
    var n := |es| - 1;
    if e in es[..n] {
      SurvivorsKeep(es[..n], dead, e);
    }
  }

  /** The entry is on the page and no step of the run removes it. */
  ghost predicate LivesOn(states: seq<State>, labels: seq<Label>, b: nat, e: Entry)
    requires |states| == |labels| + 1
  {
    && b < |states[0].pages| && e in EntriesOf(states[0].pages[b])
    && forall i :: 0 <= i < |labels| ==>
         !(Purges(states[i], labels[i], b) && e.tid in states[i].procs[labels[i].p].dead)
  }

  lemma {:induction false} StaysOnPage(states: seq<State>, labels: seq<Label>, cap: nat, b: nat, e: Entry, i: nat)
    requires Run(states, labels, cap) && Inv(states[0], cap) && LivesOn(states, labels, b, e) && i < |states|
    ensures b < |states[i].pages| && e in EntriesOf(states[i].pages[b])
    decreases i
  {
    hide Inv, Step, Survivors;
    if i > 0 {
      StaysOnPage(states, labels, cap, b, e, i - 1);
      RunKeeps(states, labels, cap, i - 1);
      var s, l, t := states[i - 1], labels[i - 1], states[i];
      OnlyVacuumRemoves(s, l, t, cap, b);
      var was := EntriesOf(s.pages[b]);
      if Purges(s, l, b) && e.tid !in s.procs[l.p].dead {
        SurvivorsKeep(was, s.procs[l.p].dead, e);
      }
    }
  }

  // ---------------------------------------------------------------- scans

  /** A run in which process `p` begins a scan and then does nothing but scan. */
  ghost predicate ScanRun(states: seq<State>, labels: seq<Label>, p: nat, sign: seq<bv16>)
  {
    && labels != [] && labels[0] == Label(p, BeginScan(sign))
    && forall i :: 1 <= i < |labels| && labels[i].p == p ==> labels[i].a.ScanPage?
  }

  /** A step of another process does not touch this one. */
  lemma OthersStep(s: State, l: Label, t: State, cap: nat, p: nat)
    requires Step(s, l.p, l.a, t, cap) && p < |s.procs| && l.p != p
    ensures p < |t.procs| && t.procs[p] == s.procs[p]
  {
  }

  lemma HitFound(es: seq<Entry>, sign: seq<bv16>, e: Entry)
    requires e in es && Sub(sign, e.sign)
    ensures e.tid in Hits(es, sign)
  {
  }

  /** One page further: its live entries that match are in the result. */
  lemma ScanStepFinds(s: State, p: nat, t: State, cap: nat, b: nat, e: Entry)
    requires Inv(s, cap) && p < |s.procs| && ScanPageStep(s, p, t) && Sub(s.procs[p].sign, e.sign)
    requires b < |s.pages| && e in EntriesOf(s.pages[b])
    requires b < s.procs[p].next ==> e.tid in s.procs[p].result
    ensures p < |t.procs| && t.procs[p].Scan? && t.procs[p].sign == s.procs[p].sign &&
            t.procs[p].npages == s.procs[p].npages
    ensures b < t.procs[p].next ==> e.tid in t.procs[p].result
  {
    hide Total, MetaOk, Sub, Hits;
    if b == s.procs[p].next {
      HitFound(EntriesOf(s.pages[b]), s.procs[p].sign, e);
    }
  }

  lemma {:induction false} ScanFindsUpTo(states: seq<State>, labels: seq<Label>, cap: nat, p: nat, sign: seq<bv16>,
                                         b: nat, e: Entry, i: nat)
    requires Run(states, labels, cap) && Inv(states[0], cap) && ScanRun(states, labels, p, sign) && 0 < i < |states|
    requires LivesOn(states, labels, b, e) && Sub(sign, e.sign)
    ensures p < |states[i].procs| && states[i].procs[p].Scan?
    ensures var v := states[i].procs[p];
            && v.sign == sign && v.npages == |states[0].pages| && (b < v.next ==> e.tid in v.result)
    decreases i
  {
    hide Inv, Sub, LivesOn, Step;
    var s, l, t := states[i - 1], labels[i - 1], states[i];
    if i == 1 {
      FirstStep(s, p, sign, t, cap);
      NoMetaEntries(states, labels, cap, b, e);
    } else {
      ScanFindsUpTo(states, labels, cap, p, sign, b, e, i - 1);
      if l.p == p {
        RunKeeps(states, labels, cap, i - 1);
        StaysOnPage(states, labels, cap, b, e, i - 1);
        ScanStep(s, p, t, cap);
        ScanStepFinds(s, p, t, cap, b, e);
      } else {
        OthersStep(s, l, t, cap, p);
      }
    }
  }

  lemma ScanStep(s: State, p: nat, t: State, cap: nat)
    requires Step(s, p, ScanPage, t, cap)
    ensures p < |s.procs| && ScanPageStep(s, p, t)
  {
  }

  lemma FirstStep(s: State, p: nat, sign: seq<bv16>, t: State, cap: nat)
    requires Step(s, p, BeginScan(sign), t, cap)
    ensures p < |t.procs| && t.procs[p] == Scan(sign, |s.pages|, 1, {})
  {
  }

  lemma NoMetaEntries(states: seq<State>, labels: seq<Label>, cap: nat, b: nat, e: Entry)
    requires Run(states, labels, cap) && Inv(states[0], cap) && LivesOn(states, labels, b, e)
    ensures 1 <= b < |states[0].pages|
  {
    hide Step, Total;
  }

  /** A finished scan has found every entry that was there when it began, was not removed while
      it ran, and has the bits it looks for. */
  lemma ScanFinds(states: seq<State>, labels: seq<Label>, cap: nat, p: nat, sign: seq<bv16>, b: nat, e: Entry)
    requires Run(states, labels, cap) && Inv(states[0], cap) && ScanRun(states, labels, p, sign)
    requires LivesOn(states, labels, b, e) && Sub(sign, e.sign)
    requires var last := states[|states| - 1];
             p < |last.procs| && last.procs[p].Scan? && last.procs[p].next == last.procs[p].npages
    ensures e.tid in states[|states| - 1].procs[p].result
  {
    hide Inv, Sub, Step;
    ScanFindsUpTo(states, labels, cap, p, sign, b, e, |states| - 1);
  }

  /** A finished scan has found every row that was indexed when it began, was not removed while it
      ran, and equals the keys. */
  lemma ScanFindsRow(o: Options, row: Row, tid: Tid, keys: seq<ScanKey>,
                     states: seq<State>, labels: seq<Label>, cap: nat, p: nat, b: nat)
    requires ValidRow(o, row) && ValidKeys(o, keys) && MeetsAll(o, row, keys)
    requires forall i :: 0 <= i < |keys| ==> keys[i].value.Some?
    requires Run(states, labels, cap) && Inv(states[0], cap)
    requires ScanRun(states, labels, p, SetAll(Zero(o.length), KeyMasks(o, keys)))
    requires LivesOn(states, labels, b, Entry(tid, RowSign(o, row)))
    requires var last := states[|states| - 1];
             p < |last.procs| && last.procs[p].Scan? && last.procs[p].next == last.procs[p].npages
    ensures tid in states[|states| - 1].procs[p].result
  {
    hide Inv, Sub, Step, SetAll, KeyMasks, RowSign, LivesOn;
    RowMatches(o, row, keys);
    ScanFinds(states, labels, cap, p, SetAll(Zero(o.length), KeyMasks(o, keys)), b, Entry(tid, RowSign(o, row)));
  }

  // ---------------------------------------------------------------- no process gets stuck

  predicate WaitsForMeta(q: Proc) { q.Entered? || q.Second? || (q.Vacuum? && q.next == q.npages) }

  /** A process that has begun something can always go on, unless it waits for the metapage. */
  lemma Progress(s: State, p: nat, cap: nat) returns (a: Action, t: State)
    requires Inv(s, cap) && p < |s.procs| && !s.procs[p].Idle? && (WaitsForMeta(s.procs[p]) ==> s.owner.None?)
    ensures Step(s, p, a, t, cap) && !a.Abort?
  {
    hide Inv, Step;
    match s.procs[p] {
      case Vacuum(_, _, _, _) => a, t := VacuumGoesOn(s, p, cap);
      case Scan(_, _, _, _) => a, t := ScanGoesOn(s, p, cap);
      case Walk(_, _) => a, t := WalkGoesOn(s, p, cap);
      case First(_, _) => a, t := FirstGoesOn(s, p, cap);
      case _ => a, t := InsertGoesOn(s, p, cap);
    }
  }

  lemma FirstGoesOn(s: State, p: nat, cap: nat) returns (a: Action, t: State)
    requires Inv(s, cap) && p < |s.procs| && s.procs[p].First?
    ensures Step(s, p, a, t, cap) && !a.Abort?
  {
    hide Total, MetaOk;
    var e, blk := s.procs[p].e, s.procs[p].blk;
    assert ProcOk(s, s.procs[p]);
    a := TryFirst;
    t := if Fits(s.pages[blk], cap) then Placed(s, p, blk, e, Added(s.pages[blk], e))
         else At(s, p, Second(e, Some(blk)));
  }

  lemma WalkGoesOn(s: State, p: nat, cap: nat) returns (a: Action, t: State)
    requires Inv(s, cap) && p < |s.procs| && s.procs[p].Walk?
    ensures Step(s, p, a, t, cap) && !a.Abort?
  {
    hide Total;
    var e, n := s.procs[p].e, s.procs[p].n;
    a := TryNext;
    if n >= s.meta.nEnd {
      t := At(s, p, Alloc(e));
    } else {
      var blk := s.meta.notFull[n];
      assert Usable(s, blk);
      t := if Fits(s.pages[blk], cap)
           then Placed(s, p, blk, e, Added(s.pages[blk], e)).(meta := s.meta.(nStart := n), owner := None)
           else At(s, p, Walk(e, n + 1));
    }
  }

  lemma ScanGoesOn(s: State, p: nat, cap: nat) returns (a: Action, t: State)
    requires Inv(s, cap) && p < |s.procs| && s.procs[p].Scan?
    ensures Step(s, p, a, t, cap) && !a.Abort?
  {
    hide Total, MetaOk, PagesOk;
    var v := s.procs[p];
    assert ProcOk(s, v);
    if v.next == v.npages {
      a, t := EndScan, At(s, p, Idle);
    } else {
      var pg := s.pages[v.next];
      a := ScanPage;
      t := At(s, p, Scan(v.sign, v.npages, v.next + 1,
                         v.result + if pg.Data? && !pg.deleted then Hits(pg.entries, v.sign) else {}));
    }
  }

  lemma InsertGoesOn(s: State, p: nat, cap: nat) returns (a: Action, t: State)
    requires Inv(s, cap) && p < |s.procs| && (WaitsForMeta(s.procs[p]) ==> s.owner.None?)
    requires s.procs[p].Entered? || s.procs[p].Second? || s.procs[p].Alloc? || s.procs[p].Extended?
    ensures Step(s, p, a, t, cap) && !a.Abort?
  {
    hide Total, PagesOk;
    var q := s.procs[p];
    assert ProcOk(s, q);
    match q {
      case Entered(e) =>
        a := ReadMeta;
        t := if s.meta.nEnd > s.meta.nStart then At(s, p, First(e, s.meta.notFull[s.meta.nStart]))
             else At(s, p, Second(e, None));
      case Second(e, tried) =>
        var n := s.meta.nStart;
        var skip := n < s.meta.nEnd && tried == Some(s.meta.notFull[n]);
        a := LockMeta;
        t := At(s, p, Walk(e, if skip then n + 1 else n)).(owner := Some(p));
      case Alloc(e) =>
        a := Extend;
        t := At(s, p, Extended(e, |s.pages|)).(pages := s.pages + [New]);
      case Extended(e, blk) =>
        a := InitExtended;
        t := Placed(s, p, blk, e, Data(false, [e])).(meta := OnlyPage(s.meta, blk), owner := None);
    }
  }

  lemma VacuumGoesOn(s: State, p: nat, cap: nat) returns (a: Action, t: State)
    requires Inv(s, cap) && p < |s.procs| && s.procs[p].Vacuum? && (WaitsForMeta(s.procs[p]) ==> s.owner.None?)
    ensures Step(s, p, a, t, cap) && !a.Abort?
  {
    hide Total;
    var v := s.procs[p];
    assert ProcOk(s, v);
    if v.next == v.npages {
      a := WriteMeta;
      t := At(s, p, Idle).(meta := MetaData(0, |v.found|, v.found + s.meta.notFull[|v.found|..]));
    } else {
      a := VacuumPage;
      var pg := s.pages[v.next];
      if Unused(pg) {
        t := At(s, p, Vacuum(v.dead, v.npages, v.next + 1, v.found));
      } else {
        var left := Purged(pg, v.dead);
        var listed := 0 < |left.entries| < cap && |v.found| < META_BLOCKS;
        t := At(s, p, Vacuum(v.dead, v.npages, v.next + 1, if listed then v.found + [v.next] else v.found))
             .(pages := s.pages[v.next := left],
               removed := s.removed + (multiset(pg.entries) - multiset(left.entries)));
      }
    }
  }
}
