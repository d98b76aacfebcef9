/** An index of live pages passes verification if and only if it is sound. */
module BtreeSoundTheorems {
  import opened Wrappers
  import opened BtreeKey
  import opened BtreePage
  import opened BtreeLevel
  import opened BtreeFinite
  import opened BtreeLevelTheorems
  import opened BtreeChainTheorems
  import opened BtreeIndexTheorems
  import opened BtreeOrderTheorems
  import opened BtreeSound
  import opened BtreeSoundPasses

  /** Pages are live and have no null downlinks; rows have heap TIDs; and no page below the top is
      marked as root. */
  ghost predicate Ordinary(idx: Index, levels: seq<seq<nat>>)
  {
    && (forall d :: 0 <= d < |levels| ==>
          AllLive(idx, levels[d]) && HaveTids(idx, levels[d]) && NoNulls(idx, levels[d]))
    && (forall d :: 0 < d < |levels| ==> NoRoots(idx, levels[d]))
  }

  predicate NoNulls(idx: Index, blks: seq<nat>)
  {
    NoNullDownlinks(idx, blks) || (blks != [] && blks[0] in idx.pages && idx.pages[blks[0]].leaf)
  }

  ghost predicate HaveTids(idx: Index, blks: seq<nat>)
  {
    forall i: nat, off: nat ::
      i < |blks| && blks[i] in idx.pages && idx.pages[blks[i]].leaf && idx.pages[blks[i]].Data(off) ==>
        idx.pages[blks[i]].Item(off).tid.Some?
  }

  predicate NoRoots(idx: Index, blks: seq<nat>)
  {
    forall i :: 0 <= i < |blks| ==> blks[i] in idx.pages && !idx.pages[blks[i]].root
  }

  // ---------------------------------------------------------------- pages and levels that pass

  lemma PassedKinds(idx: Index, p: Page, lowkey: Option<Tuple>, c: Cursor)
    requires PagePass(idx, p, lowkey, c) && Sane(p) && !p.Ignore()
    requires p.leaf ==> forall off: nat :: p.Data(off) ==> p.Item(off).tid.Some?
    ensures KindsSound(p, idx.nkeyatts)
  {
    hide NattsOk, ItemPass, RightPass, DownlinkPass, GoodPivot, GoodRow;
    if !p.Rightmost() {
      NattsKinds(p, P_HIKEY, idx.nkeyatts);
    }
    if !p.leaf {
      assert p.Data(p.FirstDataKey()) && OffsetPass(idx, p, lowkey, c, p.FirstDataKey());
      NattsKinds(p, p.FirstDataKey(), idx.nkeyatts);
    }
    forall off: nat | p.Real(off)
      ensures if p.leaf then GoodRow(p.Item(off), idx.nkeyatts) else GoodPivot(p.Item(off), idx.nkeyatts)
    {
      assert p.Data(off) && OffsetPass(idx, p, lowkey, c, off);
      NattsKinds(p, off, idx.nkeyatts);
    }
  }

  lemma PassedItems(idx: Index, p: Page, lowkey: Option<Tuple>, c: Cursor)
    requires PagePass(idx, p, lowkey, c) && KindsSound(p, idx.nkeyatts)
    ensures ItemsSound(p, idx.nkeyatts)
  {
    hide NattsOk, ItemPass, RightPass, DownlinkPass, GoodPivot, GoodRow, LessFrom;
    forall off: nat | p.Real(off) ensures ItemPass(p, off) {
      assert p.Data(off) && OffsetPass(idx, p, lowkey, c, off);
    }
    forall off: nat | p.Real(off) && off < |p.items| ensures Less(p.Item(off), p.Item(off + 1), idx.nkeyatts) {
      ItemPasses(p, off, idx.nkeyatts);
    }
    forall off: nat | p.Real(off) && p.Has(P_HIKEY) && !p.Rightmost()
      ensures if p.leaf then AtMost(p.Item(off), p.Item(P_HIKEY), idx.nkeyatts)
              else Less(p.Item(off), p.Item(P_HIKEY), idx.nkeyatts)
    {
      ItemPasses(p, off, idx.nkeyatts);
    }
  }

  /** The page at place `i` of a walk that passes. */
  lemma VisitedPage(idx: Index, start: LevelStart, blks: seq<nat>, i: nat) returns (p: Page)
    requires LevelPass(idx, start, blks) && AllLive(idx, blks) && HaveTids(idx, blks) && i < |blks|
    ensures blks[i] != P_NONE && Loads(idx, blks[i]) && p == idx.pages[blks[i]]
    ensures p.level == start.level && p.prev == (if i == 0 then P_NONE else blks[i - 1])
    ensures p.next == (if i == |blks| - 1 then P_NONE else blks[i + 1])
    ensures i == 0 && start.istrueroot ==> p.root
    ensures PagePass(idx, p, LowKey(idx, blks[..i]), LevelCursor(idx, blks[..i]))
    ensures KindsSound(p, idx.nkeyatts) && ItemsSound(p, idx.nkeyatts)
  {
    hide PagePass, KindsSound, ItemsSound, Visits, Sane;
    VisitAt(idx, start, blks, i);
    p := idx.pages[blks[i]];
    assert i > 0 ==> LeftOf(blks[..i]) == blks[i - 1];
    if i < |blks| - 1 {
      VisitsLinked(idx, start, blks, i + 1);
    }
    PassedKinds(idx, p, LowKey(idx, blks[..i]), LevelCursor(idx, blks[..i]));
    PassedItems(idx, p, LowKey(idx, blks[..i]), LevelCursor(idx, blks[..i]));
  }

  lemma PassedSound(idx: Index, start: LevelStart, blks: seq<nat>, i: nat)
    requires LevelPass(idx, start, blks) && AllLive(idx, blks) && HaveTids(idx, blks) && i < |blks|
    ensures PageSound(idx, start.level, blks, i)
  {
    hide PagePass, KindsSound, ItemsSound, Visits, AcrossSound, LevelPass, HaveTids;
    var p := VisitedPage(idx, start, blks, i);
    if i < |blks| - 1 {
      var q := VisitedPage(idx, start, blks, i + 1);
      PassedAcross(idx, p, LowKey(idx, blks[..i]), LevelCursor(idx, blks[..i]), blks, i + 1);
    }
  }

  lemma PassedAcross(idx: Index, p: Page, lowkey: Option<Tuple>, c: Cursor, blks: seq<nat>, i: nat)
    requires PagePass(idx, p, lowkey, c) && KindsSound(p, idx.nkeyatts) && !p.Rightmost()
    requires i < |blks| && p.next == blks[i] && AllLive(idx, blks)
    requires Loads(idx, p.next) && KindsSound(idx.pages[p.next], idx.nkeyatts)
    ensures AcrossSound(p, idx.pages[p.next], idx.nkeyatts)
  {
    hide KindsSound, RightPass, LessFrom, DownlinkPass, NattsOk, ItemPass, FirstKey, Sane;
    if p.Real(|p.items|) && |p.items| > 0 {
      assert p.Data(|p.items|) && OffsetPass(idx, p, lowkey, c, |p.items|);
      RightPasses(idx, p);
    }
  }

  lemma PassedLevel(idx: Index, start: LevelStart, blks: seq<nat>)
    requires LevelPass(idx, start, blks) && AllLive(idx, blks) && HaveTids(idx, blks)
    ensures LevelSound(idx, start, blks)
  {
    hide PageSound, Visits;
    forall i: nat | i < |blks| ensures PageSound(idx, start.level, blks, i) {
      PassedSound(idx, start, blks, i);
    }
    VisitsLinked(idx, start, blks, 0);
    var p := VisitedPage(idx, start, blks, 0);
  }

  // ---------------------------------------------------------------- the level below

  lemma TopLevelPasses(idx: Index, start: LevelStart, levels: seq<seq<nat>>)
    requires start.leftmost != P_NONE && IndexPass(idx, start, levels)
    ensures levels != [] && LevelPass(idx, start, levels[0])
  {
    hide LevelPass;
  }

  lemma ChainIsLevel(idx: Index, start: LevelStart, blks: seq<nat>, chain: seq<nat>)
    requires LevelPass(idx, start, blks) && RightLinked(idx, chain)
    requires (forall j :: 0 <= j < |chain| ==> chain[j] != P_NONE)
    requires chain != [] && chain[0] == start.leftmost && NextOf(idx, chain[|chain| - 1]) == P_NONE
    ensures chain == blks
  {
    hide Visits, RightLinked;
    forall i | 0 <= i < |chain| ensures i < |blks| && blks[i] == chain[i] {
      ChainsAgree(idx, start, blks, chain, i);
    }
    if |blks| > |chain| {
      VisitsLinked(idx, start, blks, |chain|);
    }
  }

  lemma OrdinaryTail(idx: Index, levels: seq<seq<nat>>)
    requires Ordinary(idx, levels) && levels != []
    ensures AllLive(idx, levels[0]) && HaveTids(idx, levels[0]) && NoNulls(idx, levels[0])
    ensures Ordinary(idx, levels[1..])
    ensures |levels| > 1 ==> AllLive(idx, levels[1]) && HaveTids(idx, levels[1]) && NoRoots(idx, levels[1])
  {
    hide AllLive, HaveTids, NoNulls, NoRoots;
    assert forall d :: 0 <= d < |levels[1..]| ==> levels[1..][d] == levels[d + 1];
  }

  lemma NoNullsInside(idx: Index, start: LevelStart, blks: seq<nat>)
    requires LevelPass(idx, start, blks) && start.level > 0 && AllLive(idx, blks) && NoNulls(idx, blks)
    ensures NoNullDownlinks(idx, blks)
  {
    hide PagePass, Visits, Downlinks;
    var p := InternalPage(idx, start, blks, 0);
  }

  /** Where the downlinks of a level that passes lie on the next one. */
  lemma Places(idx: Index, start: LevelStart, levels: seq<seq<nat>>) returns (found: seq<nat>)
    requires start.leftmost != P_NONE && IndexPass(idx, start, levels) && Ordinary(idx, levels) && start.level > 0
    ensures |levels| > 1 && levels[1] != [] && Downlinks(idx, levels[0]) != []
    ensures var next := LevelStart(start.level - 1, levels[1][0], false);
            next.leftmost != P_NONE && IndexPass(idx, next, levels[1..])
    ensures Chained(idx, levels[1], found, Downlinks(idx, levels[0]))
  {
    hide Visits, PagePass, Downlinks, Chained, Ordinary, AllLive, HaveTids, NoNulls;
    TopLevelPasses(idx, start, levels);
    OrdinaryTail(idx, levels);
    var blks := levels[0];
    NoNullsInside(idx, start, blks);
    var p := FirstInternal(idx, start, blks);
    var chain;
    chain, found := DownlinksInOrder(idx, start, blks);
    ChainedStart(idx, chain, found, Downlinks(idx, blks));
    var next := NextLevel(idx, blks).value;
    TopLevelPasses(idx, next, levels[1..]);
    ChainIsLevel(idx, next, levels[1], chain);
  }

  lemma FirstInternal(idx: Index, start: LevelStart, blks: seq<nat>) returns (p: Page)
    requires LevelPass(idx, start, blks) && start.level > 0 && AllLive(idx, blks) && NoNullDownlinks(idx, blks)
    ensures p == idx.pages[blks[0]] && p.Has(p.FirstDataKey()) && FirstDownlink(p) != P_NONE
    ensures Downlinks(idx, blks) != [] && Downlinks(idx, blks)[0] == FirstDownlink(p)
    ensures NextLevel(idx, blks) == Some(LevelStart(start.level - 1, FirstDownlink(p), false))
  {
    hide PagePass, Visits, Downlinks;
    p := InternalPage(idx, start, blks, 0);
    FirstDownlinkIsFirst(idx, blks);
  }

  lemma ChainedStart(idx: Index, chain: seq<nat>, found: seq<nat>, downs: seq<nat>)
    requires Chained(idx, chain, found, downs) && chain != []
    ensures downs != [] && chain[0] == downs[0] && RightLinked(idx, chain)
    ensures forall i :: 0 <= i < |chain| ==> chain[i] != P_NONE
  {
    hide Skippable, RightLinked, Loads;
  }

  /** No descent along first downlinks ends at a half-dead leaf. */
  lemma {:induction false} NoDescent(idx: Index, start: LevelStart, levels: seq<seq<nat>>, i: nat,
                                     top: nat, level: nat, d: seq<nat>)
    requires start.leftmost != P_NONE && IndexPass(idx, start, levels) && Ordinary(idx, levels)
    requires levels != [] && i < |levels[0]|
    ensures !Descends(idx, top, level, levels[0][i], d)
    decreases |levels|
  {
    hide Visits, PagePass, IndexPass, Downlinks, Ordinary, Chained;
    TopLevelPasses(idx, start, levels);
    OrdinaryTail(idx, levels);
    var blks := levels[0];
    if Descends(idx, top, level, blks[i], d) && start.level > 0 {
      var p := InternalPage(idx, start, blks, i);
      var m := FirstChild(idx, start, levels, i);
      NoDescent(idx, LevelStart(start.level - 1, levels[1][0], false), levels[1..], m, top, p.level, d[1..]);
    } else if start.level == 0 {
      var p := LeafPage(idx, start, blks, i);
    }
  }

  /** The first child of a page lies on the next level. */
  lemma FirstChild(idx: Index, start: LevelStart, levels: seq<seq<nat>>, i: nat) returns (m: nat)
    requires start.leftmost != P_NONE && IndexPass(idx, start, levels) && Ordinary(idx, levels) && start.level > 0
    requires levels != [] && i < |levels[0]|
    ensures |levels| > 1 && m < |levels[1]| && levels[0][i] in idx.pages
    ensures var p := idx.pages[levels[0][i]]; p.Has(p.FirstDataKey()) && levels[1][m] == FirstDownlink(p)
    ensures levels[1] != [] && levels[1..][0] == levels[1]
    ensures var next := LevelStart(start.level - 1, levels[1][0], false);
            next.leftmost != P_NONE && IndexPass(idx, next, levels[1..])
  {
    hide Visits, PagePass, IndexPass, Downlinks, Ordinary, Skippable, RightLinked, Loads, Place;
    TopLevelPasses(idx, start, levels);
    OrdinaryTail(idx, levels);
    var p := InternalPage(idx, start, levels[0], i);
    var found := Places(idx, start, levels);
    PlaceOf(idx, levels[0], i, p.FirstDataKey());
    m := found[Place(idx, levels[0], i, p.FirstDataKey())];
  }

  /** A page without a downlink lies behind a split that is not complete. */
  lemma OnlySplits(idx: Index, start: LevelStart, levels: seq<seq<nat>>, i: nat)
    requires start.leftmost != P_NONE && IndexPass(idx, start, levels) && Ordinary(idx, levels) && start.level > 0
    requires |levels| > 1 && i < |levels[1]| && Skippable(idx, levels[1], i)
    ensures i > 0 && idx.pages[levels[1][i - 1]].incompleteSplit
  {
    hide Visits, PagePass, IndexPass, Downlinks, Descends, Chained, HaveTids, NoNulls;
    OrdinaryTail(idx, levels);
    var found := Places(idx, start, levels);
    var next, below, blk := LevelStart(start.level - 1, levels[1][0], false), levels[1], levels[1][i];
    assert levels[1..][0] == below;
    TopLevelPasses(idx, next, levels[1..]);
    var p := idx.pages[blk];
    if !idx.pages[below[i - 1]].incompleteSplit {
      var d :| Descends(idx, blk, p.level, FirstDownlink(p), d);
      InnerLevel(idx, next, below, i);
      var m := FirstChild(idx, next, levels[1..], i);
      var next2 := LevelStart(next.level - 1, levels[1..][1][0], false);
      OrdinaryTail(idx, levels[1..]);
      NoDescent(idx, next2, levels[1..][1..], m, blk, p.level, d);
    }
  }

  lemma InnerLevel(idx: Index, start: LevelStart, blks: seq<nat>, i: nat)
    requires LevelPass(idx, start, blks) && AllLive(idx, blks) && i < |blks| && !idx.pages[blks[i]].leaf
    ensures start.level > 0 && idx.pages[blks[i]].Data(idx.pages[blks[i]].FirstDataKey())
  {
    hide PagePass;
    VisitAt(idx, start, blks, i);
  }

  /** The level below follows the downlinks. */
  lemma PassedJoint(idx: Index, start: LevelStart, levels: seq<seq<nat>>) returns (found: seq<nat>)
    requires start.leftmost != P_NONE && IndexPass(idx, start, levels) && Ordinary(idx, levels) && start.level > 0
    ensures |levels| > 1 && Joint(idx, start.level, levels[0], levels[1], found)
  {
    hide Visits, PagePass, IndexPass, Downlinks, Skippable, RightLinked, Loads, PageSound, Ordinary, HaveTids, NoNulls;
    TopLevelPasses(idx, start, levels);
    OrdinaryTail(idx, levels);
    found := Places(idx, start, levels);
    var blks, below, next := levels[0], levels[1], LevelStart(start.level - 1, levels[1][0], false);
    assert levels[1..][0] == below;
    TopLevelPasses(idx, next, levels[1..]);
    PassedLevel(idx, start, blks);
    PassedLevel(idx, next, below);
    forall i: nat | i < |below| && i !in found
      ensures i > 0 && below[i - 1] in idx.pages && idx.pages[below[i - 1]].incompleteSplit
    {
      OnlySplits(idx, start, levels, i);
    }
  }

  // ---------------------------------------------------------------- high keys of the level below

  /** The downlink that comes next, and that its step knows the bound of this one. */
  lemma NextDownlink(idx: Index, level: nat, blks: seq<nat>, k: nat, off: nat) returns (k2: nat, off2: nat)
    requires level > 0 && AllSound(idx, level, blks) && AllLive(idx, blks) && k < |blks|
    requires idx.pages[blks[k]].Data(off) && UpperBound(idx.pages[blks[k]], off).Some?
    ensures k2 < |blks| && idx.pages[blks[k2]].Data(off2) && Precedes(idx, blks, k, off, k2, off2)
  {
    hide KindsSound, ItemsSound, AcrossSound, Downlinks, Place, UpperBound;
    var p := SoundInternal(idx, level, blks, k);
    if off < |p.items| {
      k2, off2 := k, off + 1;
      NextPlace(idx, blks, k, off + 1);
      SamePageBound(p, off + 1);
    } else {
      LastBound(p);
      k2 := k + 1;
      var q := SoundInternal(idx, level, blks, k2);
      off2 := q.FirstDataKey();
      PlaceOfFirst(idx, blks, k);
      HasHighKey(p, idx.nkeyatts);
      assert LeftOf(blks[..k2]) == blks[k];
    }
  }

  /** A walk from page `a` of a level is a slice of it. */
  lemma {:induction false} WalkIsSlice(idx: Index, level: nat, below: seq<nat>, s: Step, path: seq<nat>, a: nat, i: nat)
    requires s.Valid() && Walk(idx, s, path) && AllSound(idx, level, below) && a < |below|
    requires s.Start() == below[a] && i < |path|
    ensures a + i < |below| && path[i] == below[a + i]
    decreases i
  {
    hide ChildFits, AllSound;
    if i > 0 {
      WalkIsSlice(idx, level, below, s, path, a, i - 1);
      NotNull(idx, level, below, a + i - 1);
      assert path[i] == NextOf(idx, path[i - 1]);
    }
  }

  lemma WalkEnd(idx: Index, s: Step, path: seq<nat>)
    requires s.Valid() && WalkEnds(idx, s, path)
    ensures Walk(idx, s, path)
    ensures path == [] ==> s.Start() == P_NONE
    ensures path != [] && s.Downlink() != P_NONE ==> path[|path| - 1] == s.Downlink()
    ensures path != [] && s.Downlink() == P_NONE ==> NextOf(idx, path[|path| - 1]) == P_NONE
  {
    hide Walk;
  }

  /** A walk goes as far as the level does, or to its downlink. */
  lemma WalkGoesFar(idx: Index, level: nat, below: seq<nat>, s: Step, path: seq<nat>, a: nat, i: nat)
    requires s.Valid() && WalkEnds(idx, s, path) && AllSound(idx, level, below) && a <= i < |below|
    requires s.Start() == below[a] && forall m :: a <= m < i ==> below[m] != s.Downlink()
    ensures i - a < |path|
  {
    hide WalkEnds, Walk, AllSound;
    WalkEnd(idx, s, path);
    NotNull(idx, level, below, a);
    if path != [] {
      var last := |path| - 1;
      WalkIsSlice(idx, level, below, s, path, a, last);
      NotNull(idx, level, below, a + last);
      if a + last + 1 < |below| {
        NotNull(idx, level, below, a + last + 1);
      }
    }
  }

  /** Every page on the way of a walk has passed. */
  lemma WalkVisits(idx: Index, level: nat, below: seq<nat>, s: Step, a: nat, i: nat)
    requires s.Valid() && CanWalk(idx, s) && AllSound(idx, level, below) && a <= i < |below| && s.Start() == below[a]
    requires forall m :: a <= m < i ==> below[m] != s.Downlink()
    ensures below[i] in idx.pages && HighKeyMatches(s, below[i], idx.pages[below[i]])
  {
    hide WalkEnds, Walk, AllSound, HighKeyMatches;
    var path :| WalkEnds(idx, s, path);
    WalkEnd(idx, s, path);
    WalkGoesFar(idx, level, below, s, path, a, i);
    WalkIsSlice(idx, level, below, s, path, a, i - a);
    FitsMatches(idx, s, path, i - a);
  }

  lemma FitsMatches(idx: Index, s: Step, path: seq<nat>, i: nat)
    requires s.Valid() && Walk(idx, s, path) && i < |path|
    ensures path[i] in idx.pages && HighKeyMatches(s, path[i], idx.pages[path[i]])
  {
    hide HighKeyMatches, MissingOk, Sane;
    assert ChildFits(idx, s, path[i], SplitBefore(idx, s, path, i), i == 0);
  }

  lemma MatchesRepeats(idx: Index, level: nat, below: seq<nat>, s: Step, i: nat)
    requires s.Valid() && AllSound(idx, level, below) && i < |below|
    requires below[i] in idx.pages && HighKeyMatches(s, below[i], idx.pages[below[i]])
    ensures RepeatsBound(idx.pages[below[i]], i == |below| - 1, Separator(s, below[i]))
  {
    hide AllSound, Separator;
    NotNull(idx, level, below, i);
    if i + 1 < |below| {
      NotNull(idx, level, below, i + 1);
    }
  }

  lemma StepCanWalk(idx: Index, start: LevelStart, blks: seq<nat>, k: nat, off: nat)
    requires LevelPass(idx, start, blks) && start.level > 0 && AllLive(idx, blks) && k < |blks|
    requires idx.pages[blks[k]].Data(off) || (off == INVALID_OFFSET && idx.pages[blks[k]].Rightmost())
    ensures CanWalk(idx, StepAt(idx, blks, k, off))
  {
    hide Visits, LowKey, LevelCursor, CanWalk;
    var p := InternalPage(idx, start, blks, k);
    assert p.Data(off) ==> OffsetPass(idx, p, LowKey(idx, blks[..k]), LevelCursor(idx, blks[..k]), off);
  }

  /** The child itself. */
  lemma ChildRepeats(idx: Index, start: LevelStart, blks: seq<nat>, below: seq<nat>, found: seq<nat>, k: nat, off: nat)
    requires Joint(idx, start.level, blks, below, found) && LevelPass(idx, start, blks)
    requires k < |blks| && idx.pages[blks[k]].Data(off)
    ensures var j := Place(idx, blks, k, off);
            && 0 <= j < |found| && found[j] < |below|
            && RepeatsBound(idx.pages[below[found[j]]], found[j] == |below| - 1, UpperBound(idx.pages[blks[k]], off))
  {
    hide Joint, Place, StepAt, UpperBound, Separator, CanWalk, HighKeyMatches, RepeatsBound, LevelPass;
    JointParts(idx, start.level, blks, below, found);
    var p := SoundInternal(idx, start.level, blks, k);
    var s := StepAt(idx, blks, k, off);
    StepAtIs(idx, start.level, blks, below, found, k, off);
    StepCanWalk(idx, start, blks, k, off);
    var j := Place(idx, blks, k, off);
    NotNull(idx, start.level - 1, below, found[j]);
    WalkMatches(idx, s);
    HasHighKey(p, idx.nkeyatts);
    SeparatorIs(s, below[found[j]]);
    MatchesRepeats(idx, start.level - 1, below, s, found[j]);
  }

  /** The pages behind a child that have no downlink. */
  lemma FollowerRepeats(idx: Index, start: LevelStart, blks: seq<nat>, below: seq<nat>, found: seq<nat>,
                        k: nat, off: nat, i: nat)
    requires Joint(idx, start.level, blks, below, found) && LevelPass(idx, start, blks)
    requires k < |blks| && idx.pages[blks[k]].Data(off) && 0 <= Place(idx, blks, k, off) < |found|
    requires found[Place(idx, blks, k, off)] < i < GroupEnd(found, Place(idx, blks, k, off), |below|) && i < |below|
    ensures RepeatsBound(idx.pages[below[i]], i == |below| - 1, UpperBound(idx.pages[blks[k]], off))
  {
    hide Joint, Place, StepAt, UpperBound, Separator, CanWalk, HighKeyMatches, RepeatsBound, LevelPass, KeyAt, LowKey;
    JointParts(idx, start.level, blks, below, found);
    var p := SoundInternal(idx, start.level, blks, k);
    var j, level := Place(idx, blks, k, off), start.level;
    if UpperBound(p, off).Some? {
      var k2, off2 := NextDownlink(idx, level, blks, k, off);
      var q := SoundInternal(idx, level, blks, k2);
      var s := StepAt(idx, blks, k2, off2);
      StepAtIs(idx, level, blks, below, found, k2, off2);
      StepCanWalk(idx, start, blks, k2, off2);
      forall m | found[j] + 1 <= m <= i ensures below[m] != s.Downlink() {
        NoPageTwice(idx, level - 1, below, m, found[j + 1]);
      }
      WalkVisits(idx, level - 1, below, s, found[j] + 1, i);
      HasHighKey(q, idx.nkeyatts);
      SeparatorIs(s, below[i]);
      MatchesRepeats(idx, level - 1, below, s, i);
    } else {
      LastRepeats(idx, start, blks, below, found, k, off, i);
    }
  }

  lemma LastRepeats(idx: Index, start: LevelStart, blks: seq<nat>, below: seq<nat>, found: seq<nat>,
                    k: nat, off: nat, i: nat)
    requires Joint(idx, start.level, blks, below, found) && LevelPass(idx, start, blks)
    requires k < |blks| && idx.pages[blks[k]].Data(off) && UpperBound(idx.pages[blks[k]], off).None?
    requires 0 <= Place(idx, blks, k, off) < |found| && found[Place(idx, blks, k, off)] < i < |below|
    ensures RepeatsBound(idx.pages[below[i]], i == |below| - 1, None)
  {
    hide Joint, Place, StepAt, CanWalk, HighKeyMatches, RepeatsBound, LevelPass, LowKey;
    JointParts(idx, start.level, blks, below, found);
    var p := SoundInternal(idx, start.level, blks, k);
    var level := start.level;
    assert off == |p.items| && p.Rightmost();
    var s := StepAt(idx, blks, k, INVALID_OFFSET);
    LastStepIs(idx, level, blks, below, found, k);
    StepCanWalk(idx, start, blks, k, INVALID_OFFSET);
    var a := found[|found| - 1] + 1;
    NotNull(idx, level - 1, below, a - 1);
    forall m | a <= m <= i ensures below[m] != s.Downlink() {
      NotNull(idx, level - 1, below, m);
    }
    WalkVisits(idx, level - 1, below, s, a, i);
    assert Separator(s, below[i]) == None;
    MatchesRepeats(idx, level - 1, below, s, i);
  }

  lemma PassedChild(idx: Index, start: LevelStart, blks: seq<nat>, below: seq<nat>, found: seq<nat>, k: nat, off: nat)
    requires Joint(idx, start.level, blks, below, found) && LevelPass(idx, start, blks)
    requires k < |blks| && idx.pages[blks[k]].Data(off)
    ensures var j := Place(idx, blks, k, off);
            0 <= j < |found| && ChildSound(idx, idx.pages[blks[k]], off, below, found[j], GroupEnd(found, j, |below|))
  {
    hide Joint, Place, UpperBound, RepeatsBound, LevelPass, LessFrom;
    JointParts(idx, start.level, blks, below, found);
    ChildRepeats(idx, start, blks, below, found, k, off);
    var p := SoundInternal(idx, start.level, blks, k);
    var j := Place(idx, blks, k, off);
    StepStarts(idx, start.level, blks, below, found, k, off);
    forall i | found[j] <= i < GroupEnd(found, j, |below|) && i < |below| && below[i] in idx.pages
      ensures RepeatsBound(idx.pages[below[i]], i == |below| - 1, UpperBound(p, off))
    {
      if i > found[j] {
        FollowerRepeats(idx, start, blks, below, found, k, off, i);
      }
    }
    if p.Real(off) {
      PassedAbove(idx, start, blks, below, k, off, found[j]);
    }
  }

  lemma PassedAbove(idx: Index, start: LevelStart, blks: seq<nat>, below: seq<nat>, k: nat, off: nat, i: nat)
    requires LevelPass(idx, start, blks) && start.level > 0 && AllLive(idx, blks) && AllLive(idx, below)
    requires AllSound(idx, start.level, blks) && AllSound(idx, start.level - 1, below)
    requires k < |blks| && idx.pages[blks[k]].Real(off) && i < |below| && below[i] == idx.pages[blks[k]].Item(off).link
    ensures forall o: nat :: idx.pages[below[i]].Real(o) ==>
              Less(idx.pages[blks[k]].Item(off), idx.pages[below[i]].Item(o), idx.nkeyatts)
  {
    hide Visits, LessFrom, ChildAbove, PagePass;
    var p := InternalPage(idx, start, blks, k);
    assert PageSound(idx, start.level, blks, k) && PageSound(idx, start.level - 1, below, i);
    SeparatorRegular(idx, p, LowKey(idx, blks[..k]), LevelCursor(idx, blks[..k]), off);
    ChildAboveIs(idx, p.Item(off), below[i]);
  }

  // ---------------------------------------------------------------- the theorem

  /** An ordinary index that passes is sound. */
  lemma {:induction false} PassesSound(idx: Index, start: LevelStart, levels: seq<seq<nat>>)
    requires start.leftmost != P_NONE && IndexPass(idx, start, levels) && Ordinary(idx, levels)
    ensures Sound(idx, start, levels)
    decreases |levels|
  {
    hide LevelPass, LevelSound, Ordinary, AllLive, HaveTids, NoNulls, NoRoots, ChildSound, NextLevel, Joint, Chained;
    TopLevelPasses(idx, start, levels);
    OrdinaryTail(idx, levels);
    var blks := levels[0];
    PassedLevel(idx, start, blks);
    if start.level == 0 {
      OnlyLevel(idx, start, levels);
    } else {
      var places := Places(idx, start, levels);
      var found := PassedJoint(idx, start, levels);
      var below := levels[1];
      PassesSound(idx, LevelStart(start.level - 1, below[0], false), levels[1..]);
      PassedChildren(idx, start, blks, below, found);
    }
  }

  lemma PassedChildren(idx: Index, start: LevelStart, blks: seq<nat>, below: seq<nat>, found: seq<nat>)
    requires Joint(idx, start.level, blks, below, found) && LevelPass(idx, start, blks)
    ensures BelowSound(idx, blks, below)
  {
    hide Place, ChildSound, LevelPass, AllSound;
    forall k: nat, off: nat | k < |blks| && blks[k] in idx.pages && idx.pages[blks[k]].Data(off)
      ensures var j := Place(idx, blks, k, off);
              0 <= j < |found| && ChildSound(idx, idx.pages[blks[k]], off, below, found[j], GroupEnd(found, j, |below|))
    {
      PassedChild(idx, start, blks, below, found, k, off);
    }
    assert ChildrenSound(idx, blks, below, found);
  }

  lemma OnlyLevel(idx: Index, start: LevelStart, levels: seq<seq<nat>>)
    requires start.leftmost != P_NONE && IndexPass(idx, start, levels) && start.level == 0
    requires levels != [] ==> AllLive(idx, levels[0])
    ensures |levels| == 1
  {
    hide Visits, PagePass;
    var blks := levels[0];
    var p := LeafPage(idx, start, blks, 0);
    assert NextLevel(idx, blks) == Some(LevelStart(0, P_NONE, false));
  }

  /** An ordinary index passes verification if and only if it is sound. */
  lemma PassesIffSound(idx: Index, start: LevelStart, levels: seq<seq<nat>>)
    requires Ordinary(idx, levels) && start.leftmost != P_NONE
    ensures IndexPass(idx, start, levels) <==> Sound(idx, start, levels)
  {
    hide IndexPass, Sound, HaveTids, NoRoots, NoNulls, AllLive;
    if IndexPass(idx, start, levels) {
      PassesSound(idx, start, levels);
    }
    if Sound(idx, start, levels) {
      SoundPasses(idx, start, levels);
    }
  }
}
