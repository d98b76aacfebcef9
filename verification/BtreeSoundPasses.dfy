/** A sound index of live pages passes verification, also with splits that are not complete. */
module BtreeSoundPasses {
  import opened Wrappers
  import opened BtreeKey
  import opened BtreePage
  import opened BtreeLevel
  import opened BtreeLevelTheorems
  import opened BtreeChainTheorems
  import opened BtreeIndexTheorems
  import opened BtreeOrderTheorems
  import opened BtreeSound

  // ---------------------------------------------------------------- a sound level

  ghost predicate AllSound(idx: Index, level: nat, blks: seq<nat>)
  {
    forall i: nat :: i < |blks| ==> PageSound(idx, level, blks, i)
  }

  lemma SoundLoads(idx: Index, level: nat, blks: seq<nat>, i: nat)
    requires i < |blks| && PageSound(idx, level, blks, i) && !idx.pages[blks[i]].Ignore()
    ensures Loads(idx, blks[i])
  {
    hide ItemsSound, AcrossSound, GoodPivot, GoodRow;
  }

  /** No page occurs twice. */
  lemma {:induction false} NoPageTwice(idx: Index, level: nat, blks: seq<nat>, i: nat, j: nat)
    requires AllSound(idx, level, blks) && i < j < |blks|
    ensures blks[i] != blks[j]
    decreases i
  {
    hide KindsSound, ItemsSound, AcrossSound;
    assert PageSound(idx, level, blks, i) && PageSound(idx, level, blks, j) && PageSound(idx, level, blks, j - 1);
    if i > 0 {
      NoPageTwice(idx, level, blks, i - 1, j - 1);
    }
  }

  // ---------------------------------------------------------------- children in lockstep

  lemma {:induction false} LinksCount(p: Page, off: nat)
    requires p.FirstDataKey() <= off <= |p.items| + 1
    ensures |LinksTo(p, off)| == off - p.FirstDataKey()
    decreases off
  {
    if off > p.FirstDataKey() {
      LinksCount(p, off - 1);
    }
  }

  /** Where the first downlinks of pages stand. */
  lemma PlaceOfFirst(idx: Index, blks: seq<nat>, k: nat)
    requires AllLive(idx, blks) && k < |blks| && idx.pages[blks[k]].Has(idx.pages[blks[k]].FirstDataKey())
    ensures var p := idx.pages[blks[k]];
            Place(idx, blks, k, |p.items|) == |Downlinks(idx, blks[..k + 1])| - 1
    ensures k == 0 ==> Place(idx, blks, k, idx.pages[blks[k]].FirstDataKey()) == 0
    ensures k + 1 < |blks| ==>
              Place(idx, blks, k + 1, idx.pages[blks[k + 1]].FirstDataKey())
              == Place(idx, blks, k, |idx.pages[blks[k]].items|) + 1
  {
    hide LinksTo;
    var p := idx.pages[blks[k]];
    PageLinks(idx, blks, k);
    LinksCount(p, |p.items| + 1);
    if k == 0 {
      assert blks[..0] == [];
    }
  }

  /** Page `k` of a sound internal level. */
  lemma SoundInternal(idx: Index, level: nat, blks: seq<nat>, k: nat) returns (p: Page)
    requires level > 0 && AllSound(idx, level, blks) && k < |blks|
    ensures blks[k] in idx.pages && p == idx.pages[blks[k]] && !p.leaf && p.Has(p.FirstDataKey())
    ensures p.level == level && KindsSound(p, idx.nkeyatts) && ItemsSound(p, idx.nkeyatts)
    ensures p.Rightmost() <==> k == |blks| - 1
  {
    hide ItemsSound, AcrossSound, GoodPivot, GoodRow;
    assert PageSound(idx, level, blks, k);
    if k < |blks| - 1 {
      assert PageSound(idx, level, blks, k + 1);
    }
    p := idx.pages[blks[k]];
  }

  /** Behind the pages `blks[..k]` the cursor stands behind the last downlink. */
  lemma CursorBehind(idx: Index, level: nat, blks: seq<nat>, k: nat)
    requires level > 0 && AllSound(idx, level, blks) && AllLive(idx, blks) && k < |blks|
    ensures k == 0 ==> LevelCursor(idx, blks[..k]) == Outset
    ensures k > 0 ==>
              && blks[k - 1] in idx.pages && idx.pages[blks[k - 1]].items != []
              && var q := idx.pages[blks[k - 1]];
                 LevelCursor(idx, blks[..k]) == CursorAfter(idx, q.Item(|q.items|).link)
  {
    hide CursorAfter, KindsSound, ItemsSound;
    if k > 0 {
      var q := SoundInternal(idx, level, blks, k - 1);
      assert LeftOf(blks[..k]) == blks[k - 1];
    }
  }

  // The pages `below` follow the level, at places `found`.

  ghost predicate Joint(idx: Index, level: nat, blks: seq<nat>, below: seq<nat>, found: seq<nat>)
  {
    && level > 0 && AllSound(idx, level, blks) && AllLive(idx, blks)
    && Followed(idx, blks, below, found) && AllSound(idx, level - 1, below) && AllLive(idx, below)
  }

  ghost predicate Joined(idx: Index, level: nat, blks: seq<nat>, below: seq<nat>, found: seq<nat>)
  {
    Joint(idx, level, blks, below, found) && ChildrenSound(idx, blks, below, found)
  }

  /** Where the walk to downlink `j` starts. */
  function WalkFrom(found: seq<nat>, j: nat): nat
    requires j <= |found|
  {
    if j == 0 then 0 else found[j - 1] + 1
  }

  /** The cursor before a downlink stands behind the one before. */
  lemma StepStarts(idx: Index, level: nat, blks: seq<nat>, below: seq<nat>, found: seq<nat>, k: nat, off: nat)
    requires Joint(idx, level, blks, below, found) && k < |blks| && idx.pages[blks[k]].Data(off)
    ensures var p, j := idx.pages[blks[k]], Place(idx, blks, k, off);
            && 0 <= j < |found| && below[found[j]] == p.Item(off).link
            && CursorAt(idx, p, LevelCursor(idx, blks[..k]), off)
               == if j == 0 then Outset else CursorAfter(idx, below[found[j - 1]])
  {
    hide KindsSound, ItemsSound, AcrossSound, Downlinks, LevelCursor, Place, ChildrenSound, CursorAfter;
    var p := SoundInternal(idx, level, blks, k);
    PlaceOf(idx, blks, k, off);
    CursorBehind(idx, level, blks, k);
    if off > p.FirstDataKey() {
      PlaceOf(idx, blks, k, off - 1);
      NextPlace(idx, blks, k, off);
    } else if k > 0 {
      var q := SoundInternal(idx, level, blks, k - 1);
      PlaceOf(idx, blks, k - 1, |q.items|);
      PlaceOfFirst(idx, blks, k - 1);
    } else {
      PlaceOfFirst(idx, blks, k);
    }
  }

  lemma NextPlace(idx: Index, blks: seq<nat>, k: nat, off: nat)
    requires k < |blks| && blks[k] in idx.pages && off > 0
    ensures Place(idx, blks, k, off) == Place(idx, blks, k, off - 1) + 1
  {
  }

  lemma NotNull(idx: Index, level: nat, blks: seq<nat>, i: nat)
    requires AllSound(idx, level, blks) && i < |blks|
    ensures blks[i] != P_NONE && blks[i] in idx.pages
    ensures NextOf(idx, blks[i]) == if i + 1 < |blks| then blks[i + 1] else P_NONE
  {
    hide KindsSound, ItemsSound, AcrossSound;
    assert PageSound(idx, level, blks, i);
  }

  /** What precedes the downlink at `off`: the same page, or the left sibling, whose bound it has. */
  lemma BoundBefore(idx: Index, level: nat, blks: seq<nat>, k: nat, off: nat)
    requires level > 0 && AllSound(idx, level, blks) && AllLive(idx, blks) && k < |blks|
    requires idx.pages[blks[k]].Data(off) && Place(idx, blks, k, off) > 0
    ensures exists k1: nat, off1: nat :: k1 < |blks| && Precedes(idx, blks, k1, off1, k, off)
  {
    hide KindsSound, ItemsSound, AcrossSound, Downlinks, Place, UpperBound;
    var p := SoundInternal(idx, level, blks, k);
    if off > p.FirstDataKey() {
      NextPlace(idx, blks, k, off);
      SamePageBound(p, off);
      assert Precedes(idx, blks, k, off - 1, k, off);
    } else {
      if k == 0 {
        PlaceOfFirst(idx, blks, k);
      }
      var q := SoundInternal(idx, level, blks, k - 1);
      PlaceOfFirst(idx, blks, k - 1);
      LastBound(q);
      assert LeftOf(blks[..k]) == blks[k - 1];
      assert Precedes(idx, blks, k - 1, |q.items|, k, off);
    }
  }

  /** The downlink before, and that its bound is the key that the step from it knows. */
  ghost predicate Precedes(idx: Index, blks: seq<nat>, k1: nat, off1: nat, k: nat, off: nat)
    requires k1 < |blks| && k < |blks|
  {
    && blks[k1] in idx.pages && blks[k] in idx.pages && idx.pages[blks[k1]].Data(off1)
    && Place(idx, blks, k1, off1) == Place(idx, blks, k, off) - 1
    && UpperBound(idx.pages[blks[k1]], off1) == KeyAt(idx.pages[blks[k]], LowKey(idx, blks[..k]), off)
  }

  /** The key at a downlink; at the first one of a page, the key from the left. */
  function KeyAt(p: Page, lowkey: Option<Tuple>, off: nat): Option<Tuple>
  {
    if p.NegInf(off) then lowkey else if p.Has(off) then Some(p.Item(off)) else None
  }

  lemma SamePageBound(p: Page, off: nat)
    requires !p.leaf && p.FirstDataKey() < off <= |p.items|
    ensures UpperBound(p, off - 1) == Some(p.Item(off)) && !p.NegInf(off)
  {
  }

  lemma LastBound(p: Page)
    requires p.Has(p.FirstDataKey())
    ensures UpperBound(p, |p.items|) == if p.Rightmost() then None else Some(p.Item(P_HIKEY))
  {
  }

  lemma SeparatorIs(s: Step, blk: nat)
    requires s.Valid() && !s.target.leaf && (!s.target.Rightmost() ==> s.target.Has(P_HIKEY))
    ensures s.off != INVALID_OFFSET && s.target.Data(s.off) && blk == s.Downlink() ==>
              Separator(s, blk) == UpperBound(s.target, s.off)
    ensures s.off != INVALID_OFFSET && s.target.Data(s.off) && blk != s.Downlink() ==>
              Separator(s, blk) == KeyAt(s.target, s.lowkey, s.off)
  {
  }

  /** Page `i` on the way to downlink `j` of the step passes its checks. */
  lemma OnTheWay(idx: Index, level: nat, below: seq<nat>, found: seq<nat>, s: Step, j: nat, i: nat,
                 bound: Option<Tuple>)
    requires s.Valid() && s.target.level == level > 0 && AllSound(idx, level - 1, below) && AllLive(idx, below)
    requires j <= |found| && WalkFrom(found, j) <= i < |below| && (j < |found| ==> i <= found[j] < |below|)
    requires s.Downlink() == if j < |found| then below[found[j]] else P_NONE
    requires s.prevright == (if j == 0 then None else Some(below[WalkFrom(found, j)]))
    requires j == 0 ==> found != [] && i == found[0] == 0
    requires i > WalkFrom(found, j) ==> idx.pages[below[i - 1]].incompleteSplit || (j < |found| && i == found[j])
    requires i == WalkFrom(found, j) && j > 0 && !(j < |found| && i == found[j]) ==> s.prevsplit
    requires bound == Separator(s, below[i]) && RepeatsBound(idx.pages[below[i]], i == |below| - 1, bound)
    ensures ChildFits(idx, s, below[i],
                      if i == WalkFrom(found, j) then s.StartSplit() else idx.pages[below[i - 1]].incompleteSplit,
                      i == WalkFrom(found, j))
  {
    hide KindsSound, ItemsSound, AcrossSound, Sane, HeadsDeletion, Separator;
    assert PageSound(idx, level - 1, below, i);
    SoundLoads(idx, level - 1, below, i);
    if i > 0 {
      NoPageTwice(idx, level - 1, below, i - 1, i);
    }
    var a := WalkFrom(found, j);
    if a < i {
      NoPageTwice(idx, level - 1, below, a, i);
    }
    if j < |found| && i < found[j] {
      NoPageTwice(idx, level - 1, below, i, found[j]);
    }
  }

  // ---------------------------------------------------------------- the walk to a downlink

  lemma RepeatsAt(idx: Index, level: nat, blks: seq<nat>, below: seq<nat>, found: seq<nat>, k: nat, off: nat, i: nat)
    requires Joined(idx, level, blks, below, found) && k < |blks| && idx.pages[blks[k]].Data(off)
    requires 0 <= Place(idx, blks, k, off) < |found| && i < |below|
    requires found[Place(idx, blks, k, off)] <= i < GroupEnd(found, Place(idx, blks, k, off), |below|)
    ensures RepeatsBound(idx.pages[below[i]], i == |below| - 1, UpperBound(idx.pages[blks[k]], off))
  {
    hide AllSound, Place, RepeatsBound, UpperBound, Followed;
    var j := Place(idx, blks, k, off);
    assert ChildSound(idx, idx.pages[blks[k]], off, below, found[j], GroupEnd(found, j, |below|));
  }

  /** The bound that page `i`, on the way to the downlink, must repeat. */
  lemma BoundOnTheWay(idx: Index, level: nat, blks: seq<nat>, below: seq<nat>, found: seq<nat>, k: nat,
                      off: nat, i: nat)
    requires Joined(idx, level, blks, below, found) && k < |blks| && idx.pages[blks[k]].Data(off)
    requires 0 <= Place(idx, blks, k, off) < |found|
    requires WalkFrom(found, Place(idx, blks, k, off)) <= i <= found[Place(idx, blks, k, off)] < |below|
    requires Place(idx, blks, k, off) == 0 ==> i == 0
    ensures var p := idx.pages[blks[k]]; var j := Place(idx, blks, k, off);
            RepeatsBound(idx.pages[below[i]], i == |below| - 1,
                         if i == found[j] then UpperBound(p, off) else KeyAt(p, LowKey(idx, blks[..k]), off))
  {
    hide Place, RepeatsBound, UpperBound, KeyAt, LowKey, ChildrenSound, AllSound;
    var j := Place(idx, blks, k, off);
    if i == found[j] {
      RepeatsAt(idx, level, blks, below, found, k, off, i);
    } else {
      BoundBefore(idx, level, blks, k, off);
      var k1: nat, off1: nat :| k1 < |blks| && Precedes(idx, blks, k1, off1, k, off);
      RepeatsAt(idx, level, blks, below, found, k1, off1, i);
    }
  }

  /** Pages between downlinks lie behind splits that are not complete. */
  lemma Between(idx: Index, level: nat, blks: seq<nat>, below: seq<nat>, found: seq<nat>, j: nat, i: nat)
    requires Joint(idx, level, blks, below, found) && j <= |found| && WalkFrom(found, j) <= i < |below|
    requires j < |found| ==> i < found[j]
    ensures i > 0 && idx.pages[below[i - 1]].incompleteSplit
  {
    hide AllSound, ChildrenSound, Downlinks;
    assert i !in found;
  }

  /** The step to the downlink at `off` of page `k`. */
  function StepAt(idx: Index, blks: seq<nat>, k: nat, off: nat): (s: Step)
    requires k < |blks| && blks[k] in idx.pages && (off == INVALID_OFFSET || idx.pages[blks[k]].Has(off))
    ensures s.Valid()
  {
    StepOf(idx, idx.pages[blks[k]], LowKey(idx, blks[..k]), LevelCursor(idx, blks[..k]), off)
  }

  lemma StepAtIs(idx: Index, level: nat, blks: seq<nat>, below: seq<nat>, found: seq<nat>, k: nat, off: nat)
    requires Joint(idx, level, blks, below, found) && k < |blks| && idx.pages[blks[k]].Data(off)
    ensures var s, j := StepAt(idx, blks, k, off), Place(idx, blks, k, off);
            && 0 <= j < |found| && found[j] < |below| && WalkFrom(found, j) <= found[j]
            && s.target == idx.pages[blks[k]] && s.off == off && s.lowkey == LowKey(idx, blks[..k])
            && s.Downlink() == below[found[j]]
            && s.prevright == (if j == 0 then None else Some(below[WalkFrom(found, j)]))
            && (j > 0 ==> s.prevsplit == idx.pages[below[found[j - 1]]].incompleteSplit)
  {
    hide LowKey, LevelCursor, AllSound, ChildrenSound, Downlinks, Place;
    StepStarts(idx, level, blks, below, found, k, off);
    var j := Place(idx, blks, k, off);
    if j > 0 {
      assert found[j - 1] < found[j];
      NotNull(idx, level - 1, below, found[j - 1]);
    }
  }

  lemma WayPasses(idx: Index, level: nat, blks: seq<nat>, below: seq<nat>, found: seq<nat>, k: nat, off: nat, i: nat)
    requires Joined(idx, level, blks, below, found) && k < |blks| && idx.pages[blks[k]].Data(off)
    requires 0 <= Place(idx, blks, k, off) < |found|
    requires WalkFrom(found, Place(idx, blks, k, off)) <= i <= found[Place(idx, blks, k, off)] < |below|
    ensures var s, a := StepAt(idx, blks, k, off), WalkFrom(found, Place(idx, blks, k, off));
            var split := if i == a then s.StartSplit() else idx.pages[below[i - 1]].incompleteSplit;
            ChildFits(idx, s, below[i], split, i == a)
  {
    hide LowKey, LevelCursor, ChildrenSound, Downlinks, Place, ChildFits, RepeatsBound, UpperBound, KeyAt, Separator;
    hide StepAt, AllSound, KindsSound, ItemsSound;
    var s, j := StepAt(idx, blks, k, off), Place(idx, blks, k, off);
    StepAtIs(idx, level, blks, below, found, k, off);
    var p := SoundInternal(idx, level, blks, k);
    FirstFound(idx, blks, below, found);
    BoundOnTheWay(idx, level, blks, below, found, k, off, i);
    HasHighKey(p, idx.nkeyatts);
    SeparatorIs(s, below[i]);
    if i < found[j] {
      Between(idx, level, blks, below, found, j, i);
      NoPageTwice(idx, level - 1, below, i, found[j]);
    }
    OnTheWay(idx, level, below, found, s, j, i, Separator(s, below[i]));
  }

  lemma FirstFound(idx: Index, blks: seq<nat>, below: seq<nat>, found: seq<nat>)
    requires Followed(idx, blks, below, found)
    ensures found != [] && found[0] == 0
  {
  }

  lemma HasHighKey(p: Page, n: nat)
    requires KindsSound(p, n)
    ensures !p.Rightmost() ==> p.Has(P_HIKEY)
  {
  }

  lemma WayStep(idx: Index, level: nat, blks: seq<nat>, below: seq<nat>, found: seq<nat>, k: nat, off: nat, i: nat)
    requires Joined(idx, level, blks, below, found) && k < |blks| && idx.pages[blks[k]].Data(off)
    requires 0 <= Place(idx, blks, k, off) < |found| && found[Place(idx, blks, k, off)] < |below|
    requires WalkFrom(found, Place(idx, blks, k, off)) + i <= found[Place(idx, blks, k, off)]
    ensures var s, j := StepAt(idx, blks, k, off), Place(idx, blks, k, off);
            var path := below[WalkFrom(found, j)..found[j] + 1];
            && path[i] != P_NONE && ChildFits(idx, s, path[i], SplitBefore(idx, s, path, i), i == 0)
            && (i < |path| - 1 ==> path[i] != s.Downlink())
  {
    hide ChildFits, Place, StepAt, Joint, ChildrenSound;
    JointParts(idx, level, blks, below, found);
    var j := Place(idx, blks, k, off);
    var a, b := WalkFrom(found, j), found[j];
    StepAtIs(idx, level, blks, below, found, k, off);
    NotNull(idx, level - 1, below, a + i);
    if i > 0 {
      NotNull(idx, level - 1, below, a + i - 1);
    }
    WayPasses(idx, level, blks, below, found, k, off, a + i);
    if a + i < b {
      NoPageTwice(idx, level - 1, below, a + i, b);
    }
  }

  lemma JointParts(idx: Index, level: nat, blks: seq<nat>, below: seq<nat>, found: seq<nat>)
    requires Joint(idx, level, blks, below, found)
    ensures level > 0 && AllSound(idx, level - 1, below) && AllSound(idx, level, blks)
    ensures found != [] && found[0] == 0 && AllLive(idx, blks) && AllLive(idx, below)
  {
  }

  lemma DownlinkWalks(idx: Index, level: nat, blks: seq<nat>, below: seq<nat>, found: seq<nat>, k: nat, off: nat)
    requires Joined(idx, level, blks, below, found) && k < |blks| && idx.pages[blks[k]].Data(off)
    ensures CanWalk(idx, StepAt(idx, blks, k, off))
  {
    hide ChildFits, Place, StepAt, Joint, ChildrenSound, SplitBefore;
    JointParts(idx, level, blks, below, found);
    var s, j := StepAt(idx, blks, k, off), Place(idx, blks, k, off);
    StepAtIs(idx, level, blks, below, found, k, off);
    var a, b := WalkFrom(found, j), found[j];
    var path := below[a..b + 1];
    forall i: nat | i < |path|
      ensures path[i] != P_NONE && ChildFits(idx, s, path[i], SplitBefore(idx, s, path, i), i == 0)
      ensures i < |path| - 1 ==> path[i] != s.Downlink()
    {
      WayStep(idx, level, blks, below, found, k, off, i);
    }
    SliceLinked(idx, level - 1, below, a, b + 1);
    assert path[0] == s.Start();
    assert WalkEnds(idx, s, path);
  }

  lemma SliceLinked(idx: Index, level: nat, blks: seq<nat>, a: nat, b: nat)
    requires AllSound(idx, level, blks) && a <= b <= |blks|
    ensures RightLinked(idx, blks[a..b])
  {
    hide AllSound;
    forall i, j | 0 <= i && j == i + 1 < b - a ensures blks[a..b][j] == NextOf(idx, blks[a..b][i]) {
      NotNull(idx, level, blks, a + i);
    }
  }

  /** The step behind the last downlink of the level. */
  lemma LastStepIs(idx: Index, level: nat, blks: seq<nat>, below: seq<nat>, found: seq<nat>, k: nat)
    requires Joint(idx, level, blks, below, found) && k < |blks| && idx.pages[blks[k]].Rightmost()
    ensures var s, p := StepAt(idx, blks, k, INVALID_OFFSET), idx.pages[blks[k]];
            && s.target == p && s.off == INVALID_OFFSET && s.Downlink() == P_NONE
            && found[|found| - 1] < |below| && p.Data(|p.items|)
            && Place(idx, blks, k, |p.items|) == |found| - 1 && UpperBound(p, |p.items|) == None
            && s.prevright == Some(NextOf(idx, below[found[|found| - 1]]))
            && s.prevsplit == idx.pages[below[found[|found| - 1]]].incompleteSplit
  {
    hide LowKey, LevelCursor, AllSound, ChildrenSound, Downlinks, Place, KindsSound, ItemsSound;
    var p := SoundInternal(idx, level, blks, k);
    PlaceOf(idx, blks, k, |p.items|);
    PlaceOfFirst(idx, blks, k);
    assert blks[..k + 1] == blks;
    NotNull(idx, level - 1, below, found[|found| - 1]);
  }

  lemma EndWalks(idx: Index, level: nat, blks: seq<nat>, below: seq<nat>, found: seq<nat>, k: nat)
    requires Joined(idx, level, blks, below, found) && k < |blks| && idx.pages[blks[k]].Rightmost()
    ensures CanWalk(idx, StepAt(idx, blks, k, INVALID_OFFSET))
  {
    hide ChildFits, Place, StepAt, ChildrenSound, Downlinks, AllSound, RepeatsBound;
    var s, p := StepAt(idx, blks, k, INVALID_OFFSET), idx.pages[blks[k]];
    LastStepIs(idx, level, blks, below, found, k);
    var a, path := WalkFrom(found, |found|), below[WalkFrom(found, |found|)..];
    NotNull(idx, level - 1, below, a - 1);
    forall i: nat | i < |path|
      ensures path[i] != P_NONE && ChildFits(idx, s, path[i], SplitBefore(idx, s, path, i), i == 0)
    {
      NotNull(idx, level - 1, below, a + i);
      if i > 0 {
        NotNull(idx, level - 1, below, a + i - 1);
      }
      EndPasses(idx, level, blks, below, found, k, a + i);
    }
    SliceLinked(idx, level - 1, below, a, |below|);
    assert below[a..|below|] == path;
    if path != [] {
      NotNull(idx, level - 1, below, |below| - 1);
    }
    assert WalkEnds(idx, s, path);
  }

  lemma EndPasses(idx: Index, level: nat, blks: seq<nat>, below: seq<nat>, found: seq<nat>, k: nat, i: nat)
    requires Joined(idx, level, blks, below, found) && k < |blks| && idx.pages[blks[k]].Rightmost()
    requires WalkFrom(found, |found|) <= i < |below|
    ensures var s, a := StepAt(idx, blks, k, INVALID_OFFSET), WalkFrom(found, |found|);
            var split := if i == a then s.StartSplit() else idx.pages[below[i - 1]].incompleteSplit;
            ChildFits(idx, s, below[i], split, i == a)
  {
    hide ChildFits, Place, StepAt, ChildrenSound, Downlinks, AllSound, RepeatsBound, LowKey, KindsSound, ItemsSound;
    var s, p := StepAt(idx, blks, k, INVALID_OFFSET), idx.pages[blks[k]];
    LastStepIs(idx, level, blks, below, found, k);
    var q := SoundInternal(idx, level, blks, k);
    FirstFound(idx, blks, below, found);
    NotNull(idx, level - 1, below, found[|found| - 1]);
    NotNull(idx, level - 1, below, i);
    RepeatsAt(idx, level, blks, below, found, k, |p.items|, i);
    Between(idx, level, blks, below, found, |found|, i);
    assert Separator(s, below[i]) == None;
    OnTheWay(idx, level, below, found, s, |found|, i, None);
  }

  // ---------------------------------------------------------------- sound pages pass

  /** What is wanted of the level below, if there is one. */
  ghost predicate BelowFits(idx: Index, level: nat, blks: seq<nat>, below: seq<nat>, found: seq<nat>)
  {
    && AllSound(idx, level, blks) && AllLive(idx, blks)
    && (level > 0 ==> Joined(idx, level, blks, below, found))
  }

  lemma SoundOffset(idx: Index, level: nat, blks: seq<nat>, below: seq<nat>, found: seq<nat>, k: nat, off: nat)
    requires BelowFits(idx, level, blks, below, found) && k < |blks| && idx.pages[blks[k]].Data(off)
    ensures OffsetPass(idx, idx.pages[blks[k]], LowKey(idx, blks[..k]), LevelCursor(idx, blks[..k]), off)
  {
    hide LevelCursor, LowKey, CanWalk, RightPass, ItemPass, NattsOk, ChildAbove, Joined, AllSound, Loads;
    SoundKind(idx, level, blks, k, off);
    var p := idx.pages[blks[k]];
    if p.Real(off) {
      SoundReal(idx, level, blks, k, off);
    }
    if !p.leaf {
      DownlinkWalks(idx, level, blks, below, found, k, off);
      if p.Real(off) {
        SoundBound(idx, level, blks, below, found, k, off);
      }
    }
  }

  lemma SoundKind(idx: Index, level: nat, blks: seq<nat>, k: nat, off: nat)
    requires AllSound(idx, level, blks) && AllLive(idx, blks) && k < |blks| && idx.pages[blks[k]].Data(off)
    ensures NattsOk(idx.pages[blks[k]], off, idx.nkeyatts)
    ensures idx.pages[blks[k]].leaf <==> level == 0
  {
    hide NattsOk, AcrossSound, ItemsSound, GoodPivot, GoodRow;
    assert PageSound(idx, level, blks, k);
    NattsKinds(idx.pages[blks[k]], off, idx.nkeyatts);
  }

  lemma SoundReal(idx: Index, level: nat, blks: seq<nat>, k: nat, off: nat)
    requires AllSound(idx, level, blks) && AllLive(idx, blks) && k < |blks| && idx.pages[blks[k]].Real(off)
    ensures var p := idx.pages[blks[k]]; ItemPass(p, off) && (off == |p.items| ==> RightPass(idx, p))
  {
    hide RightPass, ItemPass, LessFrom, AcrossSound, Sane, GoodPivot, GoodRow;
    var p := idx.pages[blks[k]];
    assert PageSound(idx, level, blks, k);
    ItemPasses(p, off, idx.nkeyatts);
    if off == |p.items| {
      if k < |blks| - 1 {
        assert PageSound(idx, level, blks, k + 1);
        SoundLoads(idx, level, blks, k + 1);
        RightPasses(idx, p);
      } else {
        LastPasses(idx, p);
      }
    }
  }

  lemma LastPasses(idx: Index, p: Page)
    requires p.Rightmost() && |p.items| > 0
    ensures RightPass(idx, p)
  {
  }

  lemma SoundBound(idx: Index, level: nat, blks: seq<nat>, below: seq<nat>, found: seq<nat>, k: nat, off: nat)
    requires Joined(idx, level, blks, below, found) && k < |blks| && idx.pages[blks[k]].Real(off)
    ensures var t := idx.pages[blks[k]].Item(off); Loads(idx, t.link) && ChildAbove(idx, t, t.link)
  {
    hide LessFrom, ChildAbove, Downlinks, AcrossSound, ItemsSound, Place, GoodRow, Sane, RepeatsBound;
    var p := idx.pages[blks[k]];
    assert PageSound(idx, level, blks, k) && p.Data(off);
    StepStarts(idx, level, blks, below, found, k, off);
    var j := Place(idx, blks, k, off);
    assert PageSound(idx, level - 1, below, found[j]);
    SoundLoads(idx, level - 1, below, found[j]);
    assert ChildSound(idx, p, off, below, found[j], GroupEnd(found, j, |below|));
    ChildAboveIs(idx, p.Item(off), p.Item(off).link);
  }

  lemma SoundPagePass(idx: Index, level: nat, blks: seq<nat>, below: seq<nat>, found: seq<nat>, k: nat)
    requires BelowFits(idx, level, blks, below, found) && k < |blks|
    ensures PagePass(idx, idx.pages[blks[k]], LowKey(idx, blks[..k]), LevelCursor(idx, blks[..k]))
  {
    hide LevelCursor, LowKey, CanWalk, OffsetPass, NattsOk, Joined, AcrossSound, ItemsSound;
    var p := idx.pages[blks[k]];
    assert PageSound(idx, level, blks, k);
    if !p.Rightmost() {
      NattsKinds(p, P_HIKEY, idx.nkeyatts);
    }
    forall off | p.Data(off) ensures OffsetPass(idx, p, LowKey(idx, blks[..k]), LevelCursor(idx, blks[..k]), off) {
      SoundOffset(idx, level, blks, below, found, k, off);
    }
    if !p.leaf && p.Rightmost() {
      EndWalks(idx, level, blks, below, found, k);
    }
  }

  lemma {:induction false} SoundVisits(idx: Index, start: LevelStart, blks: seq<nat>, below: seq<nat>,
                                       found: seq<nat>, k: nat)
    requires LevelSound(idx, start, blks) && BelowFits(idx, start.level, blks, below, found) && k <= |blks|
    ensures Visits(idx, start, blks[..k])
    decreases k
  {
    hide PagePass, KindsSound, ItemsSound, AcrossSound, Sane, Joined;
    if k > 0 {
      var i := k - 1;
      SoundVisits(idx, start, blks, below, found, i);
      assert PageSound(idx, start.level, blks, i);
      SoundLoads(idx, start.level, blks, i);
      SoundPagePass(idx, start.level, blks, below, found, i);
      if i > 0 {
        NoPageTwice(idx, start.level, blks, i - 1, i);
        NotNull(idx, start.level, blks, i - 1);
        assert LeftOf(blks[..i]) == blks[i - 1];
        assert blks[..i][0] == blks[0];
      }
      assert blks[..k] == blks[..i] + [blks[i]];
      VisitsMore(idx, start, blks[..i], blks[i]);
    }
  }

  lemma SoundLevelPass(idx: Index, start: LevelStart, blks: seq<nat>, below: seq<nat>, found: seq<nat>)
    requires LevelSound(idx, start, blks) && BelowFits(idx, start.level, blks, below, found)
    ensures LevelPass(idx, start, blks)
  {
    hide Visits, KindsSound, ItemsSound, AcrossSound, Joined;
    SoundVisits(idx, start, blks, below, found, |blks|);
    assert blks[..|blks|] == blks;
    NotNull(idx, start.level, blks, |blks| - 1);
  }

  ghost predicate LevelsLive(idx: Index, levels: seq<seq<nat>>)
  {
    forall d :: 0 <= d < |levels| ==> AllLive(idx, levels[d])
  }

  /** A sound index of live pages passes, also when splits are not complete. */
  lemma {:induction false} SoundPasses(idx: Index, start: LevelStart, levels: seq<seq<nat>>)
    requires Sound(idx, start, levels) && LevelsLive(idx, levels)
    ensures start.leftmost != P_NONE && IndexPass(idx, start, levels)
    decreases |levels|
  {
    hide LevelPass, KindsSound, ItemsSound, AcrossSound, Followed, ChildrenSound;
    var blks := levels[0];
    assert PageSound(idx, start.level, blks, 0);
    var p := idx.pages[blks[0]];
    if start.level == 0 {
      SoundLevelPass(idx, start, blks, [], []);
      assert levels[1..] == [];
    } else {
      var next, below := LevelStart(start.level - 1, levels[1][0], false), levels[1];
      assert levels[1..][0] == below;
      assert forall d :: 0 <= d < |levels[1..]| ==> levels[1..][d] == levels[d + 1];
      SoundPasses(idx, next, levels[1..]);
      assert AllSound(idx, next.level, below);
      var found :| Followed(idx, blks, below, found) && ChildrenSound(idx, blks, below, found);
      SoundLevelPass(idx, start, blks, below, found);
      FirstOfBelow(idx, start.level, blks, below, found);
    }
  }

  lemma FirstOfBelow(idx: Index, level: nat, blks: seq<nat>, below: seq<nat>, found: seq<nat>)
    requires blks != [] && Joint(idx, level, blks, below, found)
    ensures below != [] && NextLevel(idx, blks) == Some(LevelStart(level - 1, below[0], false))
  {
    hide KindsSound, ItemsSound, Downlinks, ChildrenSound;
    var p := SoundInternal(idx, level, blks, 0);
    FirstDownlinkIsFirst(idx, blks);
  }
}
