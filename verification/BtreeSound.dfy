/** What a sound index is, said by the order of keys and the links between pages. */
module BtreeSound {
  import opened Wrappers
  import opened BtreeKey
  import opened BtreePage
  import opened BtreeLevel
  import opened BtreeChainTheorems
  import opened BtreeIndexTheorems
  import opened BtreeOrderTheorems

  // ---------------------------------------------------------------- kinds of items

  /** A separator or a high key: some attributes, and a heap TID only behind all of them. */
  predicate GoodPivot(t: Tuple, n: nat) { t.pivot && Regular(t, n) && t.atts != [] }

  /** A row: all attributes and a heap TID. */
  predicate GoodRow(t: Tuple, n: nat) { !t.pivot && |t.atts| == n && t.tid.Some? }

  /** The number of attributes is right just when the item is of the kind that its place asks for. */
  lemma NattsKinds(p: Page, off: nat, n: nat)
    requires p.Has(off) && !p.Ignore()
    ensures p.NegInf(off) ==> (NattsOk(p, off, n) <==> p.Item(off).atts == [])
    ensures p.leaf && p.Data(off) ==> (NattsOk(p, off, n) && p.Item(off).tid.Some? <==> GoodRow(p.Item(off), n))
    ensures !p.leaf && p.Real(off) ==> (NattsOk(p, off, n) <==> GoodPivot(p.Item(off), n))
    ensures !p.Rightmost() && off == P_HIKEY ==> (NattsOk(p, off, n) <==> GoodPivot(p.Item(off), n))
  {
  }

  // ---------------------------------------------------------------- one page

  /** Every item is of the kind that its place asks for. */
  ghost predicate KindsSound(p: Page, n: nat)
  {
    && (!p.Rightmost() ==> p.Has(P_HIKEY) && GoodPivot(p.Item(P_HIKEY), n))
    && (!p.leaf ==> p.Has(p.FirstDataKey()) && p.Item(p.FirstDataKey()).atts == [])
    && forall off: nat :: p.Real(off) ==> if p.leaf then GoodRow(p.Item(off), n) else GoodPivot(p.Item(off), n)
  }

  /** The items increase, up to the high key: rows may equal it, separators lie below. */
  ghost predicate ItemsSound(p: Page, n: nat)
  {
    && (forall off: nat :: p.Real(off) && off < |p.items| ==> Less(p.Item(off), p.Item(off + 1), n))
    && (!p.Rightmost() ==> forall off: nat :: p.Real(off) && p.Has(P_HIKEY) ==>
          if p.leaf then AtMost(p.Item(off), p.Item(P_HIKEY), n) else Less(p.Item(off), p.Item(P_HIKEY), n))
  }

  /** The last item lies below the first one of the right sibling. */
  ghost predicate AcrossSound(p: Page, right: Page, n: nat)
  {
    p.Real(|p.items|) && |p.items| > 0 ==>
      forall off: nat :: FirstReal(right, off) ==> Less(p.Item(|p.items|), right.Item(off), n)
  }

  predicate FirstReal(p: Page, off: nat) { p.Real(off) && (off == 0 || !p.Real(off - 1)) }

  // ---------------------------------------------------------------- one level

  /** Block `i` of the level: its level number, its links to the left and to the right, its items. */
  ghost predicate PageSound(idx: Index, level: nat, blks: seq<nat>, i: nat)
    requires i < |blks|
  {
    && blks[i] != P_NONE && blks[i] in idx.pages
    && var p := idx.pages[blks[i]];
    && p.level == level && (p.leaf <==> level == 0)
    && p.prev == (if i == 0 then P_NONE else blks[i - 1])
    && p.next == (if i == |blks| - 1 then P_NONE else blks[i + 1])
    && KindsSound(p, idx.nkeyatts) && ItemsSound(p, idx.nkeyatts)
    && (i < |blks| - 1 && blks[i + 1] in idx.pages ==> AcrossSound(p, idx.pages[blks[i + 1]], idx.nkeyatts))
  }

  ghost predicate LevelSound(idx: Index, start: LevelStart, blks: seq<nat>)
  {
    && blks != [] && blks[0] == start.leftmost
    && (forall i :: 0 <= i < |blks| ==> PageSound(idx, start.level, blks, i))
    && (start.istrueroot ==> blks[0] in idx.pages && idx.pages[blks[0]].root)
  }

  /** The downlinks of a level lead to the pages of the next at places `found`, in order and from its
      first page on. A page without a downlink is the right half of a split that is not complete. */
  ghost predicate Followed(idx: Index, blks: seq<nat>, below: seq<nat>, found: seq<nat>)
  {
    && |found| == |Downlinks(idx, blks)| > 0 && found[0] == 0
    && (forall j :: 0 <= j < |found| ==> found[j] < |below| && below[found[j]] == Downlinks(idx, blks)[j])
    && (forall j, k :: 0 <= j < k < |found| ==> found[j] < found[k])
    && (forall i: nat :: i < |below| && i !in found ==>
          i > 0 && below[i - 1] in idx.pages && idx.pages[below[i - 1]].incompleteSplit)
  }

  /** Where the pages that follow downlink `j` end: at the next one with a downlink. */
  function GroupEnd(found: seq<nat>, j: nat, n: nat): nat { if j + 1 < |found| then found[j + 1] else n }

  /** The high key of a page repeats the bound, its link aside, unless the page is the last one of its
      level or its split is not complete. */
  predicate RepeatsBound(p: Page, last: bool, bound: Option<Tuple>)
  {
    p.incompleteSplit || last ||
    (p.Has(P_HIKEY) && bound.Some? && p.Item(P_HIKEY).(link := bound.value.link) == bound.value)
  }

  /** The items of a child lie above the separator of its downlink. The high keys of the child, and of
      pages behind it that have no downlink, repeat the separator that follows. */
  ghost predicate ChildSound(idx: Index, p: Page, off: nat, below: seq<nat>, from: nat, to: nat)
    requires p.Data(off)
  {
    && p.Item(off).link in idx.pages
    && (p.Real(off) ==>
          forall o: nat :: idx.pages[p.Item(off).link].Real(o) ==>
            Less(p.Item(off), idx.pages[p.Item(off).link].Item(o), idx.nkeyatts))
    && forall i :: from <= i < to && i < |below| && below[i] in idx.pages ==>
         RepeatsBound(idx.pages[below[i]], i == |below| - 1, UpperBound(p, off))
  }

  ghost predicate ChildrenSound(idx: Index, blks: seq<nat>, below: seq<nat>, found: seq<nat>)
  {
    forall k: nat, off: nat :: k < |blks| && blks[k] in idx.pages && idx.pages[blks[k]].Data(off) ==>
      var j := Place(idx, blks, k, off);
      0 <= j < |found| && ChildSound(idx, idx.pages[blks[k]], off, below, found[j], GroupEnd(found, j, |below|))
  }

  ghost predicate BelowSound(idx: Index, blks: seq<nat>, below: seq<nat>)
  {
    exists found :: Followed(idx, blks, below, found) && ChildrenSound(idx, blks, below, found)
  }

  /** `levels` are the levels of a sound index from `start` down: each level is sound, and its
      downlinks lead to the pages of the next. */
  ghost predicate Sound(idx: Index, start: LevelStart, levels: seq<seq<nat>>)
    decreases |levels|
  {
    && levels != [] && LevelSound(idx, start, levels[0])
    && if start.level == 0 then |levels| == 1
       else
         && |levels| > 1 && levels[1] != [] && BelowSound(idx, levels[0], levels[1])
         && Sound(idx, LevelStart(start.level - 1, levels[1][0], false), levels[1..])
  }

  // ---------------------------------------------------------------- a sound page passes

  lemma SoundItem(p: Page, off: nat, n: nat)
    requires KindsSound(p, n) && p.Real(off)
    ensures Regular(p.Item(off), n)
  {
  }

  /** For an item of the right kind the first test is strict order. */
  lemma StrictIsLess(key: Tuple, p: Page, off: nat, n: nat)
    requires p.Has(off) && !p.NegInf(off) && Regular(key, n)
    requires if p.leaf && off >= p.FirstDataKey() then GoodRow(p.Item(off), n) else GoodPivot(p.Item(off), n)
    ensures InvariantL(key, p, off) <==> Less(key, p.Item(off), n)
  {
    hide LessFrom, Compare;
    InvariantsAreOrder(key, p, off, n);
    CompareIsOrder(key, p.Item(off), n);
  }

  lemma ItemPasses(p: Page, off: nat, n: nat)
    requires KindsSound(p, n) && p.Real(off)
    ensures ItemPass(p, off) <==>
            && (off < |p.items| ==> Less(p.Item(off), p.Item(off + 1), n))
            && (!p.Rightmost() ==> if p.leaf then AtMost(p.Item(off), p.Item(P_HIKEY), n)
                                   else Less(p.Item(off), p.Item(P_HIKEY), n))
  {
    hide LessFrom, InvariantL, Compare;
    SoundItem(p, off, n);
    if off < |p.items| {
      assert p.Real(off + 1);
      StrictIsLess(p.Item(off), p, off + 1, n);
    }
    if !p.Rightmost() {
      StrictIsLess(p.Item(off), p, P_HIKEY, n);
      InvariantsAreOrder(p.Item(off), p, P_HIKEY, n);
    }
  }

  lemma ChildAboveIs(idx: Index, key: Tuple, blk: nat)
    requires blk in idx.pages && KindsSound(idx.pages[blk], idx.nkeyatts) && !idx.pages[blk].deleted
    requires Regular(key, idx.nkeyatts)
    ensures ChildAbove(idx, key, blk) <==>
            forall o: nat :: idx.pages[blk].Real(o) ==> Less(key, idx.pages[blk].Item(o), idx.nkeyatts)
  {
    hide LessFrom, InvariantL;
    var p := idx.pages[blk];
    forall o | p.Real(o) ensures InvariantL(key, p, o) <==> Less(key, p.Item(o), idx.nkeyatts) {
      StrictIsLess(key, p, o, idx.nkeyatts);
    }
  }

  /** The test against the right sibling, when that is live. */
  lemma RightPasses(idx: Index, p: Page)
    requires !p.Rightmost() && p.Real(|p.items|) && |p.items| > 0 && KindsSound(p, idx.nkeyatts)
    requires Loads(idx, p.next) && !idx.pages[p.next].Ignore() && KindsSound(idx.pages[p.next], idx.nkeyatts)
    ensures RightPass(idx, p) <==> AcrossSound(p, idx.pages[p.next], idx.nkeyatts)
  {
    hide LessFrom, Sane, Compare;
    var right := idx.pages[p.next];
    assert Lands(idx, p.next, [p.next]);
    forall path | Lands(idx, p.next, path) ensures path == [p.next] {
      LandsHere(idx, p.next, path);
    }
    BelowFirstIs(p, right, idx.nkeyatts);
    assert [p.next][|[p.next]| - 1] == p.next;
  }

  lemma LandsHere(idx: Index, blk: nat, path: seq<nat>)
    requires Lands(idx, blk, path) && !Passable(idx.pages[blk])
    ensures path == [blk]
  {
    hide RightLinked;
  }

  lemma BelowFirstIs(p: Page, right: Page, n: nat)
    requires p.Real(|p.items|) && |p.items| > 0 && KindsSound(p, n) && KindsSound(right, n)
    ensures BelowFirst(p, right) <==> AcrossSound(p, right, n)
  {
    hide LessFrom, Compare;
    var off := if right.leaf then right.FirstDataKey() else right.FirstDataKey() + 1;
    assert forall o: nat :: FirstReal(right, o) ==> o == off;
    if right.Has(off) {
      assert FirstReal(right, off);
      SoundItem(right, off, n);
      SoundItem(p, |p.items|, n);
      InvariantsAreOrder(right.Item(off), p, |p.items|, n);
    }
  }
}
