/** Pages of a B-tree index and the local conditions that its verifier tests. */
module BtreePage {
  import opened Wrappers
  import opened BtreeKey

  const P_NONE: nat := 0
  const P_HIKEY: nat := 1
  const INVALID_OFFSET: nat := 0

  /** A page: sibling links, level, flags and items. Offsets count from one; a page that
      has a right sibling keeps its high key as first item. */
  datatype Page = Page(prev: nat, next: nat, level: nat, leaf: bool, root: bool, deleted: bool, halfDead: bool,
                       incompleteSplit: bool, items: seq<Tuple>)
  {
    predicate Rightmost() { next == P_NONE }

    predicate Leftmost() { prev == P_NONE }

    predicate Ignore() { deleted || halfDead }

    function FirstDataKey(): nat { if Rightmost() then 1 else 2 }

    predicate Has(off: nat) { 1 <= off <= |items| }

    function Item(off: nat): Tuple
      requires Has(off)
    {
      items[off - 1]
    }

    /** The first data item of an internal page stands for minus infinity. */
    predicate NegInf(off: nat) { !leaf && off == FirstDataKey() }

    /** Offsets of data items that have a key. */
    predicate Real(off: nat) { FirstDataKey() <= off <= |items| && !NegInf(off) }

    /** Offsets of data items. */
    predicate Data(off: nat) { FirstDataKey() <= off <= |items| }
  }

  datatype Index = Index(pages: map<nat, Page>, nkeyatts: nat)

  /** The sanity checks made whenever a page is read. */
  predicate Sane(p: Page)
  {
    && (!p.deleted ==> (p.leaf <==> p.level == 0))
    && (!p.leaf && !p.deleted ==> p.Has(p.FirstDataKey()))
    && (p.leaf && !p.deleted && !p.Rightmost() ==> p.Has(P_HIKEY))
    && (!p.leaf ==> !p.halfDead)
  }

  predicate Loads(idx: Index, blk: nat)
  {
    blk in idx.pages && Sane(idx.pages[blk])
  }

  /** _bt_check_natts: how many attributes each kind of item may have. */
  predicate NattsOk(p: Page, off: nat, n: nat)
    requires p.Has(off)
  {
    var t := p.Item(off);
    if p.Ignore() then true
    else if p.leaf && off >= p.FirstDataKey() then !t.pivot && |t.atts| == n
    else if p.NegInf(off) then |t.atts| == 0
    else t.pivot && (t.tid.Some? ==> |t.atts| == n) && 0 < |t.atts| <= n
  }

  // ------------------------------------------------------------ order tests

  /** Items on leaf pages other than the high key must be plain tuples with a heap TID,
      all others pivot tuples. */
  predicate Careful(p: Page, off: nat)
    requires p.Has(off)
  {
    var t := p.Item(off);
    if p.leaf && off >= p.FirstDataKey() then !t.pivot && t.tid.Some? else t.pivot
  }

  /** Is the key strictly below the item? The comparison itself cannot tell when it is
      decided by an attribute that the key lacks, so that case is made up for. */
  predicate InvariantL(key: Tuple, p: Page, off: nat)
    requires p.Has(off)
  {
    var t := p.Item(off);
    if p.NegInf(off) then false
    else if Compare(key, t) == 0 then
      && Careful(p, off)
      && if |key.atts| == |t.atts| then key.tid.None? && t.tid.Some? else |key.atts| < |t.atts|
    else Compare(key, t) < 0
  }

  predicate InvariantLeq(key: Tuple, p: Page, off: nat)
    requires p.Has(off)
  {
    !p.NegInf(off) && Compare(key, p.Item(off)) <= 0
  }

  predicate InvariantG(key: Tuple, p: Page, off: nat)
    requires p.Has(off)
  {
    p.NegInf(off) || Compare(key, p.Item(off)) > 0
  }

  /** The three tests are the order on keys in which what is missing is minus infinity. */
  lemma InvariantsAreOrder(key: Tuple, p: Page, off: nat, n: nat)
    requires p.Has(off) && !p.NegInf(off)
    requires Regular(key, n) && Regular(p.Item(off), n)
    ensures InvariantL(key, p, off) ==> Less(key, p.Item(off), n)
    ensures Less(key, p.Item(off), n) && Careful(p, off) ==> InvariantL(key, p, off)
    ensures InvariantLeq(key, p, off) <==> AtMost(key, p.Item(off), n)
    ensures InvariantG(key, p, off) <==> Less(p.Item(off), key, n)
  {
    CompareIsOrder(key, p.Item(off), n);
    LessTransitive(key, p.Item(off), key, n, 0);
  }

  lemma NattsRegular(p: Page, off: nat, n: nat)
    requires p.Has(off) && NattsOk(p, off, n) && !p.Ignore() && !p.NegInf(off)
    ensures Regular(p.Item(off), n)
  {
  }

  // ------------------------------------------------------------ missing downlinks

  function FirstDownlink(p: Page): nat
    requires p.Has(p.FirstDataKey())
  {
    p.Item(p.FirstDataKey()).link
  }

  /** One level below, in the 32-bit arithmetic of level numbers. */
  function Below(level: nat): nat
  {
    (level + 0xffff_ffff) % 0x1_0000_0000
  }

  /** `d` descends from block `blk`, one level below `level`, along first downlinks to a
      half-dead leaf whose top parent is `top`. */
  ghost predicate Descends(idx: Index, top: nat, level: nat, blk: nat, d: seq<nat>)
    decreases |d|
  {
    && |d| > 0 && d[0] == blk && Loads(idx, blk)
    && var p := idx.pages[blk];
       if p.leaf then
         |d| == 1 && !p.deleted && p.halfDead && !p.Rightmost() && p.Item(P_HIKEY).link == top
       else
         && p.level == Below(level) && p.Has(p.FirstDataKey())
         && Descends(idx, top, p.level, FirstDownlink(p), d[1..])
  }

  ghost predicate Leads(idx: Index, top: nat, level: nat, blk: nat)
  {
    exists d :: Descends(idx, top, level, blk, d)
  }

  /** The internal page `top` heads an interrupted multi-level deletion. */
  ghost predicate HeadsDeletion(idx: Index, top: nat)
    requires top in idx.pages
  {
    var p := idx.pages[top];
    p.Has(p.FirstDataKey()) && Leads(idx, top, p.level, FirstDownlink(p))
  }

  /** A live page may lack a downlink if it is the root, if the split that made it is not
      complete, or if it heads an interrupted deletion. */
  ghost predicate MissingOk(idx: Index, blk: nat, rightsplit: bool)
    requires blk in idx.pages
  {
    var p := idx.pages[blk];
    p.root || rightsplit || (!p.leaf && HeadsDeletion(idx, blk))
  }

  // ------------------------------------------------------------ child level in lockstep

  /** Binary identity of pivot tuples, their block numbers aside. */
  predicate PivotIdentical(a: Tuple, b: Tuple)
  {
    a.atts == b.atts && a.tid == b.tid && a.pivot == b.pivot
  }

  /** What one step of the child walk knows: the page whose downlinks are followed, the
      offset of the downlink (or none, to finish the level), the high key of the page's
      left sibling, and where the previous step stopped. */
  datatype Step = Step(target: Page, off: nat, lowkey: Option<Tuple>, prevright: Option<nat>, prevsplit: bool)
  {
    predicate Valid() { off == INVALID_OFFSET || target.Has(off) }

    function Downlink(): nat
      requires Valid()
    {
      if off == INVALID_OFFSET then P_NONE else target.Item(off).link
    }

    function Start(): nat
      requires Valid()
    {
      if prevright.Some? then prevright.value else Downlink()
    }

    function StartSplit(): bool { prevright.Some? && prevsplit }
  }

  /** The separator that the high key of child `blk` must repeat. */
  function Separator(s: Step, blk: nat): Option<Tuple>
    requires s.Valid()
  {
    var off := if blk == s.Downlink() then s.off + 1 else s.off;
    if s.target.NegInf(off) then s.lowkey
    else if off > |s.target.items| then
      if s.target.Rightmost() || !s.target.Has(P_HIKEY) then None else Some(s.target.Item(P_HIKEY))
    else if !s.target.Has(off) then None
    else Some(s.target.Item(off))
  }

  predicate HighKeyMatches(s: Step, blk: nat, p: Page)
    requires s.Valid()
  {
    p.incompleteSplit || p.Rightmost() ||
    (p.Has(P_HIKEY) && Separator(s, blk).Some? && PivotIdentical(p.Item(P_HIKEY), Separator(s, blk).value))
  }

  /** The checks on one page of the child level. */
  ghost predicate ChildFits(idx: Index, s: Step, blk: nat, rightsplit: bool, first: bool)
    requires s.Valid()
  {
    && Loads(idx, blk)
    && var p := idx.pages[blk];
    && (first && s.prevright.None? ==> p.Leftmost())
    && (!p.Ignore() ==> p.level == s.target.level - 1)
    && !(!first && s.prevright == Some(blk)) && blk != p.prev
    && (blk != s.Downlink() && !p.Ignore() ==> MissingOk(idx, blk, rightsplit))
    && HighKeyMatches(s, blk, p)
  }

  /** `path` follows right links from where the previous step stopped, through pages that
      pass their checks, and has not met the downlink before its last page. */
  ghost predicate Walk(idx: Index, s: Step, path: seq<nat>)
    requires s.Valid()
  {
    && (|path| > 0 ==> path[0] == s.Start())
    && (forall i :: 0 <= i < |path| ==>
          path[i] != P_NONE &&
          ChildFits(idx, s, path[i], SplitBefore(idx, s, path, i), i == 0))
    && RightLinked(idx, path)
    && forall i :: 0 <= i < |path| - 1 ==> path[i] != s.Downlink()
  }

  /** Each block is the right sibling of the one before. */
  ghost predicate RightLinked(idx: Index, path: seq<nat>)
  {
    forall i, j :: 0 <= i && j == i + 1 < |path| ==> path[j] == NextOf(idx, path[i])
  }

  /** Whether the page left of `path[i]` has an incomplete split. */
  predicate SplitBefore(idx: Index, s: Step, path: seq<nat>, i: nat)
    requires i < |path|
  {
    if i == 0 then s.StartSplit() else path[i - 1] in idx.pages && idx.pages[path[i - 1]].incompleteSplit
  }

  function NextOf(idx: Index, blk: nat): nat
  {
    if blk in idx.pages then idx.pages[blk].next else P_NONE
  }

  /** The walk ends at the downlink or, when there is none, at the end of the level. */
  ghost predicate WalkEnds(idx: Index, s: Step, path: seq<nat>)
    requires s.Valid()
  {
    && Walk(idx, s, path)
    && if s.Downlink() != P_NONE then |path| > 0 && path[|path| - 1] == s.Downlink()
       else (if |path| == 0 then s.Start() else NextOf(idx, path[|path| - 1])) == P_NONE
  }

  /** Lower bound from the parent: the separator of a downlink is below all items of the
      child. */
  ghost predicate ChildAbove(idx: Index, key: Tuple, blk: nat)
    requires blk in idx.pages
  {
    var p := idx.pages[blk];
    !p.deleted && forall off :: p.Real(off) ==> InvariantL(key, p, off)
  }
}
