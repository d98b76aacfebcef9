/** What it means for a page, a level and an index to pass verification, stated without
    the verifier's running state. */
module BtreeLevel {
  import opened Wrappers
  import opened BtreeKey
  import opened BtreePage

  /** Block zero is the meta page, not a page of the tree. */
  predicate WellFormed(idx: Index)
  {
    P_NONE !in idx.pages
  }

  // ------------------------------------------------------------ one page

  /** A real item against the page's high key and the item to its right. */
  predicate ItemPass(p: Page, off: nat)
    requires p.Real(off)
  {
    && (p.Rightmost() || if p.leaf then InvariantLeq(p.Item(off), p, P_HIKEY) else InvariantL(p.Item(off), p, P_HIKEY))
    && (off < |p.items| ==> InvariantL(p.Item(off), p, off + 1))
  }

  /** `path` goes right over ignorable pages to the page where the next item is looked up. */
  ghost predicate Lands(idx: Index, blk: nat, path: seq<nat>)
  {
    && |path| > 0 && path[0] == blk
    && RightLinked(idx, path)
    && (forall i :: 0 <= i < |path| ==> Loads(idx, path[i]))
    && (forall i :: 0 <= i < |path| - 1 ==> Passable(idx.pages[path[i]]))
    && !Passable(idx.pages[path[|path| - 1]])
  }

  predicate Passable(p: Page) { p.Ignore() && !p.Rightmost() }

  /** The first item of a page that has a key. */
  function FirstKey(p: Page): Option<Tuple>
  {
    var off := if p.leaf then p.FirstDataKey() else p.FirstDataKey() + 1;
    if p.Has(off) then Some(p.Item(off)) else None
  }

  /** The last item of the page is below the first one to its right. */
  ghost predicate RightPass(idx: Index, p: Page)
    requires |p.items| > 0
  {
    p.Rightmost() || exists path :: Lands(idx, p.next, path) && BelowFirst(p, idx.pages[path[|path| - 1]])
  }

  predicate BelowFirst(p: Page, right: Page)
    requires |p.items| > 0
  {
    FirstKey(right).Some? ==> InvariantG(FirstKey(right).value, p, |p.items|)
  }

  /** State of the walk of the child level. */
  datatype Cursor = Cursor(prevright: Option<nat>, prevsplit: bool)

  const Outset := Cursor(None, false)

  function CursorAfter(idx: Index, downlink: nat): Cursor
  {
    if downlink == P_NONE then Outset
    else Cursor(Some(NextOf(idx, downlink)), downlink in idx.pages && idx.pages[downlink].incompleteSplit)
  }

  /** The cursor when the downlink at `off` is reached, given that at the start of the page. */
  function CursorAt(idx: Index, p: Page, c: Cursor, off: nat): Cursor
    requires off >= 1 && off <= |p.items| + 1
  {
    if off <= p.FirstDataKey() then c else CursorAfter(idx, p.Item(off - 1).link)
  }

  function StepOf(idx: Index, p: Page, lowkey: Option<Tuple>, c: Cursor, off: nat): (s: Step)
    requires off == INVALID_OFFSET || p.Has(off)
    ensures s.Valid()
  {
    var k := CursorAt(idx, p, c, if off == INVALID_OFFSET then |p.items| + 1 else off);
    Step(p, off, lowkey, k.prevright, k.prevsplit)
  }

  ghost predicate CanWalk(idx: Index, s: Step)
    requires s.Valid()
  {
    exists path :: WalkEnds(idx, s, path)
  }

  /** A downlink: its child is reached on the child level, and lies above its separator. */
  ghost predicate DownlinkPass(idx: Index, p: Page, lowkey: Option<Tuple>, c: Cursor, off: nat)
    requires p.Data(off)
  {
    && CanWalk(idx, StepOf(idx, p, lowkey, c, off))
    && (p.Real(off) ==> Loads(idx, p.Item(off).link) && ChildAbove(idx, p.Item(off), p.Item(off).link))
  }

  /** All that is checked about one item. */
  ghost predicate OffsetPass(idx: Index, p: Page, lowkey: Option<Tuple>, c: Cursor, off: nat)
    requires p.Data(off)
  {
    && NattsOk(p, off, idx.nkeyatts)
    && (p.Real(off) ==> ItemPass(p, off) && (off == |p.items| ==> RightPass(idx, p)))
    && (!p.leaf ==> DownlinkPass(idx, p, lowkey, c, off))
  }

  ghost predicate PagePass(idx: Index, p: Page, lowkey: Option<Tuple>, c: Cursor)
  {
    && (!p.Rightmost() ==> p.Has(P_HIKEY) && NattsOk(p, P_HIKEY, idx.nkeyatts))
    && (forall off :: p.Data(off) ==> OffsetPass(idx, p, lowkey, c, off))
    && (!p.leaf && p.Rightmost() ==> CanWalk(idx, StepOf(idx, p, lowkey, c, INVALID_OFFSET)))
  }

  // ------------------------------------------------------------ one level

  datatype LevelStart = LevelStart(level: nat, leftmost: nat, istrueroot: bool)

  // The pages `before` are those of the level that lie left of the page under check.

  /** The high key of the left sibling. */
  function LowKey(idx: Index, before: seq<nat>): Option<Tuple>
  {
    if before == [] || LeftOf(before) !in idx.pages then None
    else
      var p := idx.pages[LeftOf(before)];
      if p.Rightmost() || !p.Has(P_HIKEY) then None else Some(p.Item(P_HIKEY))
  }

  /** The cursor on the child level: behind the last downlink of the last live internal
      page. */
  function LevelCursor(idx: Index, before: seq<nat>): Cursor
  {
    if before == [] || LeftOf(before) !in idx.pages then Outset
    else
      var p := idx.pages[LeftOf(before)];
      if p.Ignore() || p.leaf || |p.items| == 0 then LevelCursor(idx, before[..|before| - 1])
      else if p.Rightmost() then Outset
      else CursorAfter(idx, p.Item(|p.items|).link)
  }

  function LeftOf(before: seq<nat>): nat
  {
    if before == [] then P_NONE else before[|before| - 1]
  }

  predicate NoneLive(idx: Index, before: seq<nat>)
  {
    forall j :: 0 <= j < |before| ==> before[j] in idx.pages && idx.pages[before[j]].Ignore()
  }

  ghost predicate LivePass(idx: Index, start: LevelStart, before: seq<nat>, p: Page)
  {
    && (NoneLive(idx, before) ==> p.Leftmost() && (start.istrueroot ==> p.root))
    && p.prev == LeftOf(before)
    && p.level == start.level
    && PagePass(idx, p, LowKey(idx, before), LevelCursor(idx, before))
  }

  ghost predicate VisitPass(idx: Index, start: LevelStart, before: seq<nat>, blk: nat)
  {
    && blk != P_NONE && Loads(idx, blk)
    && var p := idx.pages[blk];
    && (if p.Ignore() then !p.deleted && !p.Rightmost() else LivePass(idx, start, before, p))
    && blk != LeftOf(before) && blk != p.prev
  }

  /** The block that comes after the pages visited. */
  function Upcoming(idx: Index, start: LevelStart, visited: seq<nat>): nat
  {
    if visited == [] then start.leftmost else NextOf(idx, LeftOf(visited))
  }

  /** `visited` are the pages of a level, each the right sibling of the one before, as far
      as they have been walked and have passed. */
  ghost predicate Visits(idx: Index, start: LevelStart, visited: seq<nat>)
  {
    visited == [] ||
    (var before, blk := visited[..|visited| - 1], LeftOf(visited);
     Visits(idx, start, before) && blk == Upcoming(idx, start, before) && VisitPass(idx, start, before, blk))
  }

  lemma VisitsMore(idx: Index, start: LevelStart, visited: seq<nat>, blk: nat)
    requires Visits(idx, start, visited) && blk == Upcoming(idx, start, visited)
    requires VisitPass(idx, start, visited, blk)
    ensures Visits(idx, start, visited + [blk])
  {
    assert (visited + [blk])[..|visited|] == visited;
  }

  lemma {:induction false} VisitAt(idx: Index, start: LevelStart, visited: seq<nat>, i: nat)
    requires Visits(idx, start, visited) && i < |visited|
    ensures VisitPass(idx, start, visited[..i], visited[i])
    ensures visited[i] == Upcoming(idx, start, visited[..i])
    ensures Visits(idx, start, visited[..i])
    decreases |visited|
  {
    var init := visited[..|visited| - 1];
    if i < |init| {
      VisitAt(idx, start, init, i);
      assert init[..i] == visited[..i];
    } else {
      assert visited[..i] == init;
    }
  }

  ghost predicate LevelPass(idx: Index, start: LevelStart, visited: seq<nat>)
  {
    Visits(idx, start, visited) && |visited| > 0 && NextOf(idx, visited[|visited| - 1]) == P_NONE
  }

  /** Where the next level starts: at the first downlink of the first live page; a leaf
      level is the last one. None when the level has no live page. */
  function NextLevel(idx: Index, visited: seq<nat>): Option<LevelStart>
  {
    if visited == [] then None
    else if visited[0] !in idx.pages then None
    else
      var p := idx.pages[visited[0]];
      if p.Ignore() then NextLevel(idx, visited[1..])
      else if p.leaf || !p.Has(p.FirstDataKey()) || p.level == 0 then Some(LevelStart(0, P_NONE, false))
      else Some(LevelStart(p.level - 1, FirstDownlink(p), false))
  }

  // ------------------------------------------------------------ the index

  /** `levels` are the walks of all levels from `start` down to the leaves. */
  ghost predicate IndexPass(idx: Index, start: LevelStart, levels: seq<seq<nat>>)
    decreases |levels|
  {
    if start.leftmost == P_NONE then levels == []
    else
      && |levels| > 0 && LevelPass(idx, start, levels[0])
      && NextLevel(idx, levels[0]).Some?
      && IndexPass(idx, NextLevel(idx, levels[0]).value, levels[1..])
  }

  ghost predicate IndexAccepted(idx: Index, start: LevelStart)
  {
    exists levels :: IndexPass(idx, start, levels)
  }
}
