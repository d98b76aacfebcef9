/** The verifier: a state that moves along each level from left to right, from the root
    down, while the child level is followed in lockstep. */
module BtreeCheck {
  import opened Wrappers
  import opened BtreeKey
  import opened BtreePage
  import opened BtreeLevel
  import opened BtreeChild
  import opened BtreeFinite

  /** A walk that has not met the downlink is a prefix of every complete one. */
  lemma {:induction false} WalkIsPrefix(idx: Index, s: Step, path: seq<nat>, p: seq<nat>, n: nat)
    requires s.Valid() && Walk(idx, s, path) && WalkEnds(idx, s, p)
    requires forall i :: 0 <= i < |path| ==> path[i] != s.Downlink()
    requires n <= |path|
    ensures n <= |p| && forall i :: 0 <= i < n ==> p[i] == path[i]
    decreases n
  {
    if n > 0 {
      WalkIsPrefix(idx, s, path, p, n - 1);
      if n > 1 {
        assert path[n - 1] == NextOf(idx, path[n - 2]) && path[n - 2] == p[n - 2];
      }
    }
  }

  /** The block that comes after a walk. */
  function After(idx: Index, s: Step, path: seq<nat>): nat
    requires s.Valid()
  {
    if |path| == 0 then s.Start() else NextOf(idx, path[|path| - 1])
  }

  /** A complete walk either goes on with the block that comes next, which then passes its
      checks, or has reached the end of the level. */
  lemma WalkGoesOn(idx: Index, s: Step, path: seq<nat>, p: seq<nat>)
    requires s.Valid() && Walk(idx, s, path) && WalkEnds(idx, s, p)
    requires forall i :: 0 <= i < |path| ==> path[i] != s.Downlink()
    ensures
      var blk := After(idx, s, path);
      if blk == P_NONE then s.Downlink() == P_NONE
      else ChildFits(idx, s, blk, SplitBefore(idx, s, path + [blk], |path|), |path| == 0)
  {
    var n := |path|;
    WalkIsPrefix(idx, s, path, p, n);
    if |p| > n {
      assert p[n] == After(idx, s, path);
      assert SplitBefore(idx, s, p, n) == SplitBefore(idx, s, path + [p[n]], n);
    } else {
      assert p == path;
    }
  }

  /** No complete walk passes a page that fails its checks, or the end of the level when a
      downlink is still to be met. */
  lemma WalkStops(idx: Index, s: Step, path: seq<nat>, blk: nat)
    requires s.Valid() && Walk(idx, s, path)
    requires forall i :: 0 <= i < |path| ==> path[i] != s.Downlink()
    requires blk == After(idx, s, path)
    requires if blk == P_NONE then s.Downlink() != P_NONE
             else !ChildFits(idx, s, blk, SplitBefore(idx, s, path + [blk], |path|), |path| == 0)
    ensures forall p :: !WalkEnds(idx, s, p)
  {
    forall p | WalkEnds(idx, s, p) ensures false {
      WalkGoesOn(idx, s, path, p);
    }
  }

  /** Nor is a walk complete after as many pages as the index has. */
  lemma WalkTooLong(idx: Index, s: Step, path: seq<nat>)
    requires s.Valid() && Walk(idx, s, path) && |path| > |idx.pages|
    requires forall i :: 0 <= i < |path| ==> path[i] != s.Downlink()
    ensures forall p :: !WalkEnds(idx, s, p)
  {
    hide Walk, WalkEnds;
    forall p ensures !WalkEnds(idx, s, p) {
      if WalkEnds(idx, s, p) {
        WalkIsPrefix(idx, s, path, p, |path|);
        WalkBound(idx, s, p);
      }
    }
  }

  lemma LandsSame(idx: Index, blk: nat, path: seq<nat>, p: seq<nat>)
    requires Lands(idx, blk, path) && Lands(idx, blk, p)
    ensures p == path
  {
    LandsNext(idx, blk, path[..|path| - 1], p);
    assert path[..|path| - 1] + [path[|path| - 1]] == path;
  }

  /** A level that passes contains every walk that has come so far. */
  lemma {:induction false} LevelPrefix(idx: Index, start: LevelStart, visited: seq<nat>, w: seq<nat>)
    requires Visits(idx, start, visited) && LevelPass(idx, start, w)
    ensures |visited| <= |w| && w[..|visited|] == visited
    decreases |visited|
  {
    hide PagePass;
    if visited != [] {
      var n := |visited| - 1;
      LevelPrefix(idx, start, visited[..n], w);
      if n < |w| {
        VisitAt(idx, start, w, n);
        assert w[..n + 1] == w[..n] + [w[n]] && visited == visited[..n] + [visited[n]];
      }
    }
  }

  lemma LevelGoesOn(idx: Index, start: LevelStart, visited: seq<nat>, blk: nat, w: seq<nat>)
    requires Visits(idx, start, visited) && blk != P_NONE && LevelPass(idx, start, w)
    requires blk == Upcoming(idx, start, visited)
    ensures VisitPass(idx, start, visited, blk)
  {
    LevelPrefix(idx, start, visited, w);
    if |visited| < |w| {
      VisitAt(idx, start, w, |visited|);
    }
  }

  /** If the next block fails its checks, the level does not pass. */
  lemma LevelStops(idx: Index, start: LevelStart, visited: seq<nat>, blk: nat)
    requires Visits(idx, start, visited) && blk != P_NONE
    requires blk == Upcoming(idx, start, visited)
    requires !VisitPass(idx, start, visited, blk)
    ensures forall w :: !LevelPass(idx, start, w)
  {
    forall w | LevelPass(idx, start, w) ensures false {
      LevelGoesOn(idx, start, visited, blk, w);
    }
  }

  /** Nor does a level pass that has been walked for as many pages as the index has, and goes on. */
  lemma LevelTooLong(idx: Index, start: LevelStart, visited: seq<nat>)
    requires Visits(idx, start, visited) && |visited| > |idx.pages|
    ensures forall w :: !LevelPass(idx, start, w)
  {
    hide Visits, LevelPass;
    forall w ensures !LevelPass(idx, start, w) {
      if LevelPass(idx, start, w) {
        LevelPrefix(idx, start, visited, w);
        LevelBound(idx, start, w);
      }
    }
  }

  lemma LevelUnique(idx: Index, start: LevelStart, v: seq<nat>, w: seq<nat>)
    requires LevelPass(idx, start, v) && LevelPass(idx, start, w)
    ensures v == w
  {
    LevelPrefix(idx, start, v, w);
    LevelPrefix(idx, start, w, v);
    assert w[..|w|] == w;
  }

  /** An index passes from a level on if the level passes and the index does from the next. */
  lemma IndexStep(idx: Index, start: LevelStart, visited: seq<nat>)
    requires start.leftmost != P_NONE && LevelPass(idx, start, visited)
    ensures IndexAccepted(idx, start)
       <==> NextLevel(idx, visited).Some? && IndexAccepted(idx, NextLevel(idx, visited).value)
  {
    if IndexAccepted(idx, start) {
      var levels :| IndexPass(idx, start, levels);
      LevelUnique(idx, start, visited, levels[0]);
      assert IndexPass(idx, NextLevel(idx, visited).value, levels[1..]);
    }
    if NextLevel(idx, visited).Some? && IndexAccepted(idx, NextLevel(idx, visited).value) {
      var rest :| IndexPass(idx, NextLevel(idx, visited).value, rest);
      assert ([visited] + rest)[1..] == rest;
      assert IndexPass(idx, start, [visited] + rest);
    }
  }

  lemma LevelRefused(idx: Index, start: LevelStart)
    requires start.leftmost != P_NONE && forall w :: !LevelPass(idx, start, w)
    ensures !IndexAccepted(idx, start)
  {
  }

  lemma {:induction false} NextLevelIsBelow(idx: Index, start: LevelStart, visited: seq<nat>, n: nat)
    requires Visits(idx, start, visited) && n <= |visited|
    ensures var next := NextLevel(idx, visited[n..]);
      next.Some? && next.value.leftmost != P_NONE ==> next.value.level < start.level
    decreases |visited| - n
  {
    if n < |visited| {
      VisitAt(idx, start, visited, n);
      assert visited[n..][1..] == visited[n + 1..];
      NextLevelIsBelow(idx, start, visited, n + 1);
    }
  }

  lemma {:induction false} NextLevelMore(idx: Index, visited: seq<nat>, blk: nat)
    requires blk in idx.pages && forall i :: 0 <= i < |visited| ==> visited[i] in idx.pages
    ensures NextLevel(idx, visited + [blk])
         == if NextLevel(idx, visited).Some? then NextLevel(idx, visited) else NextLevel(idx, [blk])
    decreases |visited|
  {
    if visited == [] {
      assert visited + [blk] == [blk];
    } else {
      assert (visited + [blk])[1..] == visited[1..] + [blk];
      NextLevelMore(idx, visited[1..], blk);
    }
  }

  lemma {:induction false} NoneLiveNoNext(idx: Index, visited: seq<nat>)
    requires forall i :: 0 <= i < |visited| ==> visited[i] in idx.pages
    ensures NoneLive(idx, visited) <==> NextLevel(idx, visited).None?
    decreases |visited|
  {
    if visited != [] {
      NoneLiveNoNext(idx, visited[1..]);
      assert forall j :: 1 <= j < |visited| ==> visited[j] == visited[1..][j - 1];
      assert NoneLive(idx, visited) <==> idx.pages[visited[0]].Ignore() && NoneLive(idx, visited[1..]);
    }
  }

  /** What a level walk knows about the pages it has visited. */
  ghost predicate Walked(idx: Index, start: LevelStart, visited: seq<nat>, next: Option<LevelStart>)
  {
    && Visits(idx, start, visited) && (forall i :: 0 <= i < |visited| ==> visited[i] in idx.pages)
    && next == NextLevel(idx, visited) && (NoneLive(idx, visited) <==> next.None?)
  }

  lemma WalkedMore(idx: Index, start: LevelStart, visited: seq<nat>, next: Option<LevelStart>, blk: nat)
    requires Walked(idx, start, visited, next) && VisitPass(idx, start, visited, blk)
    requires blk == Upcoming(idx, start, visited)
    ensures Walked(idx, start, visited + [blk], if next.Some? then next else NextLevel(idx, [blk]))
  {
    VisitsMore(idx, start, visited, blk);
    NextLevelMore(idx, visited, blk);
    NoneLiveNoNext(idx, visited + [blk]);
  }

  lemma WalkExtends(idx: Index, s: Step, path: seq<nat>, blk: nat)
    requires s.Valid() && Walk(idx, s, path)
    requires forall i :: 0 <= i < |path| ==> path[i] != s.Downlink()
    requires blk == After(idx, s, path)
    requires blk != P_NONE && ChildFits(idx, s, blk, SplitBefore(idx, s, path + [blk], |path|), |path| == 0)
    ensures Walk(idx, s, path + [blk])
  {
    var q := path + [blk];
    forall i | 0 <= i < |q| ensures q[i] != P_NONE && ChildFits(idx, s, q[i], SplitBefore(idx, s, q, i), i == 0) {
      assert i < |path| ==> SplitBefore(idx, s, q, i) == SplitBefore(idx, s, path, i);
    }
  }

  /** A landing is determined by its first block. */
  lemma {:induction false} LandsPrefix(idx: Index, blk: nat, path: seq<nat>, p: seq<nat>, n: nat)
    requires Lands(idx, blk, p) && RightLinked(idx, path) && (|path| > 0 ==> path[0] == blk) && n <= |path|
    requires forall i :: 0 <= i < |path| ==> path[i] in idx.pages && Passable(idx.pages[path[i]])
    ensures n < |p| && forall i :: 0 <= i < n ==> p[i] == path[i]
    decreases n
  {
    if n > 0 {
      LandsPrefix(idx, blk, path, p, n - 1);
      if n > 1 {
        assert path[n - 1] == NextOf(idx, path[n - 2]) && p[n - 1] == NextOf(idx, p[n - 2]);
      }
    }
  }

  lemma LandsNext(idx: Index, blk: nat, path: seq<nat>, p: seq<nat>)
    requires Lands(idx, blk, p) && RightLinked(idx, path) && (|path| > 0 ==> path[0] == blk)
    requires forall i :: 0 <= i < |path| ==> path[i] in idx.pages && Passable(idx.pages[path[i]])
    ensures
      var next := if |path| == 0 then blk else NextOf(idx, path[|path| - 1]);
      Loads(idx, next) && (!Passable(idx.pages[next]) ==> p == path + [next])
  {
    LandsPrefix(idx, blk, path, p, |path|);
    var n := |path|;
    if n > 0 {
      assert p[n] == NextOf(idx, p[n - 1]);
    }
  }

  lemma LandsTooLong(idx: Index, blk: nat, path: seq<nat>)
    requires RightLinked(idx, path) && (|path| > 0 ==> path[0] == blk) && |path| > |idx.pages|
    requires forall i :: 0 <= i < |path| ==> path[i] in idx.pages && Passable(idx.pages[path[i]])
    ensures forall p :: !Lands(idx, blk, p)
  {
    hide Lands;
    forall p ensures !Lands(idx, blk, p) {
      if Lands(idx, blk, p) {
        LandsPrefix(idx, blk, path, p, |path|);
        LandsBound(idx, blk, p);
      }
    }
  }

  /** Every item of a page against a lower bound. */
  method ItemsAbove(key: Tuple, p: Page) returns (ok: bool)
    ensures ok <==> forall off :: p.Real(off) ==> InvariantL(key, p, off)
  {
    var off := p.FirstDataKey();
    while off <= |p.items|
      invariant off >= p.FirstDataKey()
      invariant forall k: nat :: p.Real(k) && k < off ==> InvariantL(key, p, k)
    {
      if !p.NegInf(off) && !InvariantL(key, p, off) {
        assert p.Real(off);
        return false;
      }
      off := off + 1;
    }
    return true;
  }

  class CheckState {
    const idx: Index

    // the page under check
    var target: Page
    var targetblock: nat
    var lowkey: Option<Tuple>  // high key of its left sibling

    // where the walk of the child level stopped
    var prevrightlink: Option<nat>
    var previncompletesplit: bool

    ghost function StepAt(off: nat): Step
      reads this
    {
      Step(target, off, lowkey, prevrightlink, previncompletesplit)
    }

    function At(): Cursor
      reads this
    {
      Cursor(prevrightlink, previncompletesplit)
    }

    /** bt_child_highkey_check: from where the previous call stopped, right to the next
        downlink. */
    method ChildHighkeyCheck(off: nat, fuel: nat) returns (v: Verdict, ghost path: seq<nat>)
      requires off == INVALID_OFFSET || target.Has(off)
      modifies this`prevrightlink, this`previncompletesplit
      ensures v == Accept ==>
        var s := old(StepAt(off));
        WalkEnds(idx, s, path) && At() == CursorAfter(idx, s.Downlink())
      ensures Refused(idx, v, fuel) ==> forall p :: !WalkEnds(idx, old(StepAt(off)), p)
    {
      ghost var s := StepAt(off);
      var downlink := if off == INVALID_OFFSET then P_NONE else target.Item(off).link;
      var blkno := if prevrightlink.Some? then prevrightlink.value else downlink;
      var rightsplit := prevrightlink.Some? && previncompletesplit;
      path := [];
      for turn := 0 to fuel
        invariant StepAt(off) == s
        invariant Walk(idx, s, path) && |path| == turn && forall i :: 0 <= i < |path| ==> path[i] != downlink
        invariant blkno == After(idx, s, path)
        invariant rightsplit == SplitBefore(idx, s, path + [blkno], |path|)
      {
        if blkno == P_NONE && downlink == P_NONE {
          prevrightlink, previncompletesplit := None, false;
          return Accept, path;
        }
        if blkno == P_NONE {
          WalkStops(idx, s, path, blkno);
          return Corrupt, path;
        }
        v := CheckChild(off, blkno, rightsplit, turn == 0, fuel);
        if v != Accept {
          if Refused(idx, v, fuel) { WalkStops(idx, s, path, blkno); }
          return v, path;
        }
        WalkExtends(idx, s, path, blkno);
        path := path + [blkno];
        rightsplit := idx.pages[blkno].incompleteSplit;
        if blkno == downlink {
          prevrightlink, previncompletesplit := Some(idx.pages[blkno].next), rightsplit;
          return Accept, path;
        }
        blkno := idx.pages[blkno].next;
      }
      if fuel > |idx.pages| {
        WalkTooLong(idx, s, path);
      }
      return GaveUp, path;
    }

    /** The checks on one page met on the way. */
    method CheckChild(off: nat, blkno: nat, rightsplit: bool, first: bool, fuel: nat) returns (v: Verdict)
      requires off == INVALID_OFFSET || target.Has(off)
      ensures v == Accept ==> ChildFits(idx, StepAt(off), blkno, rightsplit, first)
      ensures Refused(idx, v, fuel) ==> !ChildFits(idx, StepAt(off), blkno, rightsplit, first)
    {
      var downlink := if off == INVALID_OFFSET then P_NONE else target.Item(off).link;
      if !Loads(idx, blkno) {
        return Corrupt;
      }
      var page := idx.pages[blkno];
      if first && prevrightlink.None? && !page.Leftmost() {
        return Corrupt;
      }
      if !page.Ignore() && page.level != target.level - 1 {
        return Corrupt;
      }
      if (!first && prevrightlink == Some(blkno)) || blkno == page.prev {
        return Corrupt;
      }
      if blkno != downlink && !page.Ignore() {
        v := DownlinkMissingCheck(idx, rightsplit, blkno, fuel);
        if v != Accept {
          return;
        }
      }
      if !page.incompleteSplit && !page.Rightmost() {
        var matched := MatchHighKey(off, downlink, blkno, page);
        if !matched {
          return Corrupt;
        }
      }
      return Accept;
    }

    /** Compares the high key of a child with the separator that follows its downlink: the
        next item, the high key of the target, or the low key of the target. */
    method MatchHighKey(off: nat, downlink: nat, blkno: nat, page: Page) returns (ok: bool)
      requires off == INVALID_OFFSET || target.Has(off)
      requires downlink == StepAt(off).Downlink() && !page.incompleteSplit && !page.Rightmost()
      ensures ok <==> HighKeyMatches(StepAt(off), blkno, page)
    {
      if !page.Has(P_HIKEY) {
        return false;
      }
      var highkey := page.Item(P_HIKEY);
      var pivotoff := if blkno == downlink then off + 1 else off;
      var itup;
      if !target.NegInf(pivotoff) {
        if pivotoff > |target.items| {
          if target.Rightmost() {
            return false;
          }
          pivotoff := P_HIKEY;
        }
        if !target.Has(pivotoff) {
          return false;
        }
        itup := target.Item(pivotoff);
      } else {
        if lowkey.None? {
          return false;
        }
        itup := lowkey.value;
      }
      return PivotIdentical(highkey, itup);
    }

    /** bt_right_page_check_scankey: the first item of the first page to the right that is
        not ignorable. */
    method RightPageCheckScankey(fuel: nat) returns (v: Verdict, key: Option<Tuple>)
      requires !target.Rightmost()
      ensures v == Accept ==>
                exists path :: Lands(idx, target.next, path) && key == FirstKey(idx.pages[path[|path| - 1]])
      ensures Refused(idx, v, fuel) ==> forall path :: !Lands(idx, target.next, path)
    {
      var targetnext := target.next;
      ghost var path: seq<nat> := [];
      key := None;
      for turn := 0 to fuel
        invariant |path| == turn && RightLinked(idx, path) && (|path| > 0 ==> path[0] == target.next)
        invariant forall i :: 0 <= i < |path| ==> Loads(idx, path[i]) && Passable(idx.pages[path[i]])
        invariant targetnext == if |path| == 0 then target.next else NextOf(idx, path[|path| - 1])
      {
        if !Loads(idx, targetnext) {
          forall p | Lands(idx, target.next, p) ensures false { LandsNext(idx, target.next, path, p); }
          return Corrupt, None;
        }
        var rightpage := idx.pages[targetnext];
        if !rightpage.Ignore() || rightpage.Rightmost() {
          assert Lands(idx, target.next, path + [targetnext]);
          return Accept, FirstKey(rightpage);
        }
        path := path + [targetnext];
        targetnext := rightpage.next;
      }
      if fuel > |idx.pages| {
        LandsTooLong(idx, target.next, path);
      }
      return GaveUp, None;
    }

    /** The last item of the target against the item to its right. */
    method CheckRight(fuel: nat) returns (v: Verdict)
      requires |target.items| > 0
      ensures v == Accept ==> RightPass(idx, target)
      ensures Refused(idx, v, fuel) ==> !RightPass(idx, target)
    {
      if target.Rightmost() {
        return Accept;
      }
      var rightkey;
      v, rightkey := RightPageCheckScankey(fuel);
      if v == Accept {
        ghost var path :| Lands(idx, target.next, path) && rightkey == FirstKey(idx.pages[path[|path| - 1]]);
        if rightkey.Some? && !InvariantG(rightkey.value, target, |target.items|) {
          forall p | Lands(idx, target.next, p) ensures p == path { LandsSame(idx, target.next, path, p); }
          return Corrupt;
        }
      }
    }

    /** bt_child_check: the child of a downlink that has a separator. */
    method ChildCheck(off: nat, fuel: nat) returns (v: Verdict)
      requires target.Real(off)
      modifies this`prevrightlink, this`previncompletesplit
      ensures v == Accept ==>
        && CanWalk(idx, old(StepAt(off))) && At() == CursorAfter(idx, target.Item(off).link)
        && Loads(idx, target.Item(off).link) && ChildAbove(idx, target.Item(off), target.Item(off).link)
      ensures Refused(idx, v, fuel) ==>
        !(CanWalk(idx, old(StepAt(off))) && Loads(idx, target.Item(off).link)
          && ChildAbove(idx, target.Item(off), target.Item(off).link))
    {
      hide WalkEnds, InvariantL;
      var childblock := target.Item(off).link;
      if !Loads(idx, childblock) {
        return Corrupt;
      }
      var child := idx.pages[childblock];
      ghost var path;
      v, path := ChildHighkeyCheck(off, fuel);
      if v != Accept {
        return;
      }
      if child.deleted {
        return Corrupt;
      }
      var above := ItemsAbove(target.Item(off), child);
      return if above then Accept else Corrupt;
    }

    /** The checks on one item of the target. */
    method CheckOffset(off: nat, ghost c: Cursor, fuel: nat) returns (v: Verdict)
      requires target.Data(off)
      requires !target.leaf ==> At() == CursorAt(idx, target, c, off)
      modifies this`prevrightlink, this`previncompletesplit
      ensures v == Accept ==> OffsetPass(idx, target, lowkey, c, off)
      ensures v == Accept ==> At() == if target.leaf then old(At()) else CursorAt(idx, target, c, off + 1)
      ensures Refused(idx, v, fuel) ==> !OffsetPass(idx, target, lowkey, c, off)
    {
      ghost var s := StepOf(idx, target, lowkey, c, off);
      assert !target.leaf ==> StepAt(off) == s;
      if !NattsOk(target, off, idx.nkeyatts) {
        return Corrupt;
      }
      if target.NegInf(off) {
        ghost var path;
        v, path := ChildHighkeyCheck(off, fuel);
        return;
      }
      if !ItemPass(target, off) {
        return Corrupt;
      }
      if off == |target.items| {
        v := CheckRight(fuel);
        if v != Accept {
          return;
        }
      }
      if !target.leaf {
        v := ChildCheck(off, fuel);
        return;
      }
      return Accept;
    }

    /** The items of the target, in order. */
    method CheckItems(ghost c: Cursor, fuel: nat) returns (v: Verdict)
      requires Sane(target) && !target.deleted && At() == c
      modifies this`prevrightlink, this`previncompletesplit
      ensures v == Accept ==> forall o :: target.Data(o) ==> OffsetPass(idx, target, lowkey, c, o)
      ensures v == Accept && target.leaf ==> At() == c
      ensures v == Accept && !target.leaf ==> At() == CursorAt(idx, target, c, |target.items| + 1)
      ensures Refused(idx, v, fuel) ==> exists o :: target.Data(o) && !OffsetPass(idx, target, lowkey, c, o)
    {
      hide OffsetPass;
      var off := target.FirstDataKey();
      while off <= |target.items|
        invariant target.FirstDataKey() <= off && (off <= |target.items| + 1 || off == target.FirstDataKey())
        invariant forall o: nat :: target.Data(o) && o < off ==> OffsetPass(idx, target, lowkey, c, o)
        invariant At() == if target.leaf then c else CursorAt(idx, target, c, off)
      {
        v := CheckOffset(off, c, fuel);
        if v != Accept {
          return;
        }
        off := off + 1;
      }
      return Accept;
    }

    /** bt_target_page_check. */
    method TargetPageCheck(fuel: nat) returns (v: Verdict)
      requires Sane(target) && !target.deleted
      modifies this`prevrightlink, this`previncompletesplit
      ensures v == Accept ==> PagePass(idx, target, lowkey, old(At()))
      ensures v == Accept && target.leaf ==> At() == old(At())
      ensures v == Accept && !target.leaf ==>
        At() == (if target.Rightmost() then Outset else CursorAfter(idx, target.Item(|target.items|).link))
      ensures Refused(idx, v, fuel) ==> !PagePass(idx, target, lowkey, old(At()))
    {
      if !target.Rightmost() && !NattsOk(target, P_HIKEY, idx.nkeyatts) {
        return Corrupt;
      }
      v := CheckItems(At(), fuel);
      if v == Accept && !target.leaf && target.Rightmost() {
        ghost var path;
        assert StepAt(INVALID_OFFSET) == StepOf(idx, target, lowkey, old(At()), INVALID_OFFSET);
        v, path := ChildHighkeyCheck(INVALID_OFFSET, fuel);
      }
    }

    /** bt_check_level_from_leftmost: right along the level; `laps` bounds the number of
        pages, and `late` tells that it was reached. */
    method CheckLevel(start: LevelStart, laps: nat, fuel: nat)
      returns (v: Verdict, next: Option<LevelStart>, late: bool, ghost visited: seq<nat>)
      requires WellFormed(idx) && start.leftmost != P_NONE && lowkey == None
      modifies this
      ensures lowkey == None
      ensures v == Accept ==> LevelPass(idx, start, visited) && next == NextLevel(idx, visited)
      ensures Refused(idx, v, if laps < fuel then laps else fuel) ==> forall w :: !LevelPass(idx, start, w)
      ensures late ==> v == GaveUp && Visits(idx, start, visited) && |visited| == laps
    {
      var leftcurrent, current := P_NONE, start.leftmost;
      next, late, visited := None, false, [];
      prevrightlink, previncompletesplit := None, false;
      for lap := 0 to laps
        invariant Walked(idx, start, visited, next) && |visited| == lap
        invariant leftcurrent == LeftOf(visited) && current != P_NONE && current == Upcoming(idx, start, visited)
        invariant lowkey == LowKey(idx, visited) && At() == LevelCursor(idx, visited)
      {
        v, next := VisitPage(start, current, leftcurrent, next, visited, fuel);
        if v != Accept {
          lowkey := None;
          return;
        }
        visited := visited + [current];
        leftcurrent, current := current, target.next;
        if current == P_NONE {
          lowkey := None;
          return Accept, next, false, visited;
        }
      }
      lowkey := None;
      if laps > |idx.pages| {
        LevelTooLong(idx, start, visited);
      }
      return GaveUp, next, true, visited;
    }

    /** One turn of the walk: the checks on a page, where the next level starts if this is
        the first live page, and the low key for the right sibling. */
    method VisitPage(start: LevelStart, current: nat, leftcurrent: nat, next: Option<LevelStart>,
                     ghost visited: seq<nat>, fuel: nat) returns (v: Verdict, next': Option<LevelStart>)
      requires Walked(idx, start, visited, next)
      requires leftcurrent == LeftOf(visited) && current != P_NONE && current == Upcoming(idx, start, visited)
      requires lowkey == LowKey(idx, visited) && At() == LevelCursor(idx, visited)
      modifies this
      ensures v == Accept ==>
        && Walked(idx, start, visited + [current], next')
        && target.next == NextOf(idx, current)
        && lowkey == LowKey(idx, visited + [current]) && At() == LevelCursor(idx, visited + [current])
      ensures Refused(idx, v, fuel) ==> forall w :: !LevelPass(idx, start, w)
    {
      hide PagePass;
      next' := next;
      v := CheckPage(start, current, leftcurrent, next.None?, visited, fuel);
      if Refused(idx, v, fuel) {
        LevelStops(idx, start, visited, current);
      }
      if v != Accept {
        return;
      }
      WalkedMore(idx, start, visited, next, current);
      if next.None? && !target.Ignore() {
        next' := if target.leaf then Some(LevelStart(0, P_NONE, false))
                 else Some(LevelStart(target.level - 1, FirstDownlink(target), false));
      }
      lowkey := if !target.Rightmost() then Some(target.Item(P_HIKEY)) else None;
    }

    /** The checks on one page of a level. */
    method CheckPage(start: LevelStart, current: nat, leftcurrent: nat, noneLive: bool,
                     ghost before: seq<nat>, fuel: nat)
      returns (v: Verdict)
      requires current != P_NONE && leftcurrent == LeftOf(before) && noneLive == NoneLive(idx, before)
      requires lowkey == LowKey(idx, before) && At() == LevelCursor(idx, before)
      modifies this
      ensures lowkey == old(lowkey)
      ensures v == Accept ==> VisitPass(idx, start, before, current) && target == idx.pages[current]
      ensures v == Accept ==> At() == LevelCursor(idx, before + [current])
      ensures Refused(idx, v, fuel) ==> !VisitPass(idx, start, before, current)
    {
      hide PagePass;
      assert (before + [current])[..|before|] == before;
      targetblock := current;
      if !Loads(idx, current) {
        return Corrupt;
      }
      target := idx.pages[current];
      if target.Ignore() {
        if target.deleted || target.Rightmost() {
          return Corrupt;
        }
      } else {
        if noneLive && (!target.Leftmost() || (start.istrueroot && !target.root)) {
          return Corrupt;
        }
        if target.prev != leftcurrent || start.level != target.level {
          return Corrupt;
        }
        v := TargetPageCheck(fuel);
        if v != Accept {
          return;
        }
      }
      if current == leftcurrent || current == target.prev {
        return Corrupt;
      }
      return Accept;
    }

    /** bt_check_every_level: from the root level down to the leaves. With more turns than the
        index has pages it accepts exactly the indexes that pass. */
    method CheckEveryLevel(rootlevel: nat, root: nat, laps: nat, fuel: nat) returns (v: Verdict)
      requires WellFormed(idx) && lowkey == None
      modifies this
      ensures v == Accept ==> IndexAccepted(idx, LevelStart(rootlevel, root, true))
      ensures v == Corrupt ==> !IndexAccepted(idx, LevelStart(rootlevel, root, true))
      ensures laps > |idx.pages| && fuel > |idx.pages| ==>
        (v == Accept <==> IndexAccepted(idx, LevelStart(rootlevel, root, true)))
    {
      var current := LevelStart(rootlevel, root, true);
      while current.leftmost != P_NONE
        invariant lowkey == None
        invariant IndexAccepted(idx, LevelStart(rootlevel, root, true)) <==> IndexAccepted(idx, current)
        decreases if current.leftmost == P_NONE then 0 else current.level + 1
      {
        var next, late;
        ghost var visited;
        v, next, late, visited := CheckLevel(current, laps, fuel);
        if v != Accept {
          if Refused(idx, v, if laps < fuel then laps else fuel) {
            LevelRefused(idx, current);
          }
          return;
        }
        IndexStep(idx, current, visited);
        if next.None? {
          return Corrupt;
        }
        assert visited[0..] == visited;
        NextLevelIsBelow(idx, current, visited, 0);
        current := next.value;
      }
      assert IndexPass(idx, current, []);
      return Accept;
    }
  }
}
