/** The parts of the verifier that look below the target page. */
module BtreeChild {
  import opened BtreePage
  import opened BtreeFinite

  /** A check either ends, or gives up after a bounded number of turns of a loop that
      follows links. */
  datatype Verdict = Accept | Corrupt | GaveUp

  /** A verdict against the index: corruption, or giving up after more turns than the index has
      pages. */
  ghost predicate Refused(idx: Index, v: Verdict, fuel: nat)
  {
    v == Corrupt || (v == GaveUp && fuel > |idx.pages|)
  }

  lemma DescentStep(idx: Index, top: nat, level: nat, blk: nat)
    requires Loads(idx, blk) && !idx.pages[blk].leaf
    requires idx.pages[blk].level == Below(level) && idx.pages[blk].Has(idx.pages[blk].FirstDataKey())
    ensures Leads(idx, top, level, blk) <==> Leads(idx, top, idx.pages[blk].level, FirstDownlink(idx.pages[blk]))
  {
    var p := idx.pages[blk];
    if Leads(idx, top, level, blk) {
      var d :| Descends(idx, top, level, blk, d);
      assert Descends(idx, top, p.level, FirstDownlink(p), d[1..]);
    }
    if Leads(idx, top, p.level, FirstDownlink(p)) {
      var d :| Descends(idx, top, p.level, FirstDownlink(p), d);
      assert ([blk] + d)[1..] == d;
      assert Descends(idx, top, level, blk, [blk] + d);
    }
  }

  /** Every descent from block `blk` makes, with the blocks above it, a descent from the top. */
  ghost predicate Completes(idx: Index, top: nat, above: seq<nat>, level: nat, blk: nat)
    requires top in idx.pages
  {
    var p := idx.pages[top];
    p.Has(p.FirstDataKey()) &&
    forall d :: Descends(idx, top, level, blk, d) ==> Descends(idx, top, p.level, FirstDownlink(p), above + d)
  }

  lemma NothingAbove(idx: Index, top: nat, level: nat, blk: nat)
    requires top in idx.pages && idx.pages[top].Has(idx.pages[top].FirstDataKey())
    requires level == idx.pages[top].level && blk == FirstDownlink(idx.pages[top])
    ensures Completes(idx, top, [], level, blk)
  {
    assert forall d: seq<nat> :: [] + d == d;
  }

  lemma CompletesMore(idx: Index, top: nat, above: seq<nat>, level: nat, blk: nat)
    requires top in idx.pages && Completes(idx, top, above, level, blk)
    requires Loads(idx, blk) && !idx.pages[blk].leaf
    requires idx.pages[blk].level == Below(level) && idx.pages[blk].Has(idx.pages[blk].FirstDataKey())
    ensures Completes(idx, top, above + [blk], idx.pages[blk].level, FirstDownlink(idx.pages[blk]))
  {
    var p, q := idx.pages[top], idx.pages[blk];
    forall d | Descends(idx, top, q.level, FirstDownlink(q), d)
      ensures Descends(idx, top, p.level, FirstDownlink(p), above + [blk] + d)
    {
      assert ([blk] + d)[1..] == d;
      assert Descends(idx, top, level, blk, [blk] + d);
      assert above + [blk] + d == above + ([blk] + d);
    }
  }

  /** After as many blocks as the index has pages no descent is complete. */
  lemma TooLong(idx: Index, top: nat, above: seq<nat>, level: nat, blk: nat)
    requires top in idx.pages && Completes(idx, top, above, level, blk) && |above| > |idx.pages|
    ensures !Leads(idx, top, level, blk)
  {
    hide Descends;
    var p := idx.pages[top];
    forall d ensures !Descends(idx, top, level, blk, d) {
      if Descends(idx, top, level, blk, d) {
        DescentBound(idx, top, p.level, FirstDownlink(p), above + d);
      }
    }
  }

  /** bt_downlink_missing_check. */
  method DownlinkMissingCheck(idx: Index, rightsplit: bool, blk: nat, fuel: nat) returns (v: Verdict)
    requires Loads(idx, blk) && !idx.pages[blk].Ignore()
    ensures v == Accept ==> MissingOk(idx, blk, rightsplit)
    ensures Refused(idx, v, fuel) ==> !MissingOk(idx, blk, rightsplit)
  {
    var p := idx.pages[blk];
    if p.root || rightsplit {
      return Accept;
    }
    if p.leaf {
      return Corrupt;
    }
    var level := p.level;
    var childblk := FirstDownlink(p);
    ghost var above: seq<nat> := [];
    NothingAbove(idx, blk, level, childblk);
    for i := 0 to fuel
      invariant HeadsDeletion(idx, blk) <==> Leads(idx, blk, level, childblk)
      invariant |above| == i && Completes(idx, blk, above, level, childblk)
    {
      if !Loads(idx, childblk) {
        return Corrupt;
      }
      var child := idx.pages[childblk];
      if child.leaf {
        if !child.deleted && child.halfDead && !child.Rightmost() && child.Item(P_HIKEY).link == blk {
          assert Descends(idx, blk, level, childblk, [childblk]);
          return Accept;
        }
        return Corrupt;
      }
      if child.level != Below(level) || !child.Has(child.FirstDataKey()) {
        return Corrupt;
      }
      DescentStep(idx, blk, level, childblk);
      CompletesMore(idx, blk, above, level, childblk);
      above := above + [childblk];
      level := child.level;
      childblk := FirstDownlink(child);
    }
    if fuel > |idx.pages| {
      TooLong(idx, blk, above, level, childblk);
    }
    return GaveUp;
  }
}
