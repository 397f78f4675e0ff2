/** Changing one page table entry, seen from the root of the table tree. */
module PagePaths {
  import opened Results
  import opened PageTables

  /** From table `t` down, the entries for `vpn` above level `target` refer to tables of this space. */
  ghost predicate Open(pages: seq<Page>, t: nat, level: nat, target: nat, vpn: nat)
    requires target <= level <= 2
    decreases level
  {
    level == target ||
    var e := TableAt(pages, t)[Index(vpn, level)];
    e.Owned() && !e.Leaf() && Open(pages, e.ppn, level - 1, target, vpn)
  }

  /** The table at level `target` on the way to `vpn`. */
  ghost function TableOn(pages: seq<Page>, t: nat, level: nat, target: nat, vpn: nat): nat
    requires target <= level <= 2
    decreases level
  {
    if level == target then t
    else TableOn(pages, TableAt(pages, t)[Index(vpn, level)].ppn, level - 1, target, vpn)
  }

  ghost function EntryOn(pages: seq<Page>, t: nat, level: nat, target: nat, vpn: nat): Pte
    requires target <= level <= 2
  {
    TableAt(pages, TableOn(pages, t, level, target, vpn))[Index(vpn, target)]
  }

  /** Two page numbers go through the same entries from level `level` to level `target`. */
  predicate SamePath(v: nat, w: nat, level: nat, target: nat)
    requires target <= level <= 2
    decreases level
  {
    Index(v, level) == Index(w, level) && (level == target || SamePath(v, w, level - 1, target))
  }

  /** The entry for `vpn` at level `target` becomes `e`. Pages that hang below `t` otherwise stay, except
      those that the entry owned before; those it owns now were not reached from `t` in any other way. */
  ghost predicate PathChange(pages: seq<Page>, pages': seq<Page>, kernel: set<nat>,
                             t: nat, level: nat, target: nat, vpn: nat, e: Pte)
    requires target <= level <= 2
  {
    var s := TableOn(pages, t, level, target, vpn);
    var was := EntryFoot(pages, EntryOn(pages, t, level, target, vpn), target);
    var all := {t} + Foot(pages, t, level);
    && |pages'| == |pages| && s < |pages| && pages'[s] == pages[s][Index(vpn, target) := e]
    && Agree(pages, pages', all - {s} - was)
    && EntryTidy(pages', kernel, e, target) && EntryFoot(pages', e, target) !! all - was
  }

  /** The table on the way and what its entry owns hang below `t`. */
  lemma {:induction false} OnPath(pages: seq<Page>, kernel: set<nat>, t: nat, level: nat, target: nat, vpn: nat)
    requires target <= level <= 2 && Open(pages, t, level, target, vpn)
    requires Tidy(pages, kernel, t, level) && t !in Foot(pages, t, level)
    ensures var s := TableOn(pages, t, level, target, vpn);
      && s < |pages| && s in {t} + Foot(pages, t, level)
      && EntryFoot(pages, EntryOn(pages, t, level, target, vpn), target) <= Foot(pages, t, level)
      && s !in EntryFoot(pages, EntryOn(pages, t, level, target, vpn), target)
      && EntryTidy(pages, kernel, EntryOn(pages, t, level, target, vpn), target)
    decreases level
  {
    ChildFoot(pages, t, level, Index(vpn, level));
    if level > target {
      var e := pages[t][Index(vpn, level)];
      OnPath(pages, kernel, e.ppn, level - 1, target, vpn);
    }
  }

  lemma SubTable(pages: seq<Page>, kernel: set<nat>, t: nat, level: nat, i: nat)
    requires Tidy(pages, kernel, t, level) && level > 0 && i < PTE_CNT
    requires var e := TableAt(pages, t)[i]; e.Owned() && !e.Leaf()
    ensures var e := TableAt(pages, t)[i];
      && t < |pages| && e.ppn > 0 && Tidy(pages, kernel, e.ppn, level - 1) && e.ppn !in Foot(pages, e.ppn, level - 1)
      && EntryFoot(pages, e, level) == {e.ppn} + Foot(pages, e.ppn, level - 1)
      && EntryFoot(pages, e, level) <= Foot(pages, t, level)
  {
    ChildFoot(pages, t, level, i);
  }

  lemma OtherFeet(pages: seq<Page>, kernel: set<nat>, t: nat, level: nat, i: nat)
    requires Tidy(pages, kernel, t, level) && i < PTE_CNT
    ensures t < |pages|
    ensures forall j: nat :: j < PTE_CNT && j != i ==>
      && EntryFoot(pages, pages[t][j], level) !! EntryFoot(pages, pages[t][i], level)
      && EntryFoot(pages, pages[t][j], level) <= Foot(pages, t, level)
  {
    forall j: nat | j < PTE_CNT ensures EntryFoot(pages, pages[t][j], level) <= Foot(pages, t, level) {
      ChildFoot(pages, t, level, j);
    }
  }

  /** A change further down is a path change of the next table, and leaves this one alone. */
  lemma PathBelow(pages: seq<Page>, pages': seq<Page>, kernel: set<nat>,
                  t: nat, level: nat, target: nat, vpn: nat, e: Pte)
    requires target < level <= 2 && Open(pages, t, level, target, vpn)
    requires Tidy(pages, kernel, t, level) && t !in Foot(pages, t, level)
    requires PathChange(pages, pages', kernel, t, level, target, vpn, e)
    ensures var sub := TableAt(pages, t)[Index(vpn, level)];
      && t < |pages| && |pages'| == |pages| && pages'[t] == pages[t] && sub.Owned() && !sub.Leaf()
      && Open(pages, sub.ppn, level - 1, target, vpn)
      && PathChange(pages, pages', kernel, sub.ppn, level - 1, target, vpn, e)
  {
    hide Tidy, Foot, EntryFoot, EntryTidy;
    var sub := TableAt(pages, t)[Index(vpn, level)];
    SubTable(pages, kernel, t, level, Index(vpn, level));
    OnPath(pages, kernel, sub.ppn, level - 1, target, vpn);
    var was := EntryFoot(pages, EntryOn(pages, t, level, target, vpn), target);
    assert {sub.ppn} + Foot(pages, sub.ppn, level - 1) <= {t} + Foot(pages, t, level);
    assert t !in was && t != TableOn(pages, t, level, target, vpn);
  }

  /** A change below entry `i`, seen from the table. */
  lemma ChangeBelow(pages: seq<Page>, pages': seq<Page>, kernel: set<nat>, t: nat, level: nat, i: nat, was: set<nat>, now: set<nat>, s: nat)
    requires 0 < level <= 2 && i < PTE_CNT && Tidy(pages, kernel, t, level) && t !in Foot(pages, t, level)
    requires |pages'| == |pages| && t < |pages| && pages'[t] == pages[t] && pages[t][i].Owned() && !pages[t][i].Leaf()
    requires var sub := pages[t][i].ppn;
      && Tidy(pages', kernel, sub, level - 1) && sub !in Foot(pages', sub, level - 1)
      && Foot(pages', sub, level - 1) == (Foot(pages, sub, level - 1) - was) + now
      && was <= Foot(pages, sub, level - 1) && s in {sub} + Foot(pages, sub, level - 1)
    requires Agree(pages, pages', {t} + Foot(pages, t, level) - {s} - was)
    requires now !! {t} + Foot(pages, t, level) - was
    ensures EntryChange(pages, pages', kernel, t, level, i, pages[t][i]) && Tidy(pages', kernel, t, level)
    ensures Foot(pages', t, level) == (Foot(pages, t, level) - was) + now && t !in Foot(pages', t, level)
  {
    hide Tidy, Foot;
    var e := pages[t][i];
    SubTable(pages, kernel, t, level, i);
    OtherFeet(pages, kernel, t, level, i);
    var mine := EntryFoot(pages, e, level);
    assert EntryFoot(pages', e, level) == {e.ppn} + Foot(pages', e.ppn, level - 1);
    assert EntryFoot(pages', e, level) <= mine + now;
    forall j: nat | j < PTE_CNT && j != i
      ensures Agree(pages, pages', EntryFoot(pages, pages[t][j], level))
      ensures EntryFoot(pages', e, level) !! EntryFoot(pages, pages[t][j], level)
    {
      var f := EntryFoot(pages, pages[t][j], level);
      assert f !! mine && s in mine && was <= mine;
      assert f <= {t} + Foot(pages, t, level) - {s} - was;
    }
    assert pages'[t] == pages[t][i := e];
    EntryChanged(pages, pages', kernel, t, level, i, e);
  }

  /** A path change keeps the tree tidy and trades what the entry owned for what it owns now. */
  lemma {:induction false} PathChanged(pages: seq<Page>, pages': seq<Page>, kernel: set<nat>,
                                       t: nat, level: nat, target: nat, vpn: nat, e: Pte)
    requires target <= level <= 2 && Open(pages, t, level, target, vpn)
    requires Tidy(pages, kernel, t, level) && t !in Foot(pages, t, level)
    requires PathChange(pages, pages', kernel, t, level, target, vpn, e)
    ensures Tidy(pages', kernel, t, level) && t !in Foot(pages', t, level)
    ensures Foot(pages', t, level) ==
      (Foot(pages, t, level) - EntryFoot(pages, EntryOn(pages, t, level, target, vpn), target)) + EntryFoot(pages', e, target)
    ensures EntryChange(pages, pages', kernel, t, level, Index(vpn, level), TableAt(pages', t)[Index(vpn, level)])
    decreases level
  {
    hide Tidy, Foot, EntryFoot, EntryTidy, Agree;
    var i, s := Index(vpn, level), TableOn(pages, t, level, target, vpn);
    var was := EntryFoot(pages, EntryOn(pages, t, level, target, vpn), target);
    if level > target {
      var sub := TableAt(pages, t)[i];
      PathBelow(pages, pages', kernel, t, level, target, vpn, e);
      SubTable(pages, kernel, t, level, i);
      OnPath(pages, kernel, sub.ppn, level - 1, target, vpn);
      PathChanged(pages, pages', kernel, sub.ppn, level - 1, target, vpn, e);
      ChangeBelow(pages, pages', kernel, t, level, i, was, EntryFoot(pages', e, target), s);
    } else {
      ChangeHere(pages, pages', kernel, t, level, i, e);
    }
  }

  lemma ChangeHere(pages: seq<Page>, pages': seq<Page>, kernel: set<nat>, t: nat, level: nat, i: nat, e: Pte)
    requires i < PTE_CNT && Tidy(pages, kernel, t, level) && t !in Foot(pages, t, level)
    requires |pages'| == |pages| && t < |pages| && pages'[t] == pages[t][i := e] && EntryTidy(pages', kernel, e, level)
    requires var was := EntryFoot(pages, pages[t][i], level);
      && Agree(pages, pages', {t} + Foot(pages, t, level) - {t} - was)
      && EntryFoot(pages', e, level) !! {t} + Foot(pages, t, level) - was
    ensures EntryChange(pages, pages', kernel, t, level, i, e)
    ensures Tidy(pages', kernel, t, level) && t !in Foot(pages', t, level)
    ensures Foot(pages', t, level) == (Foot(pages, t, level) - EntryFoot(pages, pages[t][i], level)) + EntryFoot(pages', e, level)
  {
    hide Tidy, Foot, EntryTidy;
    OtherFeet(pages, kernel, t, level, i);
    ChildFoot(pages, t, level, i);
    var was := EntryFoot(pages, pages[t][i], level);
    forall j: nat | j < PTE_CNT && j != i
      ensures Agree(pages, pages', EntryFoot(pages, pages[t][j], level))
      ensures EntryFoot(pages', e, level) !! EntryFoot(pages, pages[t][j], level)
    {
      var f := EntryFoot(pages, pages[t][j], level);
      assert f <= {t} + Foot(pages, t, level) - {t} - was;
    }
    EntryChanged(pages, pages', kernel, t, level, i, e);
  }

  /** How a page number translates, and the level-0 entry the kernel's loops find for it. */
  datatype View = View(walk: Option<Translation>, entry: Option<Pte>)

  ghost function ViewOf(pages: seq<Page>, t: nat, level: nat, v: nat): View
    requires level <= 2
  {
    View(Walk(pages, t, level, v), Lookup(pages, t, level, v))
  }

  ghost function EntryView(pages: seq<Page>, e: Pte, level: nat, v: nat): View
    requires level <= 2
  {
    View(WalkEntry(pages, e, level, v), LookupEntry(pages, e, level, v))
  }

  /** Exactly the page numbers that share the changed entry are seen through the new one. */
  lemma {:induction false} ViewChanged(pages: seq<Page>, pages': seq<Page>, kernel: set<nat>,
                                       t: nat, level: nat, target: nat, vpn: nat, e: Pte, v: nat)
    requires target <= level <= 2 && Open(pages, t, level, target, vpn)
    requires Tidy(pages, kernel, t, level) && t !in Foot(pages, t, level)
    requires PathChange(pages, pages', kernel, t, level, target, vpn, e)
    requires KernelClosed(pages, kernel) && Agree(pages, pages', kernel)
    ensures ViewOf(pages', t, level, v) ==
      if SamePath(v, vpn, level, target) then EntryView(pages', e, target, v) else ViewOf(pages, t, level, v)
    decreases level
  {
    hide Tidy, Foot, EntryFoot, EntryTidy, Agree;
    var i := Index(vpn, level);
    PathChanged(pages, pages', kernel, t, level, target, vpn, e);
    OtherWalks(pages, pages', kernel, t, level, i, TableAt(pages', t)[i], v);
    OtherLookups(pages, pages', kernel, t, level, i, TableAt(pages', t)[i], v);
    if level > target {
      var sub := TableAt(pages, t)[i];
      PathBelow(pages, pages', kernel, t, level, target, vpn, e);
      SubTable(pages, kernel, t, level, i);
      ViewChanged(pages, pages', kernel, sub.ppn, level - 1, target, vpn, e, v);
    }
  }

  /** Likewise for the tables that are missing on the way. */
  lemma {:induction false} GapChanged(pages: seq<Page>, pages': seq<Page>, kernel: set<nat>,
                                      t: nat, level: nat, target: nat, vpn: nat, e: Pte, v: nat)
    requires target <= level <= 2 && Open(pages, t, level, target, vpn)
    requires Tidy(pages, kernel, t, level) && t !in Foot(pages, t, level)
    requires PathChange(pages, pages', kernel, t, level, target, vpn, e)
    ensures Gap(pages', t, level, v) ==
      if SamePath(v, vpn, level, target) then GapEntry(pages', e, target, v) else Gap(pages, t, level, v)
    decreases level
  {
    hide Tidy, Foot, EntryFoot, EntryTidy, Agree;
    var i := Index(vpn, level);
    PathChanged(pages, pages', kernel, t, level, target, vpn, e);
    OtherGaps(pages, pages', kernel, t, level, i, TableAt(pages', t)[i], v);
    if level > target {
      var sub := TableAt(pages, t)[i];
      PathBelow(pages, pages', kernel, t, level, target, vpn, e);
      SubTable(pages, kernel, t, level, i);
      GapChanged(pages, pages', kernel, sub.ppn, level - 1, target, vpn, e, v);
    }
  }
}
