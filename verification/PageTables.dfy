/** Sv39 page tables in physical memory: what a table owns, and how it translates. */
module PageTables {
  import opened Results

  const PTE_CNT := 512
  const ROOT_LEVEL := 2

  /** The low eight bits of a page table entry. */
  datatype Flags = Flags(v: bool, r: bool, w: bool, x: bool, u: bool, g: bool, a: bool, d: bool)

  /** A 64-bit page table entry: flags, page number and the remaining bits. */
  datatype Pte = Pte(flags: Flags, ppn: nat, rest: nat) {
    predicate Valid() { flags.v }
    predicate Global() { flags.g }
    predicate Leaf() { flags.r || flags.w || flags.x }
    /** Valid and private to one memory space. */
    predicate Owned() { flags.v && !flags.g }
  }

  const NO_FLAGS := Flags(false, false, false, false, false, false, false, false)
  const NULL_PTE := Pte(NO_FLAGS, 0, 0)

  function LeafPte(ppn: nat, flags: Flags): Pte {
    Pte(flags.(a := true, d := true, v := true), ppn, 0)
  }

  function TablePte(ppn: nat, g: bool): Pte {
    Pte(NO_FLAGS.(v := true, g := g), ppn, 0)
  }

  /** A physical page is 512 words; each word is seen as the entry it encodes. */
  type Page = p: seq<Pte> | |p| == 512 witness seq(512, _ => NULL_PTE)

  function ZeroPage(): Page {
    seq(512, _ => NULL_PTE)
  }

  function TableAt(pages: seq<Page>, t: nat): Page {
    if t < |pages| then pages[t] else ZeroPage()
  }

  // ---------------------------------------------------------------- ownership

  /** The pages that hang below table `t`: the tables and frames reached through entries that are not global. */
  ghost function Foot(pages: seq<Page>, t: nat, level: nat): set<nat>
    decreases level, 1
  {
    set i, p | 0 <= i < PTE_CNT && p in EntryFoot(pages, TableAt(pages, t)[i], level) :: p
  }

  ghost function EntryFoot(pages: seq<Page>, e: Pte, level: nat): set<nat>
    decreases level, 0
  {
    if !e.Owned() then {}
    else if e.Leaf() || level == 0 then {e.ppn}
    else {e.ppn} + Foot(pages, e.ppn, level - 1)
  }

  /** Below table `t`, no page is reached twice, frames hang at level 0 only, and tables that are shared
      between memory spaces belong to the kernel. */
  ghost predicate Tidy(pages: seq<Page>, kernel: set<nat>, t: nat, level: nat)
    decreases level, 1
  {
    && t < |pages|
    && (forall i: nat :: i < PTE_CNT ==> EntryTidy(pages, kernel, pages[t][i], level))
    && (forall i: nat, j: nat :: i < j < PTE_CNT ==>
          EntryFoot(pages, pages[t][i], level) !! EntryFoot(pages, pages[t][j], level))
  }

  ghost predicate EntryTidy(pages: seq<Page>, kernel: set<nat>, e: Pte, level: nat)
    decreases level, 0
  {
    e.Valid() ==>
      if e.Global() then e.Leaf() || e.ppn in kernel
      else if level == 0 then e.Leaf() && 0 < e.ppn < |pages|
      else !e.Leaf() && e.ppn > 0 && e.ppn !in Foot(pages, e.ppn, level - 1) && Tidy(pages, kernel, e.ppn, level - 1)
  }

  /** The kernel's tables refer to kernel tables only. */
  ghost predicate KernelClosed(pages: seq<Page>, kernel: set<nat>) {
    && (forall t :: t in kernel ==> t < |pages|)
    && (forall t, i: nat :: t in kernel && i < PTE_CNT && pages[t][i].Valid() && !pages[t][i].Leaf() ==> pages[t][i].ppn in kernel)
  }

  /** A memory space: its pages are its own, neither free nor the kernel's. */
  ghost predicate Space(pages: seq<Page>, free: set<nat>, kernel: set<nat>, root: nat) {
    && KernelClosed(pages, kernel) && free !! kernel
    && (forall p :: p in free ==> 0 < p < |pages|)
    && Tidy(pages, kernel, root, ROOT_LEVEL)
    && root > 0 && root !in kernel && root !in free && root !in Foot(pages, root, ROOT_LEVEL)
    && Foot(pages, root, ROOT_LEVEL) !! kernel && Foot(pages, root, ROOT_LEVEL) !! free
  }

  // ---------------------------------------------------------------- translation

  datatype Translation = Translation(ppn: nat, flags: Flags)

  function Span(level: nat): nat
    requires level <= 2
  {
    if level == 0 then 1 else if level == 1 then 512 else 0x4_0000
  }

  /** VPN[level] of a virtual page number. */
  function Index(vpn: nat, level: nat): (i: nat)
    requires level <= 2
    ensures i < PTE_CNT
  {
    vpn / Span(level) % PTE_CNT
  }

  /** The address translation of section 4.3.2 of the RISC-V Privileged Architecture, version 20211203, with
      the levels of Sv39 (section 4.4), from table `t` down; `None` is a page fault. */
  ghost function Walk(pages: seq<Page>, t: nat, level: nat, vpn: nat): Option<Translation>
    requires level <= 2
    decreases level, 1
  {
    WalkEntry(pages, TableAt(pages, t)[Index(vpn, level)], level, vpn)
  }

  ghost function WalkEntry(pages: seq<Page>, e: Pte, level: nat, vpn: nat): Option<Translation>
    requires level <= 2
    decreases level, 0
  {
    if !e.flags.v || (!e.flags.r && e.flags.w) then None
    else if e.flags.r || e.flags.x then
      if e.ppn % Span(level) != 0 then None else Some(Translation(e.ppn + vpn % Span(level), e.flags))
    else if level == 0 then None
    else Walk(pages, e.ppn, level - 1, vpn)
  }

  /** The level-0 entry for a page number, read as the kernel's loops read it; `NULL_PTE` if there is none, and
      `None` if the way leads through an entry that is shared. */
  ghost function Lookup(pages: seq<Page>, t: nat, level: nat, vpn: nat): Option<Pte>
    requires level <= 2
    decreases level, 1
  {
    LookupEntry(pages, TableAt(pages, t)[Index(vpn, level)], level, vpn)
  }

  ghost function LookupEntry(pages: seq<Page>, e: Pte, level: nat, vpn: nat): Option<Pte>
    requires level <= 2
    decreases level, 0
  {
    if !e.Valid() then Some(NULL_PTE)
    else if e.Global() then None
    else if level == 0 then Some(e)
    else if e.Leaf() then Some(NULL_PTE)
    else Lookup(pages, e.ppn, level - 1, vpn)
  }

  /** How many tables are missing from table `t` down to the level-0 table of a page number. */
  ghost function Gap(pages: seq<Page>, t: nat, level: nat, vpn: nat): nat
    requires level <= 2
    decreases level, 1
  {
    GapEntry(pages, TableAt(pages, t)[Index(vpn, level)], level, vpn)
  }

  ghost function GapEntry(pages: seq<Page>, e: Pte, level: nat, vpn: nat): nat
    requires level <= 2
    decreases level, 0
  {
    if !e.Valid() then level
    else if e.Global() || e.Leaf() || level == 0 then 0
    else Gap(pages, e.ppn, level - 1, vpn)
  }

  // ---------------------------------------------------------------- frames

  ghost predicate Agree(pages: seq<Page>, pages': seq<Page>, where: set<nat>) {
    |pages'| == |pages| && forall p :: p in where && p < |pages| ==> pages'[p] == pages[p]
  }

  lemma {:induction false} EntryFrame(pages: seq<Page>, pages': seq<Page>, kernel: set<nat>, e: Pte, level: nat)
    requires Agree(pages, pages', EntryFoot(pages, e, level))
    ensures EntryFoot(pages', e, level) == EntryFoot(pages, e, level)
    ensures EntryTidy(pages', kernel, e, level) == EntryTidy(pages, kernel, e, level)
    decreases level, 0
  {
    if e.Owned() && !e.Leaf() && level > 0 {
      TableFrame(pages, pages', kernel, e.ppn, level - 1);
    }
  }

  /** A table and what hangs below it depend on those pages only. */
  lemma {:induction false} TableFrame(pages: seq<Page>, pages': seq<Page>, kernel: set<nat>, t: nat, level: nat)
    requires Agree(pages, pages', {t} + Foot(pages, t, level))
    ensures Foot(pages', t, level) == Foot(pages, t, level)
    ensures Tidy(pages', kernel, t, level) == Tidy(pages, kernel, t, level)
    decreases level, 1
  {
    assert TableAt(pages', t) == TableAt(pages, t);
    forall i: nat | i < PTE_CNT
      ensures EntryFoot(pages', TableAt(pages, t)[i], level) == EntryFoot(pages, TableAt(pages, t)[i], level)
      ensures EntryTidy(pages', kernel, TableAt(pages, t)[i], level) == EntryTidy(pages, kernel, TableAt(pages, t)[i], level)
    {
      EntryFrame(pages, pages', kernel, TableAt(pages, t)[i], level);
    }
  }

  lemma ChildFoot(pages: seq<Page>, t: nat, level: nat, i: nat)
    requires i < PTE_CNT
    ensures EntryFoot(pages, TableAt(pages, t)[i], level) <= Foot(pages, t, level)
  {
  }

  /** Translation through the kernel's tables depends on those only. */
  lemma {:induction false} KernelWalkFrame(pages: seq<Page>, pages': seq<Page>, kernel: set<nat>, e: Pte, level: nat, vpn: nat)
    requires level <= 2 && KernelClosed(pages, kernel) && Agree(pages, pages', kernel) && (e.Valid() ==> e.Leaf() || e.ppn in kernel)
    ensures WalkEntry(pages', e, level, vpn) == WalkEntry(pages, e, level, vpn)
    decreases level
  {
    if e.Valid() && !e.Leaf() && level > 0 {
      KernelWalkFrame(pages, pages', kernel, pages[e.ppn][Index(vpn, level - 1)], level - 1, vpn);
    }
  }

  lemma {:induction false} WalkFrame(pages: seq<Page>, pages': seq<Page>, kernel: set<nat>, e: Pte, level: nat, vpn: nat)
    requires level <= 2 && KernelClosed(pages, kernel) && EntryTidy(pages, kernel, e, level)
    requires Agree(pages, pages', EntryFoot(pages, e, level) + kernel)
    ensures WalkEntry(pages', e, level, vpn) == WalkEntry(pages, e, level, vpn)
    decreases level
  {
    if !e.Owned() || e.Leaf() {
      KernelWalkFrame(pages, pages', kernel, e, level, vpn);
    } else if level > 0 {
      ChildFoot(pages, e.ppn, level - 1, Index(vpn, level - 1));
      WalkFrame(pages, pages', kernel, pages[e.ppn][Index(vpn, level - 1)], level - 1, vpn);
    }
  }

  lemma {:induction false} LookupFrame(pages: seq<Page>, pages': seq<Page>, e: Pte, level: nat, vpn: nat)
    requires level <= 2 && Agree(pages, pages', EntryFoot(pages, e, level))
    ensures LookupEntry(pages', e, level, vpn) == LookupEntry(pages, e, level, vpn)
    decreases level
  {
    if e.Owned() && !e.Leaf() && level > 0 {
      var i := Index(vpn, level - 1);
      ChildFoot(pages, e.ppn, level - 1, i);
      LookupFrame(pages, pages', TableAt(pages, e.ppn)[i], level - 1, vpn);
    }
  }

  lemma {:induction false} GapFrame(pages: seq<Page>, pages': seq<Page>, e: Pte, level: nat, vpn: nat)
    requires level <= 2 && Agree(pages, pages', EntryFoot(pages, e, level))
    ensures GapEntry(pages', e, level, vpn) == GapEntry(pages, e, level, vpn)
    decreases level
  {
    if e.Owned() && !e.Leaf() && level > 0 {
      var i := Index(vpn, level - 1);
      ChildFoot(pages, e.ppn, level - 1, i);
      GapFrame(pages, pages', TableAt(pages, e.ppn)[i], level - 1, vpn);
    }
  }

  /** Entry `i` of table `t` changed, and nothing else that hangs below `t`. */
  ghost predicate EntryChange(pages: seq<Page>, pages': seq<Page>, kernel: set<nat>, t: nat, level: nat, i: nat, e: Pte) {
    && t < |pages| && |pages'| == |pages| && i < PTE_CNT && pages'[t] == pages[t][i := e]
    && EntryTidy(pages', kernel, e, level)
    && (forall j: nat :: j < PTE_CNT && j != i ==>
          && Agree(pages, pages', EntryFoot(pages, pages[t][j], level))
          && EntryFoot(pages', e, level) !! EntryFoot(pages, pages[t][j], level))
  }

  lemma EntryChanged(pages: seq<Page>, pages': seq<Page>, kernel: set<nat>, t: nat, level: nat, i: nat, e: Pte)
    requires Tidy(pages, kernel, t, level) && EntryChange(pages, pages', kernel, t, level, i, e)
    ensures Tidy(pages', kernel, t, level)
    ensures Foot(pages', t, level) == (Foot(pages, t, level) - EntryFoot(pages, pages[t][i], level)) + EntryFoot(pages', e, level)
  {
    forall j: nat | j < PTE_CNT && j != i
      ensures EntryFoot(pages', pages'[t][j], level) == EntryFoot(pages, pages[t][j], level)
      ensures EntryTidy(pages', kernel, pages'[t][j], level)
    {
      EntryFrame(pages, pages', kernel, pages[t][j], level);
    }
    forall p ensures p in Foot(pages', t, level) <==>
        p in (Foot(pages, t, level) - EntryFoot(pages, pages[t][i], level)) + EntryFoot(pages', e, level)
    {
      if p in Foot(pages, t, level) {
        var j: nat :| j < PTE_CNT && p in EntryFoot(pages, TableAt(pages, t)[j], level);
        assert j != i ==> p in EntryFoot(pages', TableAt(pages', t)[j], level);
      }
      if p in Foot(pages', t, level) {
        var j: nat :| j < PTE_CNT && p in EntryFoot(pages', TableAt(pages', t)[j], level);
        assert j != i ==> p in EntryFoot(pages, TableAt(pages, t)[j], level);
      }
      assert p in EntryFoot(pages', e, level) ==> p in EntryFoot(pages', TableAt(pages', t)[i], level);
    }
  }

  /** Translations that do not go through the changed entry stay. */
  lemma OtherWalks(pages: seq<Page>, pages': seq<Page>, kernel: set<nat>, t: nat, level: nat, i: nat, e: Pte, vpn: nat)
    requires Tidy(pages, kernel, t, level) && EntryChange(pages, pages', kernel, t, level, i, e) && level <= 2
    requires KernelClosed(pages, kernel) && Agree(pages, pages', kernel)
    ensures Walk(pages', t, level, vpn) ==
      if Index(vpn, level) == i then WalkEntry(pages', e, level, vpn) else Walk(pages, t, level, vpn)
  {
    var j := Index(vpn, level);
    if j != i {
      WalkFrame(pages, pages', kernel, pages[t][j], level, vpn);
    }
  }

  lemma OtherLookups(pages: seq<Page>, pages': seq<Page>, kernel: set<nat>, t: nat, level: nat, i: nat, e: Pte, vpn: nat)
    requires Tidy(pages, kernel, t, level) && EntryChange(pages, pages', kernel, t, level, i, e) && level <= 2
    ensures Lookup(pages', t, level, vpn) ==
      if Index(vpn, level) == i then LookupEntry(pages', e, level, vpn) else Lookup(pages, t, level, vpn)
  {
    var j := Index(vpn, level);
    if j != i {
      LookupFrame(pages, pages', pages[t][j], level, vpn);
    }
  }

  lemma OtherGaps(pages: seq<Page>, pages': seq<Page>, kernel: set<nat>, t: nat, level: nat, i: nat, e: Pte, vpn: nat)
    requires Tidy(pages, kernel, t, level) && EntryChange(pages, pages', kernel, t, level, i, e) && level <= 2
    ensures Gap(pages', t, level, vpn) ==
      if Index(vpn, level) == i then GapEntry(pages', e, level, vpn) else Gap(pages, t, level, vpn)
  {
    var j := Index(vpn, level);
    if j != i {
      GapFrame(pages, pages', pages[t][j], level, vpn);
    }
  }
}
