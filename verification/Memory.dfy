/** The virtual memory manager: page tables and the page allocator over the same pages. */
module Memory {
  import opened Machine
  import opened Results
  import opened PagePool
  import opened PageTables
  import opened PagePaths
  import opened PageMaps
  import opened PageClones
  import opened PageAccess

  class Manager {
    var pages: seq<Page>
    /** The root table of the active memory space. */
    var root: nat
    const pool: Pool
    ghost const kernel: set<nat>

    constructor (ram: seq<Page>, mainRoot: nat, pool: Pool, ghost kernel: set<nat>)
      ensures pages == ram && root == mainRoot && this.pool == pool && this.kernel == kernel
    {
      this.pages, this.root, this.pool, this.kernel := ram, mainRoot, pool, kernel;
    }

    ghost predicate Ok()
      reads this, pool
    {
      Chunked(pool.chunks) && Space(pages, pool.Free(), kernel, root)
    }

    ghost function See(v: nat): View
      reads this
    {
      ViewOf(pages, root, ROOT_LEVEL, v)
    }

    /** alloc_phys_page; `None` is a kernel panic. */
    method AllocPage() returns (r: Option<nat>)
      requires Chunked(pool.chunks)
      modifies pool
      ensures Chunked(pool.chunks)
      ensures r.None? <==> old(pool.Free()) == {}
      ensures r.None? ==> pool.Free() == {}
      ensures r.Some? ==> r.value in old(pool.Free()) && pool.Free() == old(pool.Free()) - {r.value}
    {
      r := pool.AllocPages(1);
      if r.Some? {
        assert Range(r.value, 1) == {r.value};
      } else if p :| p in pool.Free() {
        InFreeSet(pool.chunks, p);
      }
    }

    method FreePage(p: nat)
      requires Chunked(pool.chunks) && p !in pool.Free() && p > 0
      modifies pool
      ensures Chunked(pool.chunks) && pool.Free() == old(pool.Free()) + {p}
    {
      assert Range(p, 1) == {p};
      pool.FreePages(p, 1);
    }

    /** A zeroed table is hung into an empty entry. */
    method MakeTable(s: nat, ghost vpn: nat, i: nat, ghost target: nat) returns (r: Option<nat>)
      requires Ok() && 0 < target <= 2 && i == Index(vpn, target)
      requires Open(pages, root, ROOT_LEVEL, target, vpn) && s == TableOn(pages, root, ROOT_LEVEL, target, vpn)
      requires !EntryOn(pages, root, ROOT_LEVEL, target, vpn).Valid()
      modifies this`pages, pool
      ensures r.None? <==> old(pool.Free()) == {}
      ensures r.Some? ==>
        && Ok() && Open(pages, root, ROOT_LEVEL, target - 1, vpn) && r.value == TableOn(pages, root, ROOT_LEVEL, target - 1, vpn)
        && SameViews(old(pages), pages, root)
        && r.value in old(pool.Free()) && pool.Free() == old(pool.Free()) - {r.value}
        && Mine(pages, root) == old(Mine(pages, root)) + {r.value}
        && |pages| == old(|pages|) && EntryOn(pages, root, ROOT_LEVEL, target - 1, vpn) == NULL_PTE
        && Made(old(pages), pages, root, {TableKey(vpn, target)})
    {
      hide TableKey, Made, Space, Tidy, Foot, Open, TableOn, Walk, Lookup, FreeSet, Chunked;
      SpaceParts(pages, pool.Free(), kernel, root);
      OnPath(pages, kernel, root, ROOT_LEVEL, target, vpn);
      r := AllocPage();
      if r.Some? {
        TablePlaced(pages, old(pool.Free()), kernel, root, target, vpn, r.value);
        pages := pages[r.value := ZeroPage()];
        pages := pages[s := pages[s][i := TablePte(r.value, false)]];
      }
    }

    /** The next table on the way to `vpn`, which is made if there is none yet. */
    method EnsureTable(s: nat, ghost vpn: nat, i: nat, ghost target: nat) returns (r: Option<nat>)
      requires Ok() && 0 < target <= 2 && i == Index(vpn, target)
      requires Open(pages, root, ROOT_LEVEL, target, vpn) && s == TableOn(pages, root, ROOT_LEVEL, target, vpn)
      requires See(vpn).entry.Some?
      modifies this`pages, pool
      ensures r.None? <==> old(pool.Free()) == {} && !EntryOn(old(pages), root, ROOT_LEVEL, target, vpn).Valid()
      ensures r.Some? ==>
        && Ok() && Open(pages, root, ROOT_LEVEL, target - 1, vpn) && r.value == TableOn(pages, root, ROOT_LEVEL, target - 1, vpn)
        && SameViews(old(pages), pages, root)
        && Mine(pages, root) + pool.Free() == old(Mine(pages, root) + pool.Free())
        && Mine(pages, root) >= old(Mine(pages, root)) && |pages| == old(|pages|)
        && (if EntryOn(old(pages), root, ROOT_LEVEL, target, vpn).Valid() then pages == old(pages) && pool.Free() == old(pool.Free())
            else EntryOn(pages, root, ROOT_LEVEL, target - 1, vpn) == NULL_PTE && |pool.Free()| == |old(pool.Free())| - 1)
        && Made(old(pages), pages, root, StepKeys(old(pages), root, vpn, target))
    {
      MadeNothing(pages, root);
      hide TableKey, Made, Space, Tidy, Foot, Open, TableOn, Walk, Lookup, FreeSet, Chunked, KernelClosed, EntryFoot, EntryTidy, Span, Index;
      SpaceParts(pages, pool.Free(), kernel, root);
      OnPath(pages, kernel, root, ROOT_LEVEL, target, vpn);
      if !pages[s][i].Valid() {
        r := MakeTable(s, vpn, i, target);
      } else {
        OpenDown(pages, pool.Free(), kernel, root, target, vpn);
        r := Some(pages[s][i].ppn);
      }
    }

    ghost predicate Loose(pp: nat)
      reads this, pool
    {
      LooseFrame(pages, pool.Free(), kernel, root, pp)
    }

    /** The two upper steps of ptab_insert: the level-0 table for a page, with the tables that are missing. */
    method EnsureTables(vpn: nat) returns (r: Option<nat>)
      requires Ok() && See(vpn).entry.Some?
      modifies this`pages, pool
      ensures r.Some? <==> |old(pool.Free())| >= Missing(old(pages), root, vpn)
      ensures r.Some? ==>
        && Ok() && Open(pages, root, ROOT_LEVEL, 0, vpn) && r.value == TableOn(pages, root, ROOT_LEVEL, 0, vpn)
        && SameViews(old(pages), pages, root) && |pages| == |old(pages)|
        && Mine(pages, root) + pool.Free() == old(Mine(pages, root) + pool.Free())
        && Mine(pages, root) >= old(Mine(pages, root)) && TablesMade(old(pages), pages, root, vpn)
        && |pool.Free()| == |old(pool.Free())| - Missing(old(pages), root, vpn)
    {
      hide Space, Tidy, Foot, Open, TableOn, ViewOf, Mine, SameViews, FreeSet, Chunked, Made, TableKey, Needs, TablesMade;
      OpenTop(pages, root, vpn);
      SpaceParts(pages, pool.Free(), kernel, root);
      var t1 := EnsureTable(root, vpn, Index(vpn, 2), 2);
      if t1.None? {
        return None;
      }
      ghost var one := pages;
      SameViewsTransitive(old(pages), old(pages), one, root, vpn);
      r := EnsureTable(t1.value, vpn, Index(vpn, 1), 1);
      if r.Some? {
        SameViewsTransitive(old(pages), one, pages, root, vpn);
        TwoSteps(old(pages), one, pages, kernel, root, vpn);
      }
    }

    /** ptab_insert: the page is mapped to a frame, with the tables it needs; `false` is a kernel panic. */
    method PtabInsert(vpn: nat, pp: nat, flags: Flags) returns (ok: bool)
      requires Ok() && See(vpn).entry.Some? && Loose(pp)
      requires (flags.r || flags.w || flags.x) && !flags.g
      modifies this`pages, pool
      ensures ok <==> |old(pool.Free())| >= Missing(old(pages), root, vpn)
      ensures ok ==>
        && Ok() && |pages| == old(|pages|)
        && Remapped(old(pages), pages, root, vpn, LeafView(LeafPte(pp, flags)))
        && Mine(pages, root) + pool.Free() == (old(Mine(pages, root) + pool.Free()) - Frame(old(See(vpn)))) + {pp}
        && TablesMade(old(pages), pages, root, vpn) && |pool.Free()| == |old(pool.Free())| - Missing(old(pages), root, vpn)
    {
      hide Space, Tidy, Foot, Open, TableOn, ViewOf, Mine, Remapped, SameViews, FreeSet, Chunked, Made, Missing, TablesMade;
      var t0 := EnsureTables(vpn);
      if t0.None? {
        return false;
      }
      ghost var mid := pages;
      SameViewsTransitive(old(pages), old(pages), mid, root, vpn);
      PutLeaf(t0.value, vpn, Index(vpn, 0), LeafPte(pp, flags));
      RemappedFrom(old(pages), mid, pages, root, vpn, LeafView(LeafPte(pp, flags)));
      NoneMade(old(pages), mid, pages, root, vpn);
      return true;
    }

    /** The level-0 entry of a page is overwritten with one that maps a loose frame or its own. */
    method PutLeaf(s: nat, ghost vpn: nat, i: nat, e: Pte)
      requires Ok() && i == Index(vpn, 0) && e.Owned() && e.Leaf() && See(vpn).entry.Some?
      requires Open(pages, root, ROOT_LEVEL, 0, vpn) && s == TableOn(pages, root, ROOT_LEVEL, 0, vpn)
      requires Loose(e.ppn) || Frame(See(vpn)) == {e.ppn}
      modifies this`pages
      ensures Ok() && |pages| == old(|pages|) && Remapped(old(pages), pages, root, vpn, LeafView(e)) && Made(old(pages), pages, root, {})
      ensures Mine(pages, root) == (old(Mine(pages, root)) - old(Frame(See(vpn)))) + {e.ppn}
      ensures old(Frame(See(vpn))) <= old(Mine(pages, root)) && old(Mine(pages, root)) !! pool.Free()
    {
      hide Space, Tidy, Foot, Open, TableOn, Walk, Lookup, FreeSet, Chunked, Made;
      SeenThrough(pages, root, vpn);
      SpaceParts(pages, pool.Free(), kernel, root);
      OnPath(pages, kernel, root, ROOT_LEVEL, 0, vpn);
      LeafPlaced(pages, pool.Free(), pool.Free(), kernel, root, vpn, e);
      pages := pages[s := pages[s][i := e]];
    }

    /** map_page: the page that holds the address is mapped to the frame at `pp`. */
    method MapPage(vma: nat, pp: nat, flags: Flags) returns (ok: bool)
      requires Ok() && See(vma / PAGE_SIZE).entry.Some? && Loose(pp / PAGE_SIZE)
      requires (flags.r || flags.w || flags.x) && !flags.g
      modifies this`pages, pool
      ensures ok <==> |old(pool.Free())| >= Missing(old(pages), root, vma / PAGE_SIZE)
      ensures ok ==>
        && Ok() && |pages| == old(|pages|)
        && Remapped(old(pages), pages, root, vma / PAGE_SIZE, LeafView(LeafPte(pp / PAGE_SIZE, flags)))
        && Mine(pages, root) + pool.Free() ==
             (old(Mine(pages, root) + pool.Free()) - Frame(old(See(vma / PAGE_SIZE)))) + {pp / PAGE_SIZE}
        && TablesMade(old(pages), pages, root, vma / PAGE_SIZE)
        && |pool.Free()| == |old(pool.Free())| - Missing(old(pages), root, vma / PAGE_SIZE)
      ensures ok ==> forall acc ::
        UserFrame(pages, root, vma / PAGE_SIZE, acc) == if Asks(flags, acc) then Some(pp / PAGE_SIZE) else None
    {
      hide Missing, TablesMade, Mine, UserFrame, LooseFrame, Space, FreeSet;
      ok := PtabInsert(vma / PAGE_SIZE, pp / PAGE_SIZE, flags);
      if ok {
        MappedAccess(old(pages), pages, root, vma / PAGE_SIZE, pp / PAGE_SIZE, flags);
      }
    }

    /** map_range: consecutive pages are mapped to consecutive frames; `false` is a kernel panic, which comes exactly
        when fewer pages are free than the tables that are missing on the way to any page of the range. */
    method MapRange(vma: nat, size: nat, pp: nat, flags: Flags) returns (ok: bool)
      requires Ok() && (size + 4095) / PAGE_SIZE < 0x800_0000
      requires AllReady(pages, pool.Free(), kernel, root, vma / PAGE_SIZE, pp / PAGE_SIZE, 0, (size + 4095) / PAGE_SIZE)
      requires (flags.r || flags.w || flags.x) && !flags.g
      modifies this`pages, pool
      ensures ok <==> |old(pool.Free())| >= |RangeNeeds(old(pages), root, vma / PAGE_SIZE, (size + 4095) / PAGE_SIZE)|
      ensures ok ==>
        && Ok() && |pages| == old(|pages|)
        && RangeRemapped(old(pages), pages, root, vma / PAGE_SIZE, (size + 4095) / PAGE_SIZE, ToFrames(pp / PAGE_SIZE, flags))
        && |pool.Free()| == |old(pool.Free())| - |RangeNeeds(old(pages), root, vma / PAGE_SIZE, (size + 4095) / PAGE_SIZE)|
      ensures ok ==> forall k: nat, acc :: k < (size + 4095) / PAGE_SIZE ==>
        UserFrameAt(pages, root, vma / PAGE_SIZE, k, acc) == if Asks(flags, acc) then Some(pp / PAGE_SIZE + k) else None
    {
      hide UserFrameAt, Asks, Space, Tidy, Foot, ViewOf, RangeRemapped, FreeSet, Chunked, AllReady, Mine, Made, Missing, RangeNeeds, KernelClosed;
      ghost var base, n, frame := vma / PAGE_SIZE, (size + 4095) / PAGE_SIZE, pp / PAGE_SIZE;
      RangeStart(pages, root, base, ToFrames(frame, flags));
      RangeNeedsNone(pages, root, base);
      var i := 0;
      ghost var k: nat := 0;
      while i < size
        invariant i == PAGE_SIZE * k && k <= n && Ok() && |pages| == old(|pages|)
        invariant RangeRemapped(old(pages), pages, root, base, k, ToFrames(frame, flags))
        invariant AllReady(pages, pool.Free(), kernel, root, base, frame, k, n)
        invariant Made(old(pages), pages, root, RangeNeeds(old(pages), root, base, k))
        invariant |pool.Free()| == |old(pool.Free())| - |RangeNeeds(old(pages), root, base, k)|
      {
        PageNumber(vma, i, k, size);
        PageNumber(pp, i, k, size);
        RangeNext(old(pages), pages, pool.Free(), kernel, root, base, frame, k, n);
        ok := MapNext(vma + i, pp + i, flags, old(pages), base, frame, k, n);
        if !ok {
          return;
        }
        i, k := i + PAGE_SIZE, k + 1;
      }
      PageNumber(vma, i, k, size);
      RangeAccess(old(pages), pages, root, base, n, frame, flags);
      ok := true;
    }

    /** One round of the loop of map_range. */
    method MapNext(vma: nat, pp: nat, flags: Flags, ghost was: seq<Page>, ghost base: nat, ghost frame: nat, ghost k: nat, ghost n: nat)
      returns (ok: bool)
      requires Ok() && |pages| == |was| && vma / PAGE_SIZE == base + k && pp / PAGE_SIZE == frame + k && k < n < 0x800_0000
      requires RangeRemapped(was, pages, root, base, k, ToFrames(frame, flags)) && (flags.r || flags.w || flags.x) && !flags.g
      requires AllReady(pages, pool.Free(), kernel, root, base, frame, k, n)
      requires Made(was, pages, root, RangeNeeds(was, root, base, k))
      modifies this`pages, pool
      ensures ok <==> |old(pool.Free())| >= Missing(old(pages), root, base + k)
      ensures ok ==>
        && Ok() && |pages| == |was| && RangeRemapped(was, pages, root, base, k + 1, ToFrames(frame, flags))
        && AllReady(pages, pool.Free(), kernel, root, base, frame, k + 1, n)
        && Made(was, pages, root, RangeNeeds(was, root, base, k + 1))
        && |pool.Free()| == |old(pool.Free())| - Missing(old(pages), root, base + k)
    {
      hide UserFrame, Asks, LooseFrame, Space, Tidy, Foot, ViewOf, Remapped, RangeRemapped, FreeSet, Chunked, AllReady, Mine, Made, Needs,
        Missing, RangeNeeds, TablesMade, KernelClosed;
      ghost var before, free := pages, pool.Free();
      SpaceParts(before, free, kernel, root);
      FirstReady(before, free, kernel, root, base, frame, k, n);
      ok := MapPage(vma, pp, flags);
      if ok {
        RangeNeedsStep(was, before, pages, root, base, k);
        RangeStep(was, before, pages, root, base, k, ToFrames(frame, flags));
        ReadyAhead(before, free, pages, pool.Free(), kernel, root, base, frame, k, n, LeafView(LeafPte(frame + k, flags)));
      }
    }

    /** The two upper steps of the loops that look a page up. */
    method FindLeafTable(vpn: nat) returns (s: Option<nat>)
      requires KernelClosed(pages, kernel) && TablesInRam(pages, kernel, root, ROOT_LEVEL)
      ensures s == LeafTable(pages, root, ROOT_LEVEL, vpn) && (s.Some? ==> TablesInRam(pages, kernel, s.value, 0))
    {
      hide Tidy;
      var e2 := pages[root][Index(vpn, 2)];
      if e2.Valid() && !e2.Leaf() {
        TablesInRamBelow(pages, kernel, root, 2, Index(vpn, 2));
        var e1 := pages[e2.ppn][Index(vpn, 1)];
        if e1.Valid() && !e1.Leaf() {
          TablesInRamBelow(pages, kernel, e2.ppn, 1, Index(vpn, 1));
          return Some(e1.ppn);
        }
      }
      s := None;
    }

    /** The flags of a mapped page are replaced. */
    method SetPageFlags(vpn: nat, flags: Flags)
      requires Ok() && See(vpn).entry.Some? && (flags.r || flags.w || flags.x) && !flags.g
      modifies this`pages
      ensures Ok() && |pages| == old(|pages|) && Mine(pages, root) == old(Mine(pages, root))
      ensures Remapped(old(pages), pages, root, vpn, Reflagged(flags)(0, old(See(vpn))))
    {
      hide Space, Tidy, Foot, Open, TableOn, FreeSet, Chunked, SamePath, Walk;
      SpaceParts(pages, pool.Free(), kernel, root);
      LeafTablePrivate(pages, kernel, root, ROOT_LEVEL, vpn);
      AliasesSeenAlike(pages, root, vpn);
      RootInRam(pages, kernel, root);
      var s := FindLeafTable(vpn);
      if s.Some? {
        SeenThrough(pages, root, vpn);
        var e := pages[s.value][Index(vpn, 0)];
        if e.Valid() {
          PutLeaf(s.value, vpn, Index(vpn, 0), LeafPte(e.ppn, flags));
        }
      }
    }

    /** set_range_flags: every mapped page of the range gets the flags. A start that is not page-aligned is a
        kernel panic (`false`). */
    method SetRangeFlags(vp: nat, size: nat, flags: Flags) returns (ok: bool)
      requires Ok() && (size + 4095) / PAGE_SIZE < 0x800_0000 && (flags.r || flags.w || flags.x) && !flags.g
      requires AllPrivate(pages, root, vp / PAGE_SIZE, (size + 4095) / PAGE_SIZE)
      modifies this`pages
      ensures ok <==> vp % PAGE_SIZE == 0
      ensures Ok() && |pages| == old(|pages|) && Mine(pages, root) == old(Mine(pages, root))
      ensures ok ==> RangeRemapped(old(pages), pages, root, vp / PAGE_SIZE, (size + 4095) / PAGE_SIZE, Reflagged(flags))
      ensures ok ==> forall k: nat, acc :: k < (size + 4095) / PAGE_SIZE ==>
        var was := old(See(vp / PAGE_SIZE + k)).entry;
        UserFrameAt(pages, root, vp / PAGE_SIZE, k, acc) ==
          if was.Some? && was.value.Valid() && Asks(flags, acc) then Some(was.value.ppn) else None
    {
      hide UserFrameAt, Space, Tidy, Foot, ViewOf, Remapped, RangeRemapped, FreeSet, Chunked, Mine;
      if vp % PAGE_SIZE != 0 {
        return false;
      }
      ghost var base, n, f := vp / PAGE_SIZE, (size + 4095) / PAGE_SIZE, Reflagged(flags);
      RangeStart(pages, root, base, f);
      var i := 0;
      ghost var k: nat := 0;
      while i < size
        invariant i == PAGE_SIZE * k && k <= n && Ok() && |pages| == old(|pages|) && Mine(pages, root) == old(Mine(pages, root))
        invariant RangeRemapped(old(pages), pages, root, base, k, f)
      {
        ghost var before := pages;
        RangeAhead(old(pages), pages, root, base, k, f, k);
        assert PrivateAt(old(pages), root, base, k);
        PageNumber(vp, i, k, size);
        SetPageFlags((vp + i) / PAGE_SIZE, flags);
        RangeStep(old(pages), before, pages, root, base, k, f);
        i, k := i + PAGE_SIZE, k + 1;
      }
      PageNumber(vp, i, k, size);
      SpaceParts(old(pages), pool.Free(), kernel, root);
      RangeReflagged(old(pages), pages, kernel, root, base, n, flags);
      ok := true;
    }

    /** A mapped page is unmapped and its frame is freed. */
    method UnmapPage(vpn: nat)
      requires Ok() && See(vpn).entry.Some?
      modifies this`pages, pool
      ensures Ok() && |pages| == old(|pages|)
      ensures pool.Free() == old(pool.Free()) + Frame(old(See(vpn))) && Mine(pages, root) == old(Mine(pages, root)) - Frame(old(See(vpn)))
      ensures Frame(old(See(vpn))) <= old(Mine(pages, root))
      ensures Remapped(old(pages), pages, root, vpn, LeafView(NULL_PTE))
    {
      hide Space, Tidy, Foot, Open, TableOn, FreeSet, Chunked, SamePath, Walk;
      ghost var before, free := pages, pool.Free();
      SpaceParts(pages, free, kernel, root);
      LeafTablePrivate(pages, kernel, root, ROOT_LEVEL, vpn);
      AliasesSeenAlike(pages, root, vpn);
      WalkIsEntry(pages, kernel, root, ROOT_LEVEL, vpn);
      RootInRam(pages, kernel, root);
      var s := FindLeafTable(vpn);
      if s.Some? {
        SeenThrough(pages, root, vpn);
        OnPath(pages, kernel, root, ROOT_LEVEL, 0, vpn);
        var e := pages[s.value][Index(vpn, 0)];
        if e.Valid() {
          pages := pages[s.value := pages[s.value][Index(vpn, 0) := NULL_PTE]];
          FreePage(e.ppn);
          LeafPlaced(before, free, pool.Free(), kernel, root, vpn, NULL_PTE);
        }
      }
    }

    /** unmap_and_free_range: every page of the range is unmapped, and the frames it was mapped to are freed. */
    method UnmapAndFreeRange(vp: nat, size: nat)
      requires Ok() && (size + 4095) / PAGE_SIZE < 0x800_0000
      requires AllPrivate(pages, root, vp / PAGE_SIZE, (size + 4095) / PAGE_SIZE)
      modifies this`pages, pool
      ensures Ok() && |pages| == old(|pages|)
      ensures RangeRemapped(old(pages), pages, root, vp / PAGE_SIZE, (size + 4095) / PAGE_SIZE, Unmapped())
      ensures pool.Free() == old(pool.Free()) + old(Frames(pages, root, vp / PAGE_SIZE, (size + 4095) / PAGE_SIZE))
      ensures Mine(pages, root) + pool.Free() == old(Mine(pages, root) + pool.Free())
      ensures forall k: nat, acc :: k < (size + 4095) / PAGE_SIZE ==> UserFrameAt(pages, root, vp / PAGE_SIZE, k, acc) == None
    {
      hide UserFrameAt, Space, Tidy, Foot, ViewOf, Remapped, RangeRemapped, FreeSet, Chunked, Mine, Frame;
      ghost var base, n, f := vp / PAGE_SIZE, (size + 4095) / PAGE_SIZE, Unmapped();
      RangeStart(pages, root, base, f);
      var i := 0;
      ghost var k: nat := 0;
      while i < size
        invariant i == PAGE_SIZE * k && k <= n && Ok() && |pages| == old(|pages|)
        invariant RangeRemapped(old(pages), pages, root, base, k, f)
        invariant pool.Free() == old(pool.Free()) + old(Frames(pages, root, base, k))
        invariant Mine(pages, root) + pool.Free() == old(Mine(pages, root) + pool.Free())
      {
        ghost var before := pages;
        RangeAhead(old(pages), pages, root, base, k, f, k);
        assert PrivateAt(old(pages), root, base, k);
        PageNumber(vp, i, k, size);
        UnmapPage((vp + i) / PAGE_SIZE);
        RangeStep(old(pages), before, pages, root, base, k, f);
        i, k := i + PAGE_SIZE, k + 1;
      }
      PageNumber(vp, i, k, size);
      RangeUnmapped(old(pages), pages, root, base, n);
    }

    /** ptab_reset: every private entry of the table is cleared, and each page below is freed exactly once. */
    method PtabReset(t: nat, level: nat)
      requires level <= 2 && Chunked(pool.chunks)
      requires Tidy(pages, kernel, t, level) && t !in Foot(pages, t, level) && Foot(pages, t, level) !! pool.Free()
      modifies this`pages, pool
      ensures Chunked(pool.chunks) && pool.Free() == old(pool.Free()) + old(Foot(pages, t, level))
      ensures ChangedIn(old(pages), pages, {t} + old(Foot(pages, t, level)))
      ensures forall i: nat :: i < PTE_CNT ==> pages[t][i] == if old(pages)[t][i].Owned() then NULL_PTE else old(pages)[t][i]
      decreases level
    {
      hide Chunked, FreeSet, Foot, FootUpTo, EntryFoot, Tidy, EntryTidy;
      ghost var was, free := pages, pool.Free();
      FootUpToEnds(was, t, level);
      TidyInRam(was, kernel, t, level);
      for i := 0 to PTE_CNT
        invariant Chunked(pool.chunks) && pool.Free() == free + FootUpTo(was, t, level, i)
        invariant ChangedIn(was, pages, {t} + FootUpTo(was, t, level, i))
        invariant forall j: nat :: j < i ==> pages[t][j] == if was[t][j].Owned() then NULL_PTE else was[t][j]
        invariant forall j: nat :: i <= j < PTE_CNT ==> pages[t][j] == was[t][j]
      {
        var e := pages[t][i];
        UnchangedEntry(was, pages, kernel, t, level, i);
        FootUpToNext(was, t, level, i);
        if e.Valid() && !e.Global() {
          TableEntry(pages, kernel, e, level);
          if !e.Leaf() {
            PtabReset(e.ppn, level - 1);
          }
          FreePage(e.ppn);
          pages := pages[t := pages[t][i := NULL_PTE]];
        } else {
          NothingOwned(was, e, level);
        }
      }
    }

    /** One round of ptab_clone; `false` is a kernel panic. */
    method CloneEntry(t': nat, e: Pte, n: nat, level: nat) returns (ok: bool)
      requires level <= 2 && n < PTE_CNT && t' < |pages| && Chunked(pool.chunks)
      requires EntryTidy(pages, kernel, e, level) && t' !in EntryFoot(pages, e, level)
      requires pool.Free() !! {t'} + EntryFoot(pages, e, level) && (forall q :: q in pool.Free() ==> 0 < q < |pages|)
      modifies this`pages, pool
      ensures ok <==> |old(pool.Free())| >= old(EntrySize(pages, e, level))
      ensures ok ==>
        && Chunked(pool.chunks)
        && EntryCopied(old(pages), pages, kernel, e, t', level, n, old(pool.Free()), pool.Free(), old(EntrySize(pages, e, level)))
      decreases level, 0
    {
      hide Chunked, FreeSet, Foot, FootUpTo, Tidy, TidyUpTo, EntryCopied, Size, CanCopy, Copying;
      ghost var mid, free := pages, pool.Free();
      if !e.Valid() {
        CopiedPlain(mid, kernel, e, NULL_PTE, t', level, n, free);
        pages := pages[t' := pages[t'][n := NULL_PTE]];
        return true;
      }
      if e.Global() {
        CopiedPlain(mid, kernel, e, e, t', level, n, free);
        pages := pages[t' := pages[t'][n := e]];
        return true;
      }
      TableEntry(mid, kernel, e, level);
      var p := AllocPage();
      if p.None? {
        return false;
      }
      if e.Leaf() {
        CopiedFrame(mid, kernel, e, t', level, n, free, p.value);
        pages := pages[p.value := pages[e.ppn]];
        pages := pages[t' := pages[t'][n := LeafPte(p.value, Permissions(e.flags))]];
        return true;
      }
      pages := pages[p.value := ZeroPage()];
      pages := pages[t' := pages[t'][n := TablePte(p.value, false)]];
      ghost var hung := pages;
      CanCopyBelow(mid, hung, kernel, e, t', level, n, free, p.value);
      ok := PtabClone(p.value, e.ppn, level - 1);
      if ok {
        CopiedTable(mid, hung, pages, kernel, e, t', level, n, free, p.value, pool.Free());
      }
    }

    /** ptab_clone: table `t'` becomes a copy of table `t`; `false` is a kernel panic. */
    method PtabClone(t': nat, t: nat, level: nat) returns (ok: bool)
      requires level <= 2 && Chunked(pool.chunks) && CanCopy(pages, kernel, t, t', level, pool.Free())
      modifies this`pages, pool
      ensures ok <==> |old(pool.Free())| >= old(Size(pages, t, level, PTE_CNT))
      ensures ok ==> Chunked(pool.chunks) && Copying(old(pages), pages, kernel, t, t', level, PTE_CNT, old(pool.Free()), pool.Free())
      decreases level, 1
    {
      hide Chunked, FreeSet, Foot, FootUpTo, Tidy, TidyUpTo, EntryTidy, EntryFoot, EntryCopied, EntrySize, Size;
      ghost var was, free := pages, pool.Free();
      CopyStart(was, kernel, t, t', level, free);
      for i := 0 to PTE_CNT
        invariant Chunked(pool.chunks) && Copying(was, pages, kernel, t, t', level, i, free, pool.Free())
      {
        ghost var mid, freeMid := pages, pool.Free();
        OriginalKept(was, pages, kernel, t, t', level, i, free, freeMid);
        SizeStep(was, t, level, i);
        ok := CloneEntry(t', pages[t][i], i, level);
        if !ok {
          return;
        }
        CopyNext(was, mid, pages, kernel, t, t', level, i, free, freeMid, pool.Free());
      }
      ok := true;
    }

    /** clone_active_mspace: a second space whose pages translate alike, with fresh frames of equal contents and
        the shared entries unchanged. `None` is a kernel panic. */
    method CloneActive() returns (r: Option<nat>)
      requires Ok()
      modifies this`pages, pool
      ensures r.Some? <==> |old(pool.Free())| >= 1 + |Foot(old(pages), root, ROOT_LEVEL)|
      ensures r.Some? ==>
        && Ok() && Space(pages, pool.Free(), kernel, r.value) && |pages| == |old(pages)|
        && pool.Free() <= old(pool.Free()) && Mine(pages, r.value) == old(pool.Free()) - pool.Free()
        && Mine(pages, root) == Mine(old(pages), root) && ClonedSpace(pages, kernel, root, r.value)
        && SameViews(old(pages), pages, root) && ChangedIn(old(pages), pages, old(pool.Free()) - pool.Free())
    {
      hide Chunked, FreeSet, Space, Foot, FootUpTo, Size, CanCopy, ClonedSpace, SameViews;
      ghost var was, free := pages, pool.Free();
      SpaceParts(was, free, kernel, root);
      r := AllocPage();
      if r.None? {
        return;
      }
      ReadyToCopy(was, was[r.value := ZeroPage()], free, kernel, root, r.value);
      pages := pages[r.value := ZeroPage()];
      var ok := PtabClone(r.value, root, ROOT_LEVEL);
      if !ok {
        return None;
      }
      CopyIsSpace(was, pages, free, pool.Free(), kernel, root, r.value);
    }

    /** reset_active_mspace: nothing private is left in the active space, and all its pages but the root are free. */
    method ResetActive()
      requires Ok()
      modifies this`pages, pool
      ensures Ok() && Mine(pages, root) == {root} && pool.Free() == old(pool.Free()) + Foot(old(pages), root, ROOT_LEVEL)
      ensures Unseen(old(pages), pages, root)
    {
      hide Chunked, FreeSet, Foot, Tidy, FootUpTo, KernelClosed;
      ghost var was, free := pages, pool.Free();
      SpaceParts(was, free, kernel, root);
      PtabReset(root, ROOT_LEVEL);
      ClearedSpace(was, pages, free, kernel, root);
    }

    /** discard_active_mspace: the main space becomes active; every page of the space left behind is freed. */
    method DiscardActive(mainRoot: nat)
      requires Ok() && Space(pages, pool.Free(), kernel, mainRoot) && (root == mainRoot || Mine(pages, root) !! Mine(pages, mainRoot))
      modifies this, pool
      ensures root == mainRoot && Ok() && |pages| == |old(pages)|
      ensures old(root) == mainRoot ==> pages == old(pages) && pool.Free() == old(pool.Free())
      ensures old(root) != mainRoot ==> pool.Free() == old(pool.Free()) + old(Mine(pages, root))
      ensures SameViews(old(pages), pages, mainRoot) && ChangedIn(old(pages), pages, old(Mine(pages, root)))
    {
      hide Chunked, FreeSet, Foot, Tidy, FootUpTo, KernelClosed, ViewOf, Space;
      ghost var was, free := pages, pool.Free();
      var left := root;
      SpaceParts(was, free, kernel, left);
      SpaceParts(was, free, kernel, mainRoot);
      if left == mainRoot {
        return;
      }
      root := mainRoot;
      PtabReset(left, ROOT_LEVEL);
      FreePage(left);
      TidyInRam(was, kernel, left, ROOT_LEVEL);
      FootInRam(was, kernel, left, ROOT_LEVEL);
      SpaceKept(was, pages, free, pool.Free(), kernel, mainRoot, Mine(was, left));
    }

    /** switch_mspace. */
    method SwitchTo(other: nat) returns (prev: nat)
      modifies this`root
      ensures prev == old(root) && root == other
    {
      prev := root;
      root := other;
    }

    /** A space that is cloned, entered and discarded leaves the free pages, and the space it was cloned from with
        every page of it, tables and frames, as they were. */
    method CloneAndDiscard(mainRoot: nat) returns (ok: bool)
      requires Ok() && Space(pages, pool.Free(), kernel, mainRoot) && mainRoot !in pool.Free()
      requires root == mainRoot || Mine(pages, root) !! Mine(pages, mainRoot)
      modifies this, pool
      ensures ok <==> |old(pool.Free())| >= 1 + |Foot(old(pages), old(root), ROOT_LEVEL)|
      ensures ok ==>
        && root == mainRoot && Ok() && pool.Free() == old(pool.Free())
        && Space(pages, pool.Free(), kernel, old(root)) && SameViews(old(pages), pages, old(root))
        && |pages| == |old(pages)| && (forall q :: q in old(Mine(pages, root)) && q < |pages| ==> pages[q] == old(pages)[q])
    {
      hide Chunked, FreeSet, Space, Foot, ViewOf, ClonedSpace, KernelClosed, Tidy, Mine;
      ghost var was, free, parent := pages, pool.Free(), root;
      SpaceParts(was, free, kernel, root);
      SpaceParts(was, free, kernel, mainRoot);
      var copy := CloneActive();
      if copy.None? {
        return false;
      }
      ghost var cloned, left := pages, pool.Free();
      SpaceParts(cloned, left, kernel, parent);
      SpaceParts(cloned, left, kernel, copy.value);
      SpaceKept(was, cloned, free, left, kernel, mainRoot, free - left);
      var prev := SwitchTo(copy.value);
      RootIsMine(pages, mainRoot);
      RootIsMine(pages, copy.value);
      DiscardActive(mainRoot);
      SpaceParts(pages, pool.Free(), kernel, mainRoot);
      SpaceKept(cloned, pages, left, pool.Free(), kernel, parent, free - left);
      SameViewsTransitive(was, cloned, pages, parent, 0);
      ok := true;
    }

    /** One round of the loop of validate_vptr. */
    method CheckPage(curr: nat, want: Flags) returns (r: int)
      requires curr < ADDRESSES && curr / PAGE_SIZE * PAGE_SIZE == curr
      requires KernelClosed(pages, kernel) && TablesInRam(pages, kernel, root, ROOT_LEVEL)
      ensures r == PageFault(pages, root, curr / PAGE_SIZE, want) && r in {0, EBADFMT, EINVAL}
    {
      hide Tidy, KernelClosed, TablesInRam, LeafTable, Index;
      if !WellFormed(curr) {
        return EBADFMT;
      }
      var s := FindLeafTable(curr / PAGE_SIZE);
      if s.None? {
        return EBADFMT;
      }
      TablesInRamIs(pages, kernel, s.value);
      var e := pages[s.value][Index(curr / PAGE_SIZE, 0)];
      if !e.Valid() || !e.Leaf() {
        return EBADFMT;
      }
      r := if Includes(e.flags, want) then 0 else EINVAL;
    }

    /** validate_vptr: the range does not wrap around and all its pages may be used as asked; for an end in the
        topmost page the page address wraps around and the answer is an error. */
    method ValidateVptr(vp: nat, len: nat, want: Flags) returns (r: int)
      requires vp < ADDRESSES && len < ADDRESSES && KernelClosed(pages, kernel) && TablesInRam(pages, kernel, root, ROOT_LEVEL)
      ensures r == 0 <==>
        && vp + len <= ADDRESSES - PAGE_SIZE
        && forall p :: vp / PAGE_SIZE <= p && p * PAGE_SIZE < vp + len ==> PageFault(pages, root, p, want) == 0
      ensures vp + len >= ADDRESSES ==> r == ENOMEM
      ensures vp + len <= ADDRESSES - PAGE_SIZE ==> r == FirstFault(pages, root, vp / PAGE_SIZE, vp + len, want)
      ensures ADDRESSES - PAGE_SIZE < vp + len < ADDRESSES ==> r == EBADFMT || r == EINVAL
    {
      hide PageFault, KernelClosed, TablesInRam;
      if vp + len <= ADDRESSES - PAGE_SIZE {
        NoFault(pages, root, vp / PAGE_SIZE, vp + len, want);
      }
      if (vp + len) % ADDRESSES < vp {
        return ENOMEM;
      }
      var end := (vp + len) % ADDRESSES;
      var curr: nat := vp / PAGE_SIZE * PAGE_SIZE;
      ghost var wrapped := false;
      while curr < end
        invariant 0 <= curr < ADDRESSES && curr / PAGE_SIZE * PAGE_SIZE == curr
        invariant wrapped ==> end > ADDRESSES - PAGE_SIZE && curr <= 0x40_0000_0000
        invariant !wrapped ==> FirstFault(pages, root, curr / PAGE_SIZE, end, want) == FirstFault(pages, root, vp / PAGE_SIZE, end, want)
        decreases !wrapped, ADDRESSES - curr
      {
        var fault := CheckPage(curr, want);
        if fault != 0 {
          return fault;
        }
        if wrapped {
          LowPage(pages, root, curr, want);
        } else {
          wrapped := curr + PAGE_SIZE == ADDRESSES;
        }
        curr := (curr + PAGE_SIZE) % ADDRESSES;
      }
      r := 0;
    }
  }

  /** Page addresses from 2^38 on fail, up to the topmost 2^38. */
  lemma LowPage(pages: seq<Page>, root: nat, curr: nat, want: Flags)
    requires curr <= 0x40_0000_0000 && curr / PAGE_SIZE * PAGE_SIZE == curr
    requires PageFault(pages, root, curr / PAGE_SIZE, want) == 0
    ensures curr < 0x40_0000_0000
  {
  }

  lemma TablesInRamIs(pages: seq<Page>, kernel: set<nat>, t: nat)
    requires TablesInRam(pages, kernel, t, 0)
    ensures t < |pages|
  {
  }

  ghost predicate PrivateAt(pages: seq<Page>, root: nat, base: nat, j: nat) {
    ViewOf(pages, root, ROOT_LEVEL, base + j).entry.Some?
  }

  /** The `n` pages from `base` on belong to this space: no kernel table is on their way. */
  ghost predicate AllPrivate(pages: seq<Page>, root: nat, base: nat, n: nat) {
    forall j: nat :: j < n ==> PrivateAt(pages, root, base, j)
  }

  /** The frames of `n` pages from `base` on. */
  ghost function Frames(pages: seq<Page>, root: nat, base: nat, n: nat): set<nat> {
    if n == 0 then {} else Frames(pages, root, base, n - 1) + Frame(ViewOf(pages, root, ROOT_LEVEL, base + n - 1))
  }

  ghost function Unmapped(): (nat, View) -> View {
    (k: nat, view: View) => LeafView(NULL_PTE)
  }

  lemma RootInRam(pages: seq<Page>, kernel: set<nat>, root: nat)
    requires Tidy(pages, kernel, root, ROOT_LEVEL)
    ensures TablesInRam(pages, kernel, root, ROOT_LEVEL)
  {
  }

  lemma AliasesSeenAlike(pages: seq<Page>, root: nat, vpn: nat)
    ensures Remapped(pages, pages, root, vpn, ViewOf(pages, root, ROOT_LEVEL, vpn))
  {
    hide ViewOf, SamePath;
    forall v | SamePath(v, vpn, ROOT_LEVEL, 0) ensures ViewOf(pages, root, ROOT_LEVEL, v) == ViewOf(pages, root, ROOT_LEVEL, vpn) {
      SamePathDigits(v, vpn);
      SameDigitsSameView(pages, root, ROOT_LEVEL, v, vpn);
    }
  }

  /** A mapped page keeps its frame and gets the flags; an unmapped page stays unmapped. */
  ghost function Reflagged(flags: Flags): (nat, View) -> View {
    (k: nat, view: View) =>
      if view.entry.Some? && view.entry.value.Valid() then LeafView(LeafPte(view.entry.value.ppn, flags)) else view
  }

  /** The tables that one step makes. */
  ghost function StepKeys(pages: seq<Page>, root: nat, vpn: nat, target: nat): set<seq<nat>>
    requires target <= 2
  {
    if EntryOn(pages, root, ROOT_LEVEL, target, vpn).Valid() then {} else {TableKey(vpn, target)}
  }

  /** The two steps that make tables, together. */
  lemma TwoSteps(a: seq<Page>, b: seq<Page>, c: seq<Page>, kernel: set<nat>, root: nat, vpn: nat)
    requires Tidy(a, kernel, root, ROOT_LEVEL) && ViewOf(a, root, ROOT_LEVEL, vpn).entry.Some?
    requires Made(a, b, root, StepKeys(a, root, vpn, 2)) && Made(b, c, root, StepKeys(b, root, vpn, 1))
    requires if EntryOn(a, root, ROOT_LEVEL, 2, vpn).Valid() then b == a else EntryOn(b, root, ROOT_LEVEL, 1, vpn) == NULL_PTE
    ensures TablesMade(a, c, root, vpn)
  {
    hide Tidy, TableKey, Made, EntryOn, Needs;
    MissingIs(a, kernel, root, vpn);
    MadeTransitive(a, b, c, root, StepKeys(a, root, vpn, 2), StepKeys(b, root, vpn, 1));
    assert StepKeys(a, root, vpn, 2) + StepKeys(b, root, vpn, 1) == Needs(a, root, vpn);
  }

  /** The next page of a range misses what the range needs beyond the tables made so far. */
  lemma NextPage(a: seq<Page>, b: seq<Page>, kernel: set<nat>, root: nat, base: nat, k: nat, n: nat)
    requires Tidy(b, kernel, root, ROOT_LEVEL) && ViewOf(b, root, ROOT_LEVEL, base + k).entry.Some? && k < n
    requires Made(a, b, root, RangeNeeds(a, root, base, k))
    ensures |RangeNeeds(a, root, base, k + 1)| == |RangeNeeds(a, root, base, k)| + Missing(b, root, base + k)
    ensures |RangeNeeds(a, root, base, k + 1)| <= |RangeNeeds(a, root, base, n)|
  {
    hide Tidy, Made, Needs, RangeNeeds, Missing;
    MissingIs(b, kernel, root, base + k);
    NextNeeds(a, b, root, base, k);
    RangeNeedsMore(a, root, base, k + 1, n);
  }

  /** The next page, from the state of the loop. */
  lemma RangeNext(a: seq<Page>, b: seq<Page>, free: set<nat>, kernel: set<nat>, root: nat, base: nat, frame: nat, k: nat, n: nat)
    requires Space(b, free, kernel, root) && AllReady(b, free, kernel, root, base, frame, k, n) && k < n
    requires Made(a, b, root, RangeNeeds(a, root, base, k))
    ensures |RangeNeeds(a, root, base, k + 1)| == |RangeNeeds(a, root, base, k)| + Missing(b, root, base + k)
    ensures |RangeNeeds(a, root, base, k + 1)| <= |RangeNeeds(a, root, base, n)|
  {
    hide Tidy, Made, RangeNeeds, Missing, KernelClosed, Foot, AllReady;
    SpaceParts(b, free, kernel, root);
    FirstReady(b, free, kernel, root, base, frame, k, n);
    NextPage(a, b, kernel, root, base, k, n);
  }

  lemma FirstReady(pages: seq<Page>, free: set<nat>, kernel: set<nat>, root: nat, base: nat, pp: nat, k: nat, n: nat)
    requires AllReady(pages, free, kernel, root, base, pp, k, n) && k < n
    ensures ViewOf(pages, root, ROOT_LEVEL, base + k).entry.Some? && LooseFrame(pages, free, kernel, root, pp + k)
  {
    assert Ready(pages, free, kernel, root, base, pp, k);
  }

  /** The page of an address `k` pages on, and when a loop in steps of pages has passed a size. */
  lemma PageNumber(vma: nat, i: nat, k: nat, size: nat)
    requires i == PAGE_SIZE * k
    ensures (vma + i) / PAGE_SIZE == vma / PAGE_SIZE + k
    ensures i < size <==> k < (size + 4095) / PAGE_SIZE
  {
  }

  lemma MappedAccess(a: seq<Page>, b: seq<Page>, root: nat, vpn: nat, pp: nat, flags: Flags)
    requires Remapped(a, b, root, vpn, LeafView(LeafPte(pp, flags))) && !flags.g
    ensures forall acc :: UserFrame(b, root, vpn, acc) == if Asks(flags, acc) then Some(pp) else None
  {
    SamePathReflexive(vpn, ROOT_LEVEL, 0);
    hide SamePath, Walk, Lookup, LeafView, FrameFor, Asks;
    assert ViewOf(b, root, ROOT_LEVEL, vpn) == LeafView(LeafPte(pp, flags));
    forall acc ensures UserFrame(b, root, vpn, acc) == if Asks(flags, acc) then Some(pp) else None {
      LeafAccess(pp, flags, acc);
    }
  }

  lemma RangeAt(a: seq<Page>, b: seq<Page>, root: nat, base: nat, n: nat, f: (nat, View) -> View, k: nat)
    requires RangeRemapped(a, b, root, base, n, f) && k < n <= 0x800_0000
    ensures ViewOf(b, root, ROOT_LEVEL, base + k) == f(k, ViewOf(a, root, ROOT_LEVEL, base + k))
  {
    hide ViewOf, Offset, SamePath;
    OffsetIs(base + k, base, k);
    assert ViewOf(b, root, ROOT_LEVEL, base + k) == ViewsAfter(a, root, base, n, f, base + k);
  }

  lemma RangeAccess(a: seq<Page>, b: seq<Page>, root: nat, base: nat, n: nat, pp: nat, flags: Flags)
    requires RangeRemapped(a, b, root, base, n, ToFrames(pp, flags)) && n <= 0x800_0000 && !flags.g
    ensures forall k: nat, acc :: k < n ==> UserFrameAt(b, root, base, k, acc) == if Asks(flags, acc) then Some(pp + k) else None
  {
    hide RangeRemapped, Walk, Lookup, LeafView, FrameFor, Asks;
    forall k: nat, acc | k < n
      ensures UserFrameAt(b, root, base, k, acc) == if Asks(flags, acc) then Some(pp + k) else None
    {
      RangeAt(a, b, root, base, n, ToFrames(pp, flags), k);
      LeafAccess(pp + k, flags, acc);
    }
  }

  lemma RangeReflagged(a: seq<Page>, b: seq<Page>, kernel: set<nat>, root: nat, base: nat, n: nat, flags: Flags)
    requires RangeRemapped(a, b, root, base, n, Reflagged(flags)) && n <= 0x800_0000 && !flags.g
    requires Tidy(a, kernel, root, ROOT_LEVEL) && AllPrivate(a, root, base, n)
    ensures forall k: nat, acc :: k < n ==>
      var was := ViewOf(a, root, ROOT_LEVEL, base + k).entry;
      UserFrameAt(b, root, base, k, acc) == if was.Some? && was.value.Valid() && Asks(flags, acc) then Some(was.value.ppn) else None
  {
    hide RangeRemapped, Walk, Lookup, LeafView, FrameFor, Asks, Tidy, PrivateAt;
    forall k: nat, acc | k < n
      ensures var was := ViewOf(a, root, ROOT_LEVEL, base + k).entry;
        UserFrameAt(b, root, base, k, acc) == if was.Some? && was.value.Valid() && Asks(flags, acc) then Some(was.value.ppn) else None
    {
      RangeAt(a, b, root, base, n, Reflagged(flags), k);
      var was := ViewOf(a, root, ROOT_LEVEL, base + k).entry;
      if was.Some? && was.value.Valid() {
        LeafAccess(was.value.ppn, flags, acc);
      } else {
        assert PrivateAt(a, root, base, k);
        PrivateIs(a, root, base, k);
        UnmappedFaults(a, kernel, root, base, k, acc);
      }
    }
  }

  lemma PrivateIs(a: seq<Page>, root: nat, base: nat, k: nat)
    requires PrivateAt(a, root, base, k)
    ensures ViewOf(a, root, ROOT_LEVEL, base + k).entry.Some?
  {
  }

  lemma UnmappedFaults(a: seq<Page>, kernel: set<nat>, root: nat, base: nat, k: nat, acc: Access)
    requires Tidy(a, kernel, root, ROOT_LEVEL) && PrivateAt(a, root, base, k)
    requires !ViewOf(a, root, ROOT_LEVEL, base + k).entry.value.Valid()
    ensures FrameFor(Walk(a, root, ROOT_LEVEL, base + k), acc) == None
  {
    hide Tidy, Walk, Lookup;
    WalkIsEntry(a, kernel, root, ROOT_LEVEL, base + k);
  }

  lemma RangeUnmapped(a: seq<Page>, b: seq<Page>, root: nat, base: nat, n: nat)
    requires RangeRemapped(a, b, root, base, n, Unmapped()) && n <= 0x800_0000
    ensures forall k: nat, acc :: k < n ==> UserFrameAt(b, root, base, k, acc) == None
  {
    hide RangeRemapped, Walk, Lookup;
    forall k: nat, acc | k < n
      ensures UserFrameAt(b, root, base, k, acc) == None
    {
      RangeAt(a, b, root, base, n, Unmapped(), k);
    }
  }

  ghost function ToFrames(pp: nat, flags: Flags): (nat, View) -> View {
    (k: nat, view: View) => LeafView(LeafPte(pp + k, flags))
  }

  // ---------------------------------------------------------------- pointers from user space

  const ADDRESSES := 0x1_0000_0000_0000_0000

  /** The arithmetic shift of the address by 38 gives 0 or -1. */
  predicate WellFormed(vma: nat)
    requires vma < ADDRESSES
  {
    var bits := (if vma < ADDRESSES / 2 then vma else vma - ADDRESSES) / 0x40_0000_0000;
    bits == 0 || bits + 1 == 0
  }

  /** Bits 63 to 38 are all 0 or all 1. */
  lemma WellFormedIs(vma: nat)
    requires vma < ADDRESSES
    ensures WellFormed(vma) <==> vma < 0x40_0000_0000 || vma >= ADDRESSES - 0x40_0000_0000
  {
  }

  predicate Includes(have: Flags, want: Flags) {
    && (want.v ==> have.v) && (want.r ==> have.r) && (want.w ==> have.w) && (want.x ==> have.x)
    && (want.u ==> have.u) && (want.g ==> have.g) && (want.a ==> have.a) && (want.d ==> have.d)
  }

  /** What is wrong with one page, if anything. */
  ghost function PageFault(pages: seq<Page>, root: nat, q: nat, want: Flags): int
    requires q * PAGE_SIZE < ADDRESSES
  {
    var s := LeafTable(pages, root, ROOT_LEVEL, q);
    if !WellFormed(q * PAGE_SIZE) || s.None? then EBADFMT
    else
      var e := TableAt(pages, s.value)[Index(q, 0)];
      if !e.Valid() || !e.Leaf() then EBADFMT else if Includes(e.flags, want) then 0 else EINVAL
  }

  /** The first thing wrong with the pages from `q` up to the address `end`. */
  ghost function FirstFault(pages: seq<Page>, root: nat, q: nat, end: nat, want: Flags): int
    requires end <= ADDRESSES
    decreases end - q * PAGE_SIZE
  {
    if q * PAGE_SIZE >= end then 0
    else
      var fault := PageFault(pages, root, q, want);
      if fault != 0 then fault else FirstFault(pages, root, q + 1, end, want)
  }

  lemma {:induction false} NoFault(pages: seq<Page>, root: nat, q: nat, end: nat, want: Flags)
    requires end <= ADDRESSES
    ensures FirstFault(pages, root, q, end, want) == 0 <==>
      forall p :: q <= p && p * PAGE_SIZE < end ==> PageFault(pages, root, p, want) == 0
    decreases end - q * PAGE_SIZE
  {
    hide PageFault;
    if q * PAGE_SIZE < end {
      NoFault(pages, root, q + 1, end, want);
    }
  }

  /** The hardware follows the kernel's walk: a page that passes for reading translates, with the flags. */
  lemma {:induction false} LeafTableWalk(pages: seq<Page>, t: nat, level: nat, q: nat)
    requires level <= 2 && LeafTable(pages, t, level, q).Some?
    ensures Walk(pages, t, level, q) == WalkEntry(pages, TableAt(pages, LeafTable(pages, t, level, q).value)[Index(q, 0)], 0, q)
    decreases level
  {
    if level > 0 {
      LeafTableWalk(pages, TableAt(pages, t)[Index(q, level)].ppn, level - 1, q);
    }
  }

  /** A page that passes for reading translates in hardware, and each flag asked for is there. */
  lemma PassedTranslates(pages: seq<Page>, root: nat, q: nat, want: Flags)
    requires q * PAGE_SIZE < ADDRESSES && want.r && PageFault(pages, root, q, want) == 0
    ensures Walk(pages, root, ROOT_LEVEL, q).Some?
    ensures var f := Walk(pages, root, ROOT_LEVEL, q).value.flags;
      && f.r && (want.w ==> f.w) && (want.x ==> f.x) && (want.u ==> f.u) && (want.g ==> f.g) && (want.a ==> f.a) && (want.d ==> f.d)
    ensures forall acc: Access ::
      (if acc.Store? then want.w else acc.Load? || want.x) && want.u && want.a && want.d ==> UserFrame(pages, root, q, acc).Some?
  {
    LeafTableWalk(pages, root, ROOT_LEVEL, q);
  }

  predicate Lacks(f: Flags, want: Flags) {
    || (want.v && !f.v) || (want.r && !f.r) || (want.w && !f.w) || (want.x && !f.x)
    || (want.u && !f.u) || (want.g && !f.g) || (want.a && !f.a) || (want.d && !f.d)
  }

  /** The codes: EINVAL exactly for a page of 4 KiB that is mapped and lacks a flag asked for, and EBADFMT for an address
      out of range and for a page that is not mapped so. */
  lemma FaultIs(pages: seq<Page>, root: nat, q: nat, want: Flags)
    requires q * PAGE_SIZE < ADDRESSES
    ensures var s := LeafTable(pages, root, ROOT_LEVEL, q);
      var mapped := WellFormed(q * PAGE_SIZE) && s.Some?
        && var f := TableAt(pages, s.value)[Index(q, 0)].flags; f.v && (f.r || f.w || f.x);
      && (PageFault(pages, root, q, want) == EBADFMT <==> !mapped)
      && (PageFault(pages, root, q, want) == EINVAL <==> mapped && Lacks(TableAt(pages, s.value)[Index(q, 0)].flags, want))
      && PageFault(pages, root, q, want) in {0, EINVAL, EBADFMT} && EINVAL != EBADFMT
  {
  }

  // ---------------------------------------------------------------- memory space tags

  const SV39 := 8

  /** ptab_to_mtag: mode, address space identifier and page number of the root table. */
  function PtabToMtag(ptab: nat, asid: nat): nat {
    SV39 * 0x1000_0000_0000_0000 + asid * 0x1000_0000_0000 + ptab / PAGE_SIZE
  }

  /** mtag_to_ptab: shifted left by 20 in 64 bits, then right by 8. */
  function MtagToPtab(mtag: nat): nat {
    mtag * 0x10_0000 % ADDRESSES / 0x100
  }

  /** The tag has the fields of satp: MODE in bits 63 to 60, ASID in 59 to 44, PPN in the rest. */
  lemma MtagRoundTrip(ptab: nat, asid: nat)
    requires ptab % PAGE_SIZE == 0 && ptab < 0x100_0000_0000_0000 && asid < 0x1_0000
    ensures PtabToMtag(ptab, asid) < ADDRESSES && MtagToPtab(PtabToMtag(ptab, asid)) == ptab
    ensures var m := PtabToMtag(ptab, asid);
      m / 0x1000_0000_0000_0000 == SV39 && m / 0x1000_0000_0000 % 0x1_0000 == asid && PAGE_SIZE * (m % 0x1000_0000_0000) == ptab
  {
    var ppn := ptab / PAGE_SIZE;
    var m := PtabToMtag(ptab, asid);
    assert m * 0x10_0000 == (SV39 * 0x1_0000 + asid) * ADDRESSES + ppn * 0x10_0000;
  }

  /** The frame a page is mapped to, if any. */
  ghost function Frame(view: View): set<nat> {
    if view.entry.Some? && view.entry.value.Valid() then {view.entry.value.ppn} else {}
  }
}
