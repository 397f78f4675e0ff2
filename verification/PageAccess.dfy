/** What user programs can reach through a page table: the permission checks of the hardware on top of its walk. */
module PageAccess {
  import opened Results
  import opened PageTables
  import opened PagePaths
  import opened PageMaps
  import opened PageClones

  datatype Access = Load | Store | Fetch

  /** Steps 5 to 7 of section 4.3.2 for an access in user mode: the page is a user page with the permission, it is marked
      as accessed and, for a store, as dirty. Otherwise the access faults. */
  predicate Permits(f: Flags, acc: Access) {
    && f.u && f.a
    && match acc
       case Load => f.r
       case Store => f.w && f.d
       case Fetch => f.x
  }

  /** The frame that a walk finds for an access; `None` is a page fault. */
  function FrameFor(walk: Option<Translation>, acc: Access): Option<nat> {
    if walk.Some? && Permits(walk.value.flags, acc) then Some(walk.value.ppn) else None
  }

  ghost function UserFrame(pages: seq<Page>, root: nat, v: nat, acc: Access): Option<nat> {
    FrameFor(Walk(pages, root, ROOT_LEVEL, v), acc)
  }

  /** The same for page `k` of a range. */
  ghost function UserFrameAt(pages: seq<Page>, root: nat, base: nat, k: nat, acc: Access): Option<nat> {
    UserFrame(pages, root, base + k, acc)
  }

  /** The flags a caller passes ask for the access. W without R is reserved, and faults. */
  predicate Asks(f: Flags, acc: Access) {
    && f.u && (f.w ==> f.r)
    && match acc
       case Load => f.r
       case Store => f.w
       case Fetch => f.x
  }

  /** A page mapped to a frame with some flags: user programs reach the frame exactly as the flags ask. */
  lemma LeafAccess(pp: nat, flags: Flags, acc: Access)
    requires !flags.g
    ensures var view := LeafView(LeafPte(pp, flags));
      && FrameFor(view.walk, acc) == (if Asks(flags, acc) then Some(pp) else None)
      && view.entry.Some? && view.entry.value.Valid() && view.entry.value.ppn == pp
  {
  }

  /** A page and its copy, as user programs reach them: a shared page through the same frame, any other page for the
      same accesses, if it was marked as accessed and dirty, and through another frame with equal contents. */
  lemma CloneAccess(pages: seq<Page>, kernel: set<nat>, root: nat, copy: nat, v: nat, acc: Access)
    requires ClonedSpace(pages, kernel, root, copy)
    ensures var (a, b) := (UserFrame(pages, root, v, acc), UserFrame(pages, copy, v, acc));
      && (Lookup(pages, root, ROOT_LEVEL, v).None? ==> b == a)
      && (a.Some? ==> b.Some? && TableAt(pages, b.value) == TableAt(pages, a.value))
      && (b.Some? && a.None? ==> var w := Walk(pages, root, ROOT_LEVEL, v); w.Some? && !(w.value.flags.a && w.value.flags.d))
  {
    hide Walk, Lookup;
    assert SeenAlike(pages, ViewOf(pages, root, ROOT_LEVEL, v), ViewOf(pages, copy, ROOT_LEVEL, v));
  }
}
