/** What one page table update does to a memory space. */
module PageMaps {
  import opened Results
  import opened PageTables
  import opened PagePaths

  /** Everything that belongs to a memory space. */
  ghost function Mine(pages: seq<Page>, root: nat): set<nat> {
    {root} + Foot(pages, root, ROOT_LEVEL)
  }

  /** The entry for `vpn` at level `target` is overwritten. */
  ghost function Put(pages: seq<Page>, root: nat, target: nat, vpn: nat, e: Pte): seq<Page>
    requires target <= 2 && TableOn(pages, root, ROOT_LEVEL, target, vpn) < |pages|
  {
    var s := TableOn(pages, root, ROOT_LEVEL, target, vpn);
    pages[s := pages[s][Index(vpn, target) := e]]
  }

  /** The tables on the way, down to the changed entry, stay the same. */
  lemma {:induction false} PathKept(pages: seq<Page>, pages': seq<Page>, kernel: set<nat>,
                                    t: nat, level: nat, target: nat, vpn: nat, e: Pte)
    requires target <= level <= 2 && Open(pages, t, level, target, vpn)
    requires Tidy(pages, kernel, t, level) && t !in Foot(pages, t, level)
    requires PathChange(pages, pages', kernel, t, level, target, vpn, e)
    ensures Open(pages', t, level, target, vpn)
    ensures TableOn(pages', t, level, target, vpn) == TableOn(pages, t, level, target, vpn)
    ensures EntryOn(pages', t, level, target, vpn) == e
    decreases level
  {
    hide Tidy, Foot, EntryFoot, EntryTidy, Agree;
    if level > target {
      PathBelow(pages, pages', kernel, t, level, target, vpn, e);
      SubTable(pages, kernel, t, level, Index(vpn, level));
      PathKept(pages, pages', kernel, TableAt(pages, t)[Index(vpn, level)].ppn, level - 1, target, vpn, e);
    }
  }

  lemma {:induction false} OpenNext(pages: seq<Page>, t: nat, level: nat, target: nat, vpn: nat)
    requires 0 < target <= level <= 2 && Open(pages, t, level, target, vpn)
    ensures var e := EntryOn(pages, t, level, target, vpn);
      && (Open(pages, t, level, target - 1, vpn) <==> e.Owned() && !e.Leaf())
      && TableOn(pages, t, level, target - 1, vpn) == e.ppn
    decreases level
  {
    if level > target {
      OpenNext(pages, TableAt(pages, t)[Index(vpn, level)].ppn, level - 1, target, vpn);
    }
  }

  lemma SpaceParts(pages: seq<Page>, free: set<nat>, kernel: set<nat>, root: nat)
    requires Space(pages, free, kernel, root)
    ensures KernelClosed(pages, kernel) && free !! kernel && (forall p :: p in free ==> 0 < p < |pages|)
    ensures Tidy(pages, kernel, root, ROOT_LEVEL) && root !in Foot(pages, root, ROOT_LEVEL)
    ensures Mine(pages, root) !! kernel && Mine(pages, root) !! free && root > 0
  {
  }

  /** Page numbers that use the entry at level `target` for `vpn` are seen through `e`; all others as before. */
  ghost predicate OnlyBelow(pages: seq<Page>, pages': seq<Page>, root: nat, target: nat, vpn: nat, e: Pte)
    requires target <= 2
  {
    forall v :: ViewOf(pages', root, ROOT_LEVEL, v) == ViewAfter(pages, pages', root, target, vpn, e, v)
  }

  ghost function ViewAfter(pages: seq<Page>, pages': seq<Page>, root: nat, target: nat, vpn: nat, e: Pte, v: nat): View
    requires target <= 2
  {
    if SamePath(v, vpn, ROOT_LEVEL, target) then EntryView(pages', e, target, v) else ViewOf(pages, root, ROOT_LEVEL, v)
  }

  /** The tables still missing after the entry for `vpn` at level `target` changed to `e`. */
  ghost predicate GapsBelow(pages: seq<Page>, pages': seq<Page>, root: nat, target: nat, vpn: nat, e: Pte)
    requires target <= 2
  {
    forall v :: Gap(pages', root, ROOT_LEVEL, v) == GapAfter(pages, pages', root, target, vpn, e, v)
  }

  ghost function GapAfter(pages: seq<Page>, pages': seq<Page>, root: nat, target: nat, vpn: nat, e: Pte, v: nat): nat
    requires target <= 2
  {
    if SamePath(v, vpn, ROOT_LEVEL, target) then GapEntry(pages', e, target, v) else Gap(pages, root, ROOT_LEVEL, v)
  }

  /** A change inside the space keeps it a space and keeps every translation that does not use the entry. */
  lemma SpaceChanged(pages: seq<Page>, pages': seq<Page>, free: set<nat>, free': set<nat>, kernel: set<nat>, root: nat,
                     target: nat, vpn: nat, e: Pte)
    requires Space(pages, free, kernel, root) && target <= 2 && Open(pages, root, ROOT_LEVEL, target, vpn)
    requires PathChange(pages, pages', kernel, root, ROOT_LEVEL, target, vpn, e) && Agree(pages, pages', kernel)
    requires free' !! kernel && (forall p :: p in free' ==> 0 < p < |pages|) && EntryFoot(pages', e, target) !! kernel + free'
    requires free' <= free + EntryFoot(pages, EntryOn(pages, root, ROOT_LEVEL, target, vpn), target)
    ensures Space(pages', free', kernel, root)
    ensures Foot(pages', root, ROOT_LEVEL) == (Foot(pages, root, ROOT_LEVEL)
              - EntryFoot(pages, EntryOn(pages, root, ROOT_LEVEL, target, vpn), target)) + EntryFoot(pages', e, target)
    ensures EntryOn(pages', root, ROOT_LEVEL, target, vpn) == e && Open(pages', root, ROOT_LEVEL, target, vpn)
    ensures OnlyBelow(pages, pages', root, target, vpn, e) && GapsBelow(pages, pages', root, target, vpn, e)
  {
    hide Tidy, Foot, EntryFoot, EntryTidy, PathChange;
    SpaceParts(pages, free, kernel, root);
    OnPath(pages, kernel, root, ROOT_LEVEL, target, vpn);
    PathChanged(pages, pages', kernel, root, ROOT_LEVEL, target, vpn, e);
    PathKept(pages, pages', kernel, root, ROOT_LEVEL, target, vpn, e);
    forall v ensures ViewOf(pages', root, ROOT_LEVEL, v) == ViewAfter(pages, pages', root, target, vpn, e, v) {
      ViewChanged(pages, pages', kernel, root, ROOT_LEVEL, target, vpn, e, v);
    }
    forall v ensures Gap(pages', root, ROOT_LEVEL, v) == GapAfter(pages, pages', root, target, vpn, e, v) {
      GapChanged(pages, pages', kernel, root, ROOT_LEVEL, target, vpn, e, v);
    }
  }

  // ---------------------------------------------------------------- missing tables

  /** Names the table that the entry at level `l` on the way to a page refers to. */
  function TableKey(v: nat, l: nat): seq<nat> {
    if l == 2 then [Index(v, 2)] else [Index(v, 2), Index(v, 1)]
  }

  /** The tables that are missing on the way to a page. */
  ghost function Needs(pages: seq<Page>, root: nat, v: nat): set<seq<nat>> {
    (if Gap(pages, root, ROOT_LEVEL, v) >= 2 then {TableKey(v, 2)} else {})
    + (if Gap(pages, root, ROOT_LEVEL, v) >= 1 then {TableKey(v, 1)} else {})
  }

  lemma NeedsSize(pages: seq<Page>, root: nat, v: nat)
    requires Gap(pages, root, ROOT_LEVEL, v) <= 2
    ensures |Needs(pages, root, v)| == Gap(pages, root, ROOT_LEVEL, v)
  {
    hide Gap, Index;
  }

  /** From `pages` to `pages'`, exactly the tables in `keys` were made. */
  ghost predicate Made(pages: seq<Page>, pages': seq<Page>, root: nat, keys: set<seq<nat>>) {
    forall v :: Needs(pages', root, v) == Needs(pages, root, v) - keys
  }

  lemma MadeTransitive(a: seq<Page>, b: seq<Page>, c: seq<Page>, root: nat, k: set<seq<nat>>, k': set<seq<nat>>)
    requires Made(a, b, root, k) && Made(b, c, root, k')
    ensures Made(a, c, root, k + k')
  {
    hide Needs;
    forall v ensures Needs(c, root, v) == Needs(a, root, v) - (k + k') {
      assert Needs(c, root, v) == Needs(b, root, v) - k';
    }
  }

  /** Exactly the tables that were missing on the way to the page were made. */
  ghost predicate TablesMade(pages: seq<Page>, pages': seq<Page>, root: nat, vpn: nat) {
    Made(pages, pages', root, Needs(pages, root, vpn))
  }

  lemma NoneMade(a: seq<Page>, b: seq<Page>, c: seq<Page>, root: nat, vpn: nat)
    requires TablesMade(a, b, root, vpn) && Made(b, c, root, {})
    ensures TablesMade(a, c, root, vpn)
  {
    hide Needs;
    MadeTransitive(a, b, c, root, Needs(a, root, vpn), {});
    assert Needs(a, root, vpn) + {} == Needs(a, root, vpn);
  }

  lemma MadeNothing(a: seq<Page>, root: nat)
    ensures Made(a, a, root, {})
  {
    hide Needs;
  }

  lemma SameKey(v: nat, w: nat, l: nat)
    requires l == 1 || l == 2
    ensures SamePath(v, w, ROOT_LEVEL, l) <==> TableKey(v, l) == TableKey(w, l)
  {
    hide Index;
  }

  lemma OneTableMade(pages: seq<Page>, pages': seq<Page>, root: nat, target: nat, vpn: nat)
    requires target == 1 || target == 2
    requires forall v :: SamePath(v, vpn, ROOT_LEVEL, target) ==>
               Gap(pages, root, ROOT_LEVEL, v) == target && Gap(pages', root, ROOT_LEVEL, v) == target - 1
    requires forall v :: !SamePath(v, vpn, ROOT_LEVEL, target) ==> Gap(pages', root, ROOT_LEVEL, v) == Gap(pages, root, ROOT_LEVEL, v)
    ensures Made(pages, pages', root, {TableKey(vpn, target)})
  {
    hide Gap, SamePath, Index;
    forall v ensures Needs(pages', root, v) == Needs(pages, root, v) - {TableKey(vpn, target)} {
      SameKey(v, vpn, target);
    }
  }

  /** A page number that shares the entries misses the same tables. */
  lemma {:induction false} GapTo(pages: seq<Page>, t: nat, level: nat, target: nat, vpn: nat, v: nat)
    requires target <= level <= 2 && Open(pages, t, level, target, vpn) && SamePath(v, vpn, level, target)
    ensures Gap(pages, t, level, v) == GapEntry(pages, EntryOn(pages, t, level, target, vpn), target, v)
    decreases level
  {
    if level > target {
      GapTo(pages, TableAt(pages, t)[Index(vpn, level)].ppn, level - 1, target, vpn, v);
    }
  }

  lemma ZeroGap(pages: seq<Page>, t: nat, target: nat, v: nat)
    requires t < |pages| && pages[t] == ZeroPage() && 0 < target <= 2
    ensures GapEntry(pages, TablePte(t, false), target, v) == target - 1
  {
    assert TableAt(pages, t)[Index(v, target - 1)] == NULL_PTE;
    assert Gap(pages, t, target - 1, v) == GapEntry(pages, NULL_PTE, target - 1, v);
  }

  /** Every page translates alike. */
  ghost predicate SameViews(pages: seq<Page>, pages': seq<Page>, root: nat) {
    forall v :: ViewOf(pages', root, ROOT_LEVEL, v) == ViewOf(pages, root, ROOT_LEVEL, v)
  }

  lemma SameViewsTransitive(a: seq<Page>, b: seq<Page>, c: seq<Page>, root: nat, v: nat)
    requires a == b || SameViews(a, b, root)
    requires SameViews(b, c, root)
    ensures SameViews(a, c, root) && ViewOf(c, root, ROOT_LEVEL, v) == ViewOf(a, root, ROOT_LEVEL, v)
  {
    hide ViewOf;
  }

  /** A fresh table in an empty entry changes no translation. */
  lemma TablePlaced(pages: seq<Page>, free: set<nat>, kernel: set<nat>, root: nat, target: nat, vpn: nat, spare: nat)
    requires Space(pages, free, kernel, root) && 0 < target <= 2 && Open(pages, root, ROOT_LEVEL, target, vpn)
    requires spare in free && !EntryOn(pages, root, ROOT_LEVEL, target, vpn).Valid()
    ensures TableOn(pages, root, ROOT_LEVEL, target, vpn) < |pages| && spare < |pages|
    ensures var s := TableOn(pages, root, ROOT_LEVEL, target, vpn);
      var pages' := pages[spare := ZeroPage()][s := pages[s][Index(vpn, target) := TablePte(spare, false)]];
      && Space(pages', free - {spare}, kernel, root)
      && Foot(pages', root, ROOT_LEVEL) == Foot(pages, root, ROOT_LEVEL) + {spare}
      && Open(pages', root, ROOT_LEVEL, target - 1, vpn) && TableOn(pages', root, ROOT_LEVEL, target - 1, vpn) == spare
      && EntryOn(pages', root, ROOT_LEVEL, target - 1, vpn) == NULL_PTE
      && SameViews(pages, pages', root) && Made(pages, pages', root, {TableKey(vpn, target)})
  {
    hide Tidy, Foot, EntryTidy, Space, Made, TableKey;
    SpaceParts(pages, free, kernel, root);
    OnPath(pages, kernel, root, ROOT_LEVEL, target, vpn);
    var s := TableOn(pages, root, ROOT_LEVEL, target, vpn);
    var e := TablePte(spare, false);
    var pages' := pages[spare := ZeroPage()][s := pages[s][Index(vpn, target) := e]];
    ZeroTable(pages', kernel, spare, target);
    SpaceChanged(pages, pages', free, free - {spare}, kernel, root, target, vpn, e);
    OpenNext(pages', root, ROOT_LEVEL, target, vpn);
    forall v ensures ViewOf(pages', root, ROOT_LEVEL, v) == ViewOf(pages, root, ROOT_LEVEL, v) {
      if SamePath(v, vpn, ROOT_LEVEL, target) {
        ViewTo(pages, root, ROOT_LEVEL, target, vpn, v);
      }
    }
    TableFills(pages, pages', root, target, vpn, spare);
  }

  lemma TableFills(pages: seq<Page>, pages': seq<Page>, root: nat, target: nat, vpn: nat, spare: nat)
    requires 0 < target <= 2 && Open(pages, root, ROOT_LEVEL, target, vpn) && !EntryOn(pages, root, ROOT_LEVEL, target, vpn).Valid()
    requires GapsBelow(pages, pages', root, target, vpn, TablePte(spare, false)) && spare < |pages'| && pages'[spare] == ZeroPage()
    ensures Made(pages, pages', root, {TableKey(vpn, target)})
  {
    hide Made, Open, EntryOn, TableKey;
    forall v
      ensures SamePath(v, vpn, ROOT_LEVEL, target) ==>
        Gap(pages, root, ROOT_LEVEL, v) == target && Gap(pages', root, ROOT_LEVEL, v) == target - 1
      ensures !SamePath(v, vpn, ROOT_LEVEL, target) ==> Gap(pages', root, ROOT_LEVEL, v) == Gap(pages, root, ROOT_LEVEL, v)
    {
      assert Gap(pages', root, ROOT_LEVEL, v) == GapAfter(pages, pages', root, target, vpn, TablePte(spare, false), v);
      if SamePath(v, vpn, ROOT_LEVEL, target) {
        GapTo(pages, root, ROOT_LEVEL, target, vpn, v);
        ZeroGap(pages', spare, target, v);
      }
    }
    OneTableMade(pages, pages', root, target, vpn);
  }

  lemma ZeroTable(pages: seq<Page>, kernel: set<nat>, t: nat, target: nat)
    requires 0 < t < |pages| && pages[t] == ZeroPage() && 0 < target <= 2
    ensures EntryTidy(pages, kernel, TablePte(t, false), target) && EntryFoot(pages, TablePte(t, false), target) == {t}
    ensures forall v :: EntryView(pages, TablePte(t, false), target, v) == View(None, Some(NULL_PTE))
  {
    assert Foot(pages, t, target - 1) == {};
    forall v ensures EntryView(pages, TablePte(t, false), target, v) == View(None, Some(NULL_PTE)) {
      assert TableAt(pages, t)[Index(v, target - 1)] == NULL_PTE;
      assert ViewOf(pages, t, target - 1, v) == EntryView(pages, NULL_PTE, target - 1, v) == View(None, Some(NULL_PTE));
    }
  }

  /** A page number that shares the entries is seen through the entry on the way. */
  lemma {:induction false} ViewTo(pages: seq<Page>, t: nat, level: nat, target: nat, vpn: nat, v: nat)
    requires target <= level <= 2 && Open(pages, t, level, target, vpn) && SamePath(v, vpn, level, target)
    ensures ViewOf(pages, t, level, v) == EntryView(pages, EntryOn(pages, t, level, target, vpn), target, v)
    decreases level
  {
    if level > target {
      ViewTo(pages, TableAt(pages, t)[Index(vpn, level)].ppn, level - 1, target, vpn, v);
    }
  }

  /** What the hardware makes of a level-0 entry with these flags: an entry that can be written but not read
      faults. */
  function Seen(e: Pte): Option<Translation> {
    if e.flags.v && (e.flags.r || (e.flags.x && !e.flags.w)) then Some(Translation(e.ppn, e.flags)) else None
  }

  function LeafView(e: Pte): View {
    View(Seen(e), if !e.Valid() then Some(NULL_PTE) else if e.Global() then None else Some(e))
  }

  lemma LeafSeen(pages: seq<Page>, e: Pte)
    requires e.Valid() ==> e.Leaf()
    ensures forall v :: EntryView(pages, e, 0, v) == LeafView(e)
  {
  }

  /** The page `vpn` is seen as `view`, and every other page as before. */
  ghost predicate Remapped(pages: seq<Page>, pages': seq<Page>, root: nat, vpn: nat, view: View) {
    && (forall v :: SamePath(v, vpn, ROOT_LEVEL, 0) ==> ViewOf(pages', root, ROOT_LEVEL, v) == view)
    && (forall v :: !SamePath(v, vpn, ROOT_LEVEL, 0) ==> ViewOf(pages', root, ROOT_LEVEL, v) == ViewOf(pages, root, ROOT_LEVEL, v))
  }

  /** A new level-0 entry: only its own page number translates differently, and as the entry says. */
  lemma LeafPlaced(pages: seq<Page>, free: set<nat>, free': set<nat>, kernel: set<nat>, root: nat, vpn: nat, e: Pte)
    requires Space(pages, free, kernel, root) && Open(pages, root, ROOT_LEVEL, 0, vpn)
    requires var was := EntryFoot(pages, EntryOn(pages, root, ROOT_LEVEL, 0, vpn), 0);
      && (e.Valid() ==> e.Leaf())
      && (e.Owned() ==> 0 < e.ppn < |pages| && e.ppn !in Mine(pages, root) + free' + kernel - was && e.ppn !in free')
      && free <= free' <= free + was
    ensures TableOn(pages, root, ROOT_LEVEL, 0, vpn) < |pages|
    ensures var pages' := Put(pages, root, 0, vpn, e);
      && Space(pages', free', kernel, root)
      && Foot(pages', root, ROOT_LEVEL) == (Foot(pages, root, ROOT_LEVEL)
           - EntryFoot(pages, EntryOn(pages, root, ROOT_LEVEL, 0, vpn), 0)) + EntryFoot(pages', e, 0)
      && EntryOn(pages', root, ROOT_LEVEL, 0, vpn) == e && Open(pages', root, ROOT_LEVEL, 0, vpn)
      && Remapped(pages, pages', root, vpn, LeafView(e)) && Made(pages, pages', root, {})
  {
    hide Tidy, Foot, Space, Open, TableOn, KernelClosed, SamePath, Walk, WalkEntry, Lookup, LookupEntry, Made;
    SpaceParts(pages, free, kernel, root);
    OnPath(pages, kernel, root, ROOT_LEVEL, 0, vpn);
    var pages' := Put(pages, root, 0, vpn, e);
    SpaceChanged(pages, pages', free, free', kernel, root, 0, vpn, e);
    LeafSeen(pages', e);
    assert forall v :: ViewOf(pages', root, ROOT_LEVEL, v) == ViewAfter(pages, pages', root, 0, vpn, e, v);
    LeafFills(pages, pages', root, vpn, e);
  }

  lemma LeafFills(pages: seq<Page>, pages': seq<Page>, root: nat, vpn: nat, e: Pte)
    requires Open(pages, root, ROOT_LEVEL, 0, vpn) && GapsBelow(pages, pages', root, 0, vpn, e)
    ensures Made(pages, pages', root, {})
  {
    hide Open, EntryOn, Gap, SamePath, TableKey;
    forall v ensures Gap(pages', root, ROOT_LEVEL, v) == Gap(pages, root, ROOT_LEVEL, v) {
      assert Gap(pages', root, ROOT_LEVEL, v) == GapAfter(pages, pages', root, 0, vpn, e, v);
      if SamePath(v, vpn, ROOT_LEVEL, 0) {
        GapTo(pages, root, ROOT_LEVEL, 0, vpn, v);
      }
    }
  }

  // ---------------------------------------------------------------- the level-0 entry of a page

  /** A valid entry on the way to a page of this space refers to a table of this space. */
  lemma OpenDown(pages: seq<Page>, free: set<nat>, kernel: set<nat>, root: nat, target: nat, vpn: nat)
    requires Space(pages, free, kernel, root) && 0 < target <= 2 && Open(pages, root, ROOT_LEVEL, target, vpn)
    requires Lookup(pages, root, ROOT_LEVEL, vpn).Some? && EntryOn(pages, root, ROOT_LEVEL, target, vpn).Valid()
    ensures Open(pages, root, ROOT_LEVEL, target - 1, vpn)
    ensures TableOn(pages, root, ROOT_LEVEL, target - 1, vpn) == EntryOn(pages, root, ROOT_LEVEL, target, vpn).ppn
  {
    SpaceParts(pages, free, kernel, root);
    OnPath(pages, kernel, root, ROOT_LEVEL, target, vpn);
    SamePathReflexive(vpn, ROOT_LEVEL, target);
    ViewTo(pages, root, ROOT_LEVEL, target, vpn, vpn);
    OpenNext(pages, root, ROOT_LEVEL, target, vpn);
  }

  lemma {:induction false} SamePathReflexive(v: nat, level: nat, target: nat)
    requires target <= level <= 2
    ensures SamePath(v, v, level, target)
    decreases level
  {
    if level > target {
      SamePathReflexive(v, level - 1, target);
    }
  }

  /** Two page numbers go through the same three entries exactly when their low 27 bits agree. */
  lemma SamePathDigits(v: nat, w: nat)
    ensures SamePath(v, w, ROOT_LEVEL, 0) <==> v % 0x800_0000 == w % 0x800_0000
  {
    Digits(v);
    Digits(w);
    assert SamePath(v, w, ROOT_LEVEL, 0) <==> Index(v, 2) == Index(w, 2) && SamePath(v, w, 1, 0);
    assert SamePath(v, w, 1, 0) <==> Index(v, 1) == Index(w, 1) && SamePath(v, w, 0, 0);
  }

  lemma Quotient512(x: int, d: int, k: int)
    requires x == 512 * d + k && 0 <= k < 512
    ensures x / 512 == d && x % 512 == k
  {
  }

  lemma Quotient18(x: int, d: int, k: int)
    requires x == 0x4_0000 * d + k && 0 <= k < 0x4_0000
    ensures x / 0x4_0000 == d && x % 0x4_0000 == k
  {
  }

  /** The three indices are the digits, of nine bits each, of the low 27 bits of a page number. */
  lemma Digits(v: nat)
    ensures v % 0x800_0000 == Index(v, 2) * 0x4_0000 + Index(v, 1) * 512 + Index(v, 0)
  {
    var a := v / 512;
    var b := a / 512;
    Quotient512(v, a, Index(v, 0));
    Quotient18(v, b, 512 * (a % 512) + Index(v, 0));
    var low := b % 512 * 0x4_0000 + a % 512 * 512 + Index(v, 0);
    Quotient27(v, b / 512, low);
  }

  lemma Quotient27(x: int, d: int, k: int)
    requires x == 0x800_0000 * d + k && 0 <= k < 0x800_0000
    ensures x % 0x800_0000 == k
  {
  }

  /** How many tables are missing on the way to a page. */
  ghost function Missing(pages: seq<Page>, root: nat, vpn: nat): nat {
    if !EntryOn(pages, root, ROOT_LEVEL, 2, vpn).Valid() then 2
    else if !EntryOn(pages, root, ROOT_LEVEL, 1, vpn).Valid() then 1
    else 0
  }

  lemma MissingIs(pages: seq<Page>, kernel: set<nat>, root: nat, vpn: nat)
    requires Tidy(pages, kernel, root, ROOT_LEVEL) && Lookup(pages, root, ROOT_LEVEL, vpn).Some?
    ensures Gap(pages, root, ROOT_LEVEL, vpn) == Missing(pages, root, vpn) == |Needs(pages, root, vpn)|
    ensures Needs(pages, root, vpn) ==
      (if !EntryOn(pages, root, ROOT_LEVEL, 2, vpn).Valid() then {TableKey(vpn, 2)} else {})
      + (if Missing(pages, root, vpn) > 0 then {TableKey(vpn, 1)} else {})
  {
    hide Index, TableKey;
    var e := pages[root][Index(vpn, 2)];
    if e.Valid() {
      assert EntryTidy(pages, kernel, e, 2);
      assert Tidy(pages, kernel, e.ppn, 1);
      assert EntryTidy(pages, kernel, pages[e.ppn][Index(vpn, 1)], 1);
    }
    NeedsSize(pages, root, vpn);
  }

  /** The tables that are missing on the way to any of `n` pages from `base` on. */
  ghost function RangeNeeds(pages: seq<Page>, root: nat, base: nat, n: nat): set<seq<nat>> {
    if n == 0 then {} else RangeNeeds(pages, root, base, n - 1) + Needs(pages, root, base + n - 1)
  }

  lemma RangeNeedsNone(pages: seq<Page>, root: nat, base: nat)
    ensures RangeNeeds(pages, root, base, 0) == {} && Made(pages, pages, root, RangeNeeds(pages, root, base, 0))
  {
    MadeNothing(pages, root);
  }

  lemma {:induction false} RangeNeedsMore(pages: seq<Page>, root: nat, base: nat, m: nat, n: nat)
    requires m <= n
    ensures RangeNeeds(pages, root, base, m) <= RangeNeeds(pages, root, base, n)
    ensures |RangeNeeds(pages, root, base, m)| <= |RangeNeeds(pages, root, base, n)|
  {
    hide Needs;
    if m < n {
      RangeNeedsMore(pages, root, base, m, n - 1);
      KeysMore(RangeNeeds(pages, root, base, m), RangeNeeds(pages, root, base, n));
    }
  }

  lemma KeysMore(s: set<seq<nat>>, t: set<seq<nat>>)
    requires s <= t
    ensures |s| <= |t|
  {
    assert t == s + (t - s);
  }

  /** The next page of a range needs what the range needs beyond the tables made so far. */
  lemma NextNeeds(a: seq<Page>, b: seq<Page>, root: nat, base: nat, k: nat)
    requires Made(a, b, root, RangeNeeds(a, root, base, k))
    ensures RangeNeeds(a, root, base, k + 1) == RangeNeeds(a, root, base, k) + Needs(b, root, base + k)
    ensures |RangeNeeds(a, root, base, k + 1)| == |RangeNeeds(a, root, base, k)| + |Needs(b, root, base + k)|
  {
    hide Needs;
    var so := RangeNeeds(a, root, base, k);
    assert Needs(b, root, base + k) == Needs(a, root, base + k) - so;
    assert RangeNeeds(a, root, base, k + 1) == so + Needs(a, root, base + k) == so + Needs(b, root, base + k);
  }

  /** Mapping the next page of a range makes the tables that the range needs beyond those made so far. */
  lemma RangeNeedsStep(a: seq<Page>, b: seq<Page>, c: seq<Page>, root: nat, base: nat, k: nat)
    requires Made(a, b, root, RangeNeeds(a, root, base, k)) && TablesMade(b, c, root, base + k)
    ensures Made(a, c, root, RangeNeeds(a, root, base, k + 1))
  {
    hide Needs;
    NextNeeds(a, b, root, base, k);
    MadeTransitive(a, b, c, root, RangeNeeds(a, root, base, k), Needs(b, root, base + k));
  }

  /** The level-0 entry that the page's path leads to is the one the page is seen through. */
  lemma SeenThrough(pages: seq<Page>, root: nat, vpn: nat)
    requires Open(pages, root, ROOT_LEVEL, 0, vpn)
    ensures ViewOf(pages, root, ROOT_LEVEL, vpn) == EntryView(pages, EntryOn(pages, root, ROOT_LEVEL, 0, vpn), 0, vpn)
  {
    SamePathReflexive(vpn, ROOT_LEVEL, 0);
    ViewTo(pages, root, ROOT_LEVEL, 0, vpn, vpn);
  }

  lemma OpenTop(pages: seq<Page>, root: nat, vpn: nat)
    ensures Open(pages, root, ROOT_LEVEL, 2, vpn) && TableOn(pages, root, ROOT_LEVEL, 2, vpn) == root
  {
  }

  lemma RemappedFrom(a: seq<Page>, b: seq<Page>, c: seq<Page>, root: nat, vpn: nat, view: View)
    requires SameViews(a, b, root)
    requires Remapped(b, c, root, vpn, view)
    ensures Remapped(a, c, root, vpn, view)
  {
    hide ViewOf, SamePath;
  }

  // ---------------------------------------------------------------- ranges of pages

  /** How far `v` lies behind `base` in the 27-bit space of page numbers. */
  function Offset(v: nat, base: nat): nat {
    (v - base) % 0x800_0000
  }

  lemma OffsetIs(v: nat, base: nat, k: nat)
    requires k < 0x800_0000
    ensures SamePath(v, base + k, ROOT_LEVEL, 0) <==> Offset(v, base) == k
    ensures Offset(base + k, base) == k
  {
    hide SamePath, Index, Span;
    SamePathDigits(v, base + k);
    var d := v / 0x800_0000 - (base + k) / 0x800_0000;
    if v % 0x800_0000 == (base + k) % 0x800_0000 {
      assert v - base == 0x800_0000 * d + k;
    }
  }

  ghost function ViewsAfter(pages: seq<Page>, root: nat, base: nat, n: nat, f: (nat, View) -> View, v: nat): View {
    var k := Offset(v, base);
    if k < n then f(k, ViewOf(pages, root, ROOT_LEVEL, base + k)) else ViewOf(pages, root, ROOT_LEVEL, v)
  }

  /** Page `base + k` is seen as `f` says, for each `k < n`, and every other page as before. */
  ghost predicate RangeRemapped(pages: seq<Page>, pages': seq<Page>, root: nat, base: nat, n: nat, f: (nat, View) -> View) {
    forall v :: ViewOf(pages', root, ROOT_LEVEL, v) == ViewsAfter(pages, root, base, n, f, v)
  }

  lemma RangeStep(a: seq<Page>, b: seq<Page>, c: seq<Page>, root: nat, base: nat, k: nat, f: (nat, View) -> View)
    requires k < 0x800_0000 && RangeRemapped(a, b, root, base, k, f)
    requires Remapped(b, c, root, base + k, f(k, ViewOf(a, root, ROOT_LEVEL, base + k)))
    ensures RangeRemapped(a, c, root, base, k + 1, f)
  {
    hide ViewOf, SamePath, Offset;
    forall v ensures ViewOf(c, root, ROOT_LEVEL, v) == ViewsAfter(a, root, base, k + 1, f, v) {
      OffsetIs(v, base, k);
      assert ViewOf(b, root, ROOT_LEVEL, v) == ViewsAfter(a, root, base, k, f, v);
    }
  }

  /** The pages of the range not reached yet are seen as before. */
  lemma RangeAhead(a: seq<Page>, b: seq<Page>, root: nat, base: nat, k: nat, f: (nat, View) -> View, j: nat)
    requires k <= j < 0x800_0000 && RangeRemapped(a, b, root, base, k, f)
    ensures ViewOf(b, root, ROOT_LEVEL, base + j) == ViewOf(a, root, ROOT_LEVEL, base + j)
  {
    hide ViewOf, SamePath, Offset;
    OffsetIs(base + j, base, j);
    assert ViewOf(b, root, ROOT_LEVEL, base + j) == ViewsAfter(a, root, base, k, f, base + j);
  }

  lemma RangeStart(a: seq<Page>, root: nat, base: nat, f: (nat, View) -> View)
    ensures RangeRemapped(a, a, root, base, 0, f)
  {
  }

  lemma LowDigits0(v: nat)
    ensures v % 512 == v % 0x800_0000 % 512 && v / 512 == 0x4_0000 * (v / 0x800_0000) + v % 0x800_0000 / 512
  {
    var q, r := v / 0x800_0000, v % 0x800_0000;
    Quotient512(r, r / 512, r % 512);
    Quotient512(v, 0x4_0000 * q + r / 512, r % 512);
  }

  lemma LowDigits1(v: nat)
    ensures v / 512 % 512 == v % 0x800_0000 / 512 % 512
  {
    LowDigits0(v);
    var q, r := v / 0x800_0000, v % 0x800_0000 / 512;
    Quotient512(r, r / 512, r % 512);
    Quotient512(v / 512, 512 * q + r / 512, r % 512);
  }

  lemma LowDigits2(v: nat)
    ensures v / 0x4_0000 % 512 == v % 0x800_0000 / 0x4_0000 % 512 && v % 0x4_0000 == v % 0x800_0000 % 0x4_0000
  {
    var q, r := v / 0x800_0000, v % 0x800_0000;
    Quotient18(r, r / 0x4_0000, r % 0x4_0000);
    Quotient18(v, 512 * q + r / 0x4_0000, r % 0x4_0000);
    Quotient512(512 * q + r / 0x4_0000, q, r / 0x4_0000);
  }

  lemma LowDigits(v: nat, level: nat)
    requires level <= 2
    ensures v % Span(level) == v % 0x800_0000 % Span(level) && Index(v, level) == Index(v % 0x800_0000, level)
  {
    if level == 0 {
      LowDigits0(v);
    } else if level == 1 {
      LowDigits0(v);
      LowDigits1(v);
    } else {
      LowDigits2(v);
    }
  }

  /** Page numbers that agree in their low 27 bits are seen alike. */
  lemma {:induction false} SameDigitsSameView(pages: seq<Page>, t: nat, level: nat, v: nat, w: nat)
    requires level <= 2 && v % 0x800_0000 == w % 0x800_0000
    ensures ViewOf(pages, t, level, v) == ViewOf(pages, t, level, w)
    decreases level
  {
    hide Span, Index;
    LowDigits(v, level);
    LowDigits(w, level);
    var e := TableAt(pages, t)[Index(v, level)];
    if level > 0 {
      SameDigitsSameView(pages, e.ppn, level - 1, v, w);
    }
    assert EntryView(pages, e, level, v) == EntryView(pages, e, level, w);
  }

  /** In a memory space, the hardware's translation of a page is the one its level-0 entry calls for. */
  lemma {:induction false} WalkIsEntry(pages: seq<Page>, kernel: set<nat>, t: nat, level: nat, v: nat)
    requires level <= 2 && Tidy(pages, kernel, t, level) && Lookup(pages, t, level, v).Some?
    ensures Walk(pages, t, level, v) == Seen(Lookup(pages, t, level, v).value)
    ensures Lookup(pages, t, level, v).value.Valid() ==> Lookup(pages, t, level, v).value.Owned()
    decreases level
  {
    var e := pages[t][Index(v, level)];
    if e.Valid() && level > 0 {
      WalkIsEntry(pages, kernel, e.ppn, level - 1, v);
    }
  }

  /** A frame that no table owns and that is not free. */
  ghost predicate LooseFrame(pages: seq<Page>, free: set<nat>, kernel: set<nat>, root: nat, pp: nat) {
    0 < pp < |pages| && pp !in Mine(pages, root) && pp !in free && pp !in kernel
  }

  /** Page `base + j` belongs to this space, and frame `pp + j` can be mapped there. */
  ghost predicate Ready(pages: seq<Page>, free: set<nat>, kernel: set<nat>, root: nat, base: nat, pp: nat, j: nat) {
    ViewOf(pages, root, ROOT_LEVEL, base + j).entry.Some? && LooseFrame(pages, free, kernel, root, pp + j)
  }

  ghost predicate AllReady(pages: seq<Page>, free: set<nat>, kernel: set<nat>, root: nat, base: nat, pp: nat, k: nat, n: nat) {
    forall j: nat :: k <= j < n ==> Ready(pages, free, kernel, root, base, pp, j)
  }

  /** Mapping frame `pp + k` leaves the later ones ready. */
  lemma ReadyAhead(pages: seq<Page>, free: set<nat>, pages': seq<Page>, free': set<nat>, kernel: set<nat>, root: nat,
                   base: nat, pp: nat, k: nat, n: nat, view: View)
    requires k < n < 0x800_0000 && AllReady(pages, free, kernel, root, base, pp, k, n) && |pages'| == |pages|
    requires Remapped(pages, pages', root, base + k, view)
    requires Mine(pages', root) + free' <= Mine(pages, root) + free + {pp + k}
    ensures AllReady(pages', free', kernel, root, base, pp, k + 1, n)
  {
    hide ViewOf, SamePath, Mine;
    forall j: nat | k + 1 <= j < n ensures Ready(pages', free', kernel, root, base, pp, j) {
      assert Ready(pages, free, kernel, root, base, pp, j);
      OffsetIs(base + j, base, j);
      OffsetIs(base + j, base, k);
    }
  }

  // ---------------------------------------------------------------- the kernel's own walk

  /** The table that holds the level-0 entry for a page, found through valid entries that are not leaves,
      shared or not. */
  ghost function LeafTable(pages: seq<Page>, t: nat, level: nat, vpn: nat): Option<nat>
    requires level <= 2
    decreases level
  {
    if level == 0 then Some(t)
    else
      var e := TableAt(pages, t)[Index(vpn, level)];
      if e.Valid() && !e.Leaf() then LeafTable(pages, e.ppn, level - 1, vpn) else None
  }

  /** In a page of this space, that walk finds the table on the page's path. */
  lemma {:induction false} LeafTablePrivate(pages: seq<Page>, kernel: set<nat>, t: nat, level: nat, vpn: nat)
    requires level <= 2 && Tidy(pages, kernel, t, level) && Lookup(pages, t, level, vpn).Some?
    ensures var s := LeafTable(pages, t, level, vpn);
      if s.Some? then Open(pages, t, level, 0, vpn) && s.value == TableOn(pages, t, level, 0, vpn)
      else Lookup(pages, t, level, vpn) == Some(NULL_PTE)
    decreases level
  {
    var e := pages[t][Index(vpn, level)];
    if e.Valid() && level > 0 {
      LeafTablePrivate(pages, kernel, e.ppn, level - 1, vpn);
    }
  }

  /** Every table on that walk is a page of memory. */
  ghost predicate TablesInRam(pages: seq<Page>, kernel: set<nat>, t: nat, level: nat) {
    t < |pages| && (t in kernel || Tidy(pages, kernel, t, level))
  }

  lemma TidyInRam(pages: seq<Page>, kernel: set<nat>, t: nat, level: nat)
    requires Tidy(pages, kernel, t, level)
    ensures t < |pages|
  {
  }

  lemma TablesInRamBelow(pages: seq<Page>, kernel: set<nat>, t: nat, level: nat, i: nat)
    requires KernelClosed(pages, kernel) && TablesInRam(pages, kernel, t, level) && i < PTE_CNT && level > 0
    requires pages[t][i].Valid() && !pages[t][i].Leaf()
    ensures TablesInRam(pages, kernel, pages[t][i].ppn, level - 1)
  {
    var e := pages[t][i];
    if t !in kernel {
      assert EntryTidy(pages, kernel, e, level);
      if e.ppn !in kernel {
        TidyInRam(pages, kernel, e.ppn, level - 1);
      }
    }
  }

  lemma RootIsMine(pages: seq<Page>, root: nat)
    ensures root in Mine(pages, root)
  {
  }
}
