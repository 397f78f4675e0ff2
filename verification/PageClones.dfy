/** Copying and clearing whole page tables, entry by entry. */
module PageClones {
  import opened Results
  import opened PageTables
  import opened PagePaths
  import opened PageMaps

  // ---------------------------------------------------------------- the first entries of a table

  /** What hangs below the first `n` entries of table `t`. */
  ghost function FootUpTo(pages: seq<Page>, t: nat, level: nat, n: nat): set<nat>
    requires n <= PTE_CNT
  {
    set i, p | 0 <= i < n && p in EntryFoot(pages, TableAt(pages, t)[i], level) :: p
  }

  lemma FootUpToNext(pages: seq<Page>, t: nat, level: nat, n: nat)
    requires n < PTE_CNT
    ensures FootUpTo(pages, t, level, n + 1) == FootUpTo(pages, t, level, n) + EntryFoot(pages, TableAt(pages, t)[n], level)
  {
    forall p | p in FootUpTo(pages, t, level, n + 1)
      ensures p in FootUpTo(pages, t, level, n) + EntryFoot(pages, TableAt(pages, t)[n], level)
    {
      var i :| 0 <= i < n + 1 && p in EntryFoot(pages, TableAt(pages, t)[i], level);
    }
    forall p | p in FootUpTo(pages, t, level, n) ensures p in FootUpTo(pages, t, level, n + 1) {
      var i :| 0 <= i < n && p in EntryFoot(pages, TableAt(pages, t)[i], level);
    }
  }

  lemma FootUpToEnds(pages: seq<Page>, t: nat, level: nat)
    ensures FootUpTo(pages, t, level, 0) == {}
    ensures FootUpTo(pages, t, level, PTE_CNT) == Foot(pages, t, level)
  {
  }

  /** Below the first `n` entries of table `t`, no page is reached twice. */
  ghost predicate TidyUpTo(pages: seq<Page>, kernel: set<nat>, t: nat, level: nat, n: nat)
    requires n <= PTE_CNT
  {
    && t < |pages|
    && (forall i: nat :: i < n ==> EntryTidy(pages, kernel, pages[t][i], level))
    && (forall i: nat, j: nat :: i < j < n ==> EntryFoot(pages, pages[t][i], level) !! EntryFoot(pages, pages[t][j], level))
  }

  lemma TidyUpToEnd(pages: seq<Page>, kernel: set<nat>, t: nat, level: nat)
    ensures TidyUpTo(pages, kernel, t, level, PTE_CNT) == Tidy(pages, kernel, t, level)
  {
  }

  /** One more entry. The pages below the earlier ones did not change, and the new one's are others. */
  lemma NextEntry(pages: seq<Page>, pages': seq<Page>, kernel: set<nat>, t: nat, level: nat, n: nat)
    requires n < PTE_CNT && TidyUpTo(pages, kernel, t, level, n) && t < |pages| == |pages'|
    requires forall j: nat :: j < n ==> pages'[t][j] == pages[t][j]
    requires Agree(pages, pages', FootUpTo(pages, t, level, n))
    requires EntryTidy(pages', kernel, pages'[t][n], level)
    requires EntryFoot(pages', pages'[t][n], level) !! FootUpTo(pages, t, level, n)
    ensures TidyUpTo(pages', kernel, t, level, n + 1)
    ensures FootUpTo(pages', t, level, n + 1) == FootUpTo(pages, t, level, n) + EntryFoot(pages', pages'[t][n], level)
  {
    hide FootUpTo;
    forall j: nat | j < n
      ensures EntryFoot(pages, pages[t][j], level) <= FootUpTo(pages, t, level, n)
      ensures EntryFoot(pages', pages'[t][j], level) == EntryFoot(pages, pages[t][j], level)
      ensures EntryTidy(pages', kernel, pages'[t][j], level)
    {
      EarlierFoot(pages, t, level, n, j);
      EntryFrame(pages, pages', kernel, pages[t][j], level);
    }
    SameFootUpTo(pages, pages', t, level, n);
    FootUpToNext(pages', t, level, n);
  }

  lemma EarlierFoot(pages: seq<Page>, t: nat, level: nat, n: nat, j: nat)
    requires j < n <= PTE_CNT
    ensures EntryFoot(pages, TableAt(pages, t)[j], level) <= FootUpTo(pages, t, level, n)
  {
  }

  lemma SameFootUpTo(pages: seq<Page>, pages': seq<Page>, t: nat, level: nat, n: nat)
    requires n <= PTE_CNT
    requires forall j: nat :: j < n ==> EntryFoot(pages', TableAt(pages', t)[j], level) == EntryFoot(pages, TableAt(pages, t)[j], level)
    ensures FootUpTo(pages', t, level, n) == FootUpTo(pages, t, level, n)
  {
    forall p ensures p in FootUpTo(pages', t, level, n) <==> p in FootUpTo(pages, t, level, n) {
      if i: nat :| i < n && p in EntryFoot(pages, TableAt(pages, t)[i], level) {
        assert p in EntryFoot(pages', TableAt(pages', t)[i], level);
      }
      if i: nat :| i < n && p in EntryFoot(pages', TableAt(pages', t)[i], level) {
        assert p in EntryFoot(pages, TableAt(pages, t)[i], level);
      }
    }
  }

  // ---------------------------------------------------------------- counting

  /** Number of pages below the first `n` entries of table `t`. */
  ghost function Size(pages: seq<Page>, t: nat, level: nat, n: nat): nat
    requires n <= PTE_CNT
    decreases level, 1, n
  {
    if n == 0 then 0 else Size(pages, t, level, n - 1) + EntrySize(pages, TableAt(pages, t)[n - 1], level)
  }

  ghost function EntrySize(pages: seq<Page>, e: Pte, level: nat): nat
    decreases level, 0, 0
  {
    if !e.Owned() then 0
    else if e.Leaf() || level == 0 then 1
    else 1 + Size(pages, e.ppn, level - 1, PTE_CNT)
  }

  lemma {:induction false} SizeGrows(pages: seq<Page>, t: nat, level: nat, m: nat, n: nat)
    requires m <= n <= PTE_CNT
    ensures Size(pages, t, level, m) <= Size(pages, t, level, n)
    decreases n
  {
    if m < n {
      SizeGrows(pages, t, level, m, n - 1);
    }
  }

  lemma {:induction false} SizeFrame(pages: seq<Page>, pages': seq<Page>, t: nat, level: nat, n: nat)
    requires n <= PTE_CNT && Agree(pages, pages', {t} + Foot(pages, t, level))
    ensures Size(pages', t, level, n) == Size(pages, t, level, n)
    decreases level, n
  {
    if n > 0 {
      SizeFrame(pages, pages', t, level, n - 1);
      var e := TableAt(pages, t)[n - 1];
      ChildFoot(pages, t, level, n - 1);
      if e.Owned() && !e.Leaf() && level > 0 {
        SizeFrame(pages, pages', e.ppn, level - 1, PTE_CNT);
      }
    }
  }

  /** The size counts the pages below the table. */
  lemma {:induction false} SizeIsFoot(pages: seq<Page>, kernel: set<nat>, t: nat, level: nat, n: nat)
    requires n <= PTE_CNT && Tidy(pages, kernel, t, level)
    ensures Size(pages, t, level, n) == |FootUpTo(pages, t, level, n)|
    decreases level, 1, n
  {
    hide FootUpTo, Foot, EntryFoot, EntrySize;
    if n == 0 {
      FootUpToEnds(pages, t, level);
    } else {
      SizeIsFoot(pages, kernel, t, level, n - 1);
      FootUpToNext(pages, t, level, n - 1);
      EarlierDisjoint(pages, kernel, t, level, n - 1);
      EntrySizeIsFoot(pages, kernel, pages[t][n - 1], level);
    }
  }

  lemma {:induction false} EntrySizeIsFoot(pages: seq<Page>, kernel: set<nat>, e: Pte, level: nat)
    requires EntryTidy(pages, kernel, e, level)
    ensures EntrySize(pages, e, level) == |EntryFoot(pages, e, level)|
    decreases level, 0, 0
  {
    hide FootUpTo, Foot, Size, Tidy;
    if e.Owned() && !e.Leaf() && level > 0 {
      SizeIsFoot(pages, kernel, e.ppn, level - 1, PTE_CNT);
      FootUpToEnds(pages, e.ppn, level - 1);
    }
  }

  lemma EarlierDisjoint(pages: seq<Page>, kernel: set<nat>, t: nat, level: nat, n: nat)
    requires n < PTE_CNT && Tidy(pages, kernel, t, level)
    ensures FootUpTo(pages, t, level, n) !! EntryFoot(pages, TableAt(pages, t)[n], level)
    ensures FootUpTo(pages, t, level, n) <= Foot(pages, t, level)
  {
  }

  // ---------------------------------------------------------------- copies

  /** The permissions that a copy keeps. */
  function Permissions(f: Flags): Flags {
    NO_FLAGS.(r := f.r, w := f.w, x := f.x, u := f.u)
  }

  /** `e'` copies `e`: shared entries are the same, frames have equal contents and permissions, tables are
      copied in turn. */
  ghost predicate TwinEntry(pages: seq<Page>, e: Pte, e': Pte, level: nat)
    decreases level, 0
  {
    if !e.Valid() then e' == NULL_PTE
    else if e.Global() then e' == e
    else if e.Leaf() || level == 0 then
      e' == LeafPte(e'.ppn, Permissions(e.flags)) && TableAt(pages, e'.ppn) == TableAt(pages, e.ppn)
    else e' == TablePte(e'.ppn, false) && Twins(pages, e.ppn, e'.ppn, level - 1, PTE_CNT)
  }

  /** The first `n` entries of table `t'` copy those of table `t`. */
  ghost predicate Twins(pages: seq<Page>, t: nat, t': nat, level: nat, n: nat)
    requires n <= PTE_CNT
    decreases level, 1
  {
    forall i: nat :: i < n ==> TwinEntry(pages, TableAt(pages, t)[i], TableAt(pages, t')[i], level)
  }

  lemma {:induction false} TwinFrame(pages: seq<Page>, pages': seq<Page>, e: Pte, e': Pte, level: nat)
    requires TwinEntry(pages, e, e', level) && Agree(pages, pages', EntryFoot(pages, e, level) + EntryFoot(pages, e', level))
    ensures TwinEntry(pages', e, e', level)
    decreases level
  {
    if e.Owned() && !e.Leaf() && level > 0 {
      forall i: nat | i < PTE_CNT
        ensures TwinEntry(pages', TableAt(pages', e.ppn)[i], TableAt(pages', e'.ppn)[i], level - 1)
      {
        ChildFoot(pages, e.ppn, level - 1, i);
        ChildFoot(pages, e'.ppn, level - 1, i);
        TwinFrame(pages, pages', TableAt(pages, e.ppn)[i], TableAt(pages, e'.ppn)[i], level - 1);
      }
    }
  }

  /** A page and its copy: shared translations are the same; others fault together, or have the same
      permissions and frames with equal contents. */
  ghost predicate SeenAlike(pages: seq<Page>, a: View, b: View) {
    if a.entry.None? then b == a
    else if a.walk.None? then b.walk.None?
    else
      && b.walk.Some? && b.entry.Some? && TableAt(pages, b.walk.value.ppn) == TableAt(pages, a.walk.value.ppn)
      && var (f, g) := (a.walk.value.flags, b.walk.value.flags);
        g.v && g.r == f.r && g.w == f.w && g.x == f.x && g.u == f.u && !g.g && g.a && g.d
  }

  lemma {:induction false} TwinsSeenAlike(pages: seq<Page>, kernel: set<nat>, t: nat, t': nat, level: nat, v: nat)
    requires level <= 2 && Tidy(pages, kernel, t, level) && Twins(pages, t, t', level, PTE_CNT)
    ensures SeenAlike(pages, ViewOf(pages, t, level, v), ViewOf(pages, t', level, v))
    decreases level
  {
    var e, e' := pages[t][Index(v, level)], TableAt(pages, t')[Index(v, level)];
    assert TwinEntry(pages, e, e', level) && EntryTidy(pages, kernel, e, level);
    if e.Owned() && level > 0 {
      TwinsSeenAlike(pages, kernel, e.ppn, e'.ppn, level - 1, v);
    }
  }

  /** Different pages of a space are mapped to different frames, all of which belong to the space. */
  lemma {:induction false} FramesDistinct(pages: seq<Page>, kernel: set<nat>, t: nat, level: nat, v: nat, w: nat)
    requires level <= 2 && Tidy(pages, kernel, t, level)
    requires var (a, b) := (Lookup(pages, t, level, v), Lookup(pages, t, level, w));
      a.Some? && a.value.Valid() && b.Some? && b.value.Valid()
    ensures Lookup(pages, t, level, v).value.ppn in Foot(pages, t, level)
    ensures !SamePath(v, w, level, 0) ==> Lookup(pages, t, level, v).value.ppn != Lookup(pages, t, level, w).value.ppn
    decreases level
  {
    var i, j := Index(v, level), Index(w, level);
    var e, d := pages[t][i], pages[t][j];
    ChildFoot(pages, t, level, i);
    if level > 0 {
      FramesDistinct(pages, kernel, e.ppn, level - 1, v, if i == j then w else v);
      FramesDistinct(pages, kernel, d.ppn, level - 1, w, w);
    }
  }

  // ---------------------------------------------------------------- clearing

  /** Pages `p` changed at most inside `where`. */
  ghost predicate ChangedIn(pages: seq<Page>, pages': seq<Page>, where: set<nat>) {
    |pages'| == |pages| && forall p :: 0 <= p < |pages| && p !in where ==> pages'[p] == pages[p]
  }

  lemma UnchangedEntry(pages: seq<Page>, pages': seq<Page>, kernel: set<nat>, t: nat, level: nat, n: nat)
    requires n < PTE_CNT && Tidy(pages, kernel, t, level) && t !in Foot(pages, t, level)
    requires ChangedIn(pages, pages', {t} + FootUpTo(pages, t, level, n))
    ensures Agree(pages, pages', EntryFoot(pages, pages[t][n], level))
    ensures EntryTidy(pages', kernel, pages[t][n], level)
    ensures EntryFoot(pages', pages[t][n], level) == EntryFoot(pages, pages[t][n], level)
    ensures EntryFoot(pages, pages[t][n], level) !! FootUpTo(pages, t, level, n)
    ensures EntryFoot(pages, pages[t][n], level) <= Foot(pages, t, level)
  {
    hide FootUpTo, Foot, EntryFoot, EntryTidy;
    EarlierDisjoint(pages, kernel, t, level, n);
    ChildFoot(pages, t, level, n);
    EntryFrame(pages, pages', kernel, pages[t][n], level);
    EntryIsTidy(pages, kernel, t, level, n);
  }

  lemma EntryIsTidy(pages: seq<Page>, kernel: set<nat>, t: nat, level: nat, n: nat)
    requires n < PTE_CNT && Tidy(pages, kernel, t, level)
    ensures t < |pages| && EntryTidy(pages, kernel, pages[t][n], level)
  {
  }

  /** What an entry that refers to a private table owns. */
  lemma TableEntry(pages: seq<Page>, kernel: set<nat>, e: Pte, level: nat)
    requires EntryTidy(pages, kernel, e, level) && e.Owned()
    ensures e.ppn > 0 && (e.Leaf() <==> level == 0)
    ensures level == 0 ==> EntryFoot(pages, e, level) == {e.ppn} && e.ppn < |pages|
    ensures level > 0 ==>
      && Tidy(pages, kernel, e.ppn, level - 1) && e.ppn < |pages| && e.ppn !in Foot(pages, e.ppn, level - 1)
      && EntryFoot(pages, e, level) == {e.ppn} + Foot(pages, e.ppn, level - 1)
  {
    if level > 0 {
      TidyInRam(pages, kernel, e.ppn, level - 1);
    }
  }

  lemma NothingOwned(pages: seq<Page>, e: Pte, level: nat)
    requires !e.Owned()
    ensures EntryFoot(pages, e, level) == {}
  {
  }

  // ---------------------------------------------------------------- a copy in the making

  /** The first `n` entries of table `t'` copy those of `t`, over the pages taken from `free` so far. */
  ghost predicate Copying(was: seq<Page>, pages: seq<Page>, kernel: set<nat>, t: nat, t': nat, level: nat, n: nat, free: set<nat>, free': set<nat>)
    requires n <= PTE_CNT
  {
    && free' <= free && ChangedIn(was, pages, {t'} + (free - free'))
    && TidyUpTo(pages, kernel, t', level, n) && FootUpTo(pages, t', level, n) == free - free'
    && Twins(pages, t, t', level, n)
    && |free| == |free'| + Size(was, t, level, n)
  }

  /** Where a copy can be made: the tables and the free pages have nothing to do with each other. */
  ghost predicate CanCopy(pages: seq<Page>, kernel: set<nat>, t: nat, t': nat, level: nat, free: set<nat>) {
    && Tidy(pages, kernel, t, level) && t !in Foot(pages, t, level)
    && free !! {t, t'} + Foot(pages, t, level) && (forall p :: p in free ==> 0 < p < |pages|)
    && t < |pages| && t' < |pages| && t' != t && t' !in Foot(pages, t, level)
  }

  lemma CopyStart(pages: seq<Page>, kernel: set<nat>, t: nat, t': nat, level: nat, free: set<nat>)
    requires CanCopy(pages, kernel, t, t', level, free)
    ensures Copying(pages, pages, kernel, t, t', level, 0, free, free)
  {
    FootUpToEnds(pages, t', level);
  }

  /** Entry `n` of table `t'` was made a copy of `e`, over pages taken from `free`; nothing else changed. */
  ghost predicate EntryCopied(mid: seq<Page>, pages: seq<Page>, kernel: set<nat>, e: Pte, t': nat, level: nat, n: nat,
                              free: set<nat>, free': set<nat>, size: nat)
    requires n < PTE_CNT
  {
    && t' < |pages| && free' <= free && ChangedIn(mid, pages, {t'} + (free - free'))
    && (forall j: nat :: j < PTE_CNT && j != n ==> pages[t'][j] == mid[t'][j])
    && EntryTidy(pages, kernel, pages[t'][n], level) && EntryFoot(pages, pages[t'][n], level) == free - free'
    && TwinEntry(pages, e, pages[t'][n], level)
    && |free| == |free'| + size
  }

  lemma CopyNext(was: seq<Page>, mid: seq<Page>, pages: seq<Page>, kernel: set<nat>, t: nat, t': nat, level: nat, n: nat,
                 free: set<nat>, freeMid: set<nat>, free': set<nat>)
    requires n < PTE_CNT && CanCopy(was, kernel, t, t', level, free)
    requires Copying(was, mid, kernel, t, t', level, n, free, freeMid)
    requires EntryCopied(mid, pages, kernel, was[t][n], t', level, n, freeMid, free', EntrySize(was, was[t][n], level))
    ensures Copying(was, pages, kernel, t, t', level, n + 1, free, free')
  {
    hide Foot, FootUpTo, EntryFoot, EntryTidy, Tidy, TidyUpTo, TwinEntry, EntrySize;
    NextEntryOf(mid, pages, kernel, t', level, n);
    assert free - free' == (free - freeMid) + (freeMid - free');
    TwinsNext(was, mid, pages, kernel, t, t', level, n, free, freeMid, free');
  }

  /** The tables of the original are as they were while the copy is being made. */
  lemma OriginalKept(was: seq<Page>, pages: seq<Page>, kernel: set<nat>, t: nat, t': nat, level: nat, n: nat, free: set<nat>, free': set<nat>)
    requires n < PTE_CNT && CanCopy(was, kernel, t, t', level, free) && Copying(was, pages, kernel, t, t', level, n, free, free')
    ensures pages[t] == was[t] && EntryTidy(pages, kernel, was[t][n], level)
    ensures EntryFoot(pages, was[t][n], level) == EntryFoot(was, was[t][n], level) <= Foot(was, t, level)
    ensures EntrySize(pages, was[t][n], level) == EntrySize(was, was[t][n], level)
  {
    hide Foot, FootUpTo, EntryFoot, EntryTidy, TidyUpTo, TwinEntry, EntrySize, Size;
    EntryIsTidy(was, kernel, t, level, n);
    SameFootUpToEntry(was, pages, kernel, t, level, n, {t'} + (free - free'));
    EntrySizeFrame(was, pages, was[t][n], level);
  }

  lemma EntrySizeFrame(pages: seq<Page>, pages': seq<Page>, e: Pte, level: nat)
    requires Agree(pages, pages', EntryFoot(pages, e, level))
    ensures EntrySize(pages', e, level) == EntrySize(pages, e, level)
  {
    if e.Owned() && !e.Leaf() && level > 0 {
      SizeFrame(pages, pages', e.ppn, level - 1, PTE_CNT);
    }
  }

  /** An entry that owns nothing is copied as it is. */
  lemma CopiedPlain(mid: seq<Page>, kernel: set<nat>, e: Pte, e': Pte, t': nat, level: nat, n: nat, free: set<nat>)
    requires n < PTE_CNT && t' < |mid| && EntryTidy(mid, kernel, e, level) && !e.Owned()
    requires e' == if e.Valid() then e else NULL_PTE
    ensures EntryCopied(mid, mid[t' := mid[t'][n := e']], kernel, e, t', level, n, free, free, EntrySize(mid, e, level))
  {
  }

  /** A frame is copied into a fresh page. */
  lemma CopiedFrame(mid: seq<Page>, kernel: set<nat>, e: Pte, t': nat, level: nat, n: nat, free: set<nat>, p: nat)
    requires n < PTE_CNT && t' < |mid| && EntryTidy(mid, kernel, e, level) && e.Owned() && level == 0
    requires p in free && t' !in free && e.ppn !in free && e.ppn != t' && 0 < p < |mid|
    ensures e.ppn < |mid|
    ensures var pages := mid[p := mid[e.ppn]];
      EntryCopied(mid, pages[t' := pages[t'][n := LeafPte(p, Permissions(e.flags))]], kernel, e, t', level, n,
                  free, free - {p}, EntrySize(mid, e, level))
  {
  }

  /** The place for the copy of a lower table: a zeroed fresh page, hung into the entry. */
  lemma CanCopyBelow(mid: seq<Page>, pages: seq<Page>, kernel: set<nat>, e: Pte, t': nat, level: nat, n: nat, free: set<nat>, p: nat)
    requires n < PTE_CNT && t' < |mid| && EntryTidy(mid, kernel, e, level) && e.Owned() && level > 0
    requires p in free && (forall q :: q in free ==> 0 < q < |mid|) && free !! {t'} + EntryFoot(mid, e, level) && t' !in EntryFoot(mid, e, level)
    requires ChangedIn(mid, pages, {p, t'})
    ensures CanCopy(pages, kernel, e.ppn, p, level - 1, free - {p})
    ensures Size(pages, e.ppn, level - 1, PTE_CNT) + 1 == EntrySize(mid, e, level)
  {
    TableEntry(mid, kernel, e, level);
    EntryFrame(mid, pages, kernel, e, level);
    TableEntry(pages, kernel, e, level);
    EntrySizeFrame(mid, pages, e, level);
  }

  /** The lower table has been copied. */
  lemma CopiedTable(mid: seq<Page>, hung: seq<Page>, pages: seq<Page>, kernel: set<nat>, e: Pte, t': nat, level: nat, n: nat,
                    free: set<nat>, p: nat, free': set<nat>)
    requires n < PTE_CNT && t' < |mid| && EntryTidy(mid, kernel, e, level) && e.Owned() && level > 0 && p in free && p > 0
    requires t' !in free && t' != p
    requires p < |mid| && hung == mid[p := ZeroPage()][t' := mid[t'][n := TablePte(p, false)]]
    requires Copying(hung, pages, kernel, e.ppn, p, level - 1, PTE_CNT, free - {p}, free')
    requires Size(hung, e.ppn, level - 1, PTE_CNT) + 1 == EntrySize(mid, e, level)
    ensures EntryCopied(mid, pages, kernel, e, t', level, n, free, free', EntrySize(mid, e, level))
  {
    hide Foot, FootUpTo, Tidy, TidyUpTo, Size;
    TableEntry(mid, kernel, e, level);
    FootUpToEnds(pages, p, level - 1);
    TidyUpToEnd(pages, kernel, p, level - 1);
    assert pages[t'] == hung[t'];
    assert free - free' == {p} + (free - {p} - free');
  }

  lemma NextEntryOf(pages: seq<Page>, pages': seq<Page>, kernel: set<nat>, t: nat, level: nat, n: nat)
    requires n < PTE_CNT && TidyUpTo(pages, kernel, t, level, n) && |pages| == |pages'|
    requires t < |pages| ==> forall j: nat :: j < n ==> pages'[t][j] == pages[t][j]
    requires Agree(pages, pages', FootUpTo(pages, t, level, n))
    requires t < |pages| ==> EntryTidy(pages', kernel, pages'[t][n], level)
    requires t < |pages| ==> EntryFoot(pages', pages'[t][n], level) !! FootUpTo(pages, t, level, n)
    ensures t < |pages| && TidyUpTo(pages', kernel, t, level, n + 1)
    ensures FootUpTo(pages', t, level, n + 1) == FootUpTo(pages, t, level, n) + EntryFoot(pages', pages'[t][n], level)
  {
    NextEntry(pages, pages', kernel, t, level, n);
  }

  lemma TwinsNext(was: seq<Page>, mid: seq<Page>, pages: seq<Page>, kernel: set<nat>, t: nat, t': nat, level: nat, n: nat,
                  free: set<nat>, freeMid: set<nat>, free': set<nat>)
    requires n < PTE_CNT && CanCopy(was, kernel, t, t', level, free)
    requires Copying(was, mid, kernel, t, t', level, n, free, freeMid)
    requires free' <= freeMid && ChangedIn(mid, pages, {t'} + (freeMid - free'))
    requires forall j: nat :: j < n ==> pages[t'][j] == mid[t'][j]
    requires TwinEntry(pages, was[t][n], pages[t'][n], level)
    ensures Twins(pages, t, t', level, n + 1)
  {
    hide Foot, FootUpTo, EntryFoot, EntryTidy, Tidy, TidyUpTo, TwinEntry, EntrySize, Size;
    forall i: nat | i < n ensures TwinEntry(pages, pages[t][i], pages[t'][i], level) {
      EarlierFoot(mid, t', level, n, i);
      ChildFoot(was, t, level, i);
      SameFootUpToEntry(was, mid, kernel, t, level, i, {t'} + (free - freeMid));
      TwinFrame(mid, pages, mid[t][i], mid[t'][i], level);
    }
  }

  /** Changes elsewhere do not change what hangs below an entry. */
  lemma SameFootUpToEntry(pages: seq<Page>, pages': seq<Page>, kernel: set<nat>, t: nat, level: nat, i: nat, where: set<nat>)
    requires i < PTE_CNT && t < |pages| && ChangedIn(pages, pages', where) && where !! {t} + Foot(pages, t, level)
    ensures EntryFoot(pages', pages[t][i], level) == EntryFoot(pages, pages[t][i], level)
    ensures EntryTidy(pages', kernel, pages[t][i], level) == EntryTidy(pages, kernel, pages[t][i], level)
    ensures EntryFoot(pages, pages[t][i], level) <= Foot(pages, t, level)
    ensures pages'[t] == pages[t]
  {
    ChildFoot(pages, t, level, i);
    EntryFrame(pages, pages', kernel, pages[t][i], level);
  }

  lemma SizeStep(pages: seq<Page>, t: nat, level: nat, n: nat)
    requires n < PTE_CNT
    ensures Size(pages, t, level, n) + EntrySize(pages, TableAt(pages, t)[n], level) <= Size(pages, t, level, PTE_CNT)
  {
    SizeGrows(pages, t, level, n + 1, PTE_CNT);
  }

  // ---------------------------------------------------------------- whole spaces

  /** `copy` is a second space like `root`, with its own pages. */
  ghost predicate ClonedSpace(pages: seq<Page>, kernel: set<nat>, root: nat, copy: nat) {
    && Mine(pages, copy) !! Mine(pages, root)
    && (forall v :: SeenAlike(pages, ViewOf(pages, root, ROOT_LEVEL, v), ViewOf(pages, copy, ROOT_LEVEL, v)))
  }

  lemma ReadyToCopy(pages: seq<Page>, pages': seq<Page>, free: set<nat>, kernel: set<nat>, root: nat, p: nat)
    requires Space(pages, free, kernel, root) && p in free && pages' == pages[p := ZeroPage()]
    ensures CanCopy(pages', kernel, root, p, ROOT_LEVEL, free - {p})
    ensures Size(pages', root, ROOT_LEVEL, PTE_CNT) == Size(pages, root, ROOT_LEVEL, PTE_CNT) == |Foot(pages, root, ROOT_LEVEL)|
    ensures ChangedIn(pages, pages', {p})
  {
    hide Foot, FootUpTo, Tidy, Size, KernelClosed;
    SpaceParts(pages, free, kernel, root);
    TidyInRam(pages, kernel, root, ROOT_LEVEL);
    TableFrame(pages, pages', kernel, root, ROOT_LEVEL);
    SizeFrame(pages, pages', root, ROOT_LEVEL, PTE_CNT);
    SizeIsFoot(pages, kernel, root, ROOT_LEVEL, PTE_CNT);
    FootUpToEnds(pages, root, ROOT_LEVEL);
  }

  /** Pages that are neither a space's nor the kernel's may change. */
  lemma {:induction false} SpaceKept(pages: seq<Page>, pages': seq<Page>, free: set<nat>, free': set<nat>, kernel: set<nat>, root: nat, where: set<nat>)
    requires Space(pages, free, kernel, root) && ChangedIn(pages, pages', where)
    requires where !! Mine(pages, root) + kernel && free' !! Mine(pages, root) + kernel && (forall p :: p in free' ==> 0 < p < |pages|)
    ensures Space(pages', free', kernel, root) && Mine(pages', root) == Mine(pages, root)
    ensures SameViews(pages, pages', root)
  {
    hide Foot, Tidy;
    SpaceParts(pages, free, kernel, root);
    TableFrame(pages, pages', kernel, root, ROOT_LEVEL);
    KernelKept(pages, pages', kernel);
    forall v ensures ViewOf(pages', root, ROOT_LEVEL, v) == ViewOf(pages, root, ROOT_LEVEL, v) {
      TableViewFrame(pages, pages', kernel, root, ROOT_LEVEL, v);
    }
  }

  lemma KernelKept(pages: seq<Page>, pages': seq<Page>, kernel: set<nat>)
    requires KernelClosed(pages, kernel) && Agree(pages, pages', kernel)
    ensures KernelClosed(pages', kernel)
  {
  }

  lemma TableViewFrame(pages: seq<Page>, pages': seq<Page>, kernel: set<nat>, t: nat, level: nat, v: nat)
    requires level <= 2 && KernelClosed(pages, kernel) && Tidy(pages, kernel, t, level)
    requires Agree(pages, pages', {t} + Foot(pages, t, level) + kernel)
    ensures ViewOf(pages', t, level, v) == ViewOf(pages, t, level, v)
  {
    var i := Index(v, level);
    ChildFoot(pages, t, level, i);
    WalkFrame(pages, pages', kernel, pages[t][i], level, v);
    LookupFrame(pages, pages', pages[t][i], level, v);
  }

  /** The finished copy is a space of its own over the pages taken. */
  lemma CopyIsSpace(was: seq<Page>, pages: seq<Page>, free: set<nat>, free': set<nat>, kernel: set<nat>, root: nat, p: nat)
    requires Space(was, free, kernel, root) && p in free
    requires Copying(was[p := ZeroPage()], pages, kernel, root, p, ROOT_LEVEL, PTE_CNT, free - {p}, free')
    ensures Space(pages, free', kernel, root) && Space(pages, free', kernel, p) && SameViews(was, pages, root)
    ensures Mine(pages, p) == free - free' && Mine(pages, root) == Mine(was, root) && ClonedSpace(pages, kernel, root, p)
    ensures ChangedIn(was, pages, free - free')
  {
    hide Foot, FootUpTo, Tidy, TidyUpTo, Twins, SeenAlike, ViewOf, KernelClosed;
    SpaceParts(was, free, kernel, root);
    SpaceKept(was, pages, free, free', kernel, root, free - free');
    FootUpToEnds(pages, p, ROOT_LEVEL);
    TidyUpToEnd(pages, kernel, p, ROOT_LEVEL);
    SpaceParts(pages, free', kernel, root);
    forall v ensures SeenAlike(pages, ViewOf(pages, root, ROOT_LEVEL, v), ViewOf(pages, p, ROOT_LEVEL, v)) {
      TwinsSeenAlike(pages, kernel, root, p, ROOT_LEVEL, v);
    }
  }

  /** Pages reached through a private entry of the root are unmapped; the others stay. */
  ghost predicate Unseen(was: seq<Page>, pages: seq<Page>, root: nat) {
    forall v :: ViewOf(pages, root, ROOT_LEVEL, v) ==
      (if TableAt(was, root)[Index(v, ROOT_LEVEL)].Owned() then View(None, Some(NULL_PTE)) else ViewOf(was, root, ROOT_LEVEL, v))
  }

  lemma ClearedTable(was: seq<Page>, pages: seq<Page>, kernel: set<nat>, root: nat)
    requires Tidy(was, kernel, root, ROOT_LEVEL) && |pages| == |was|
    requires forall i: nat :: i < PTE_CNT ==> pages[root][i] == if was[root][i].Owned() then NULL_PTE else was[root][i]
    ensures Tidy(pages, kernel, root, ROOT_LEVEL) && Foot(pages, root, ROOT_LEVEL) == {}
  {
    forall i: nat | i < PTE_CNT
      ensures EntryTidy(pages, kernel, pages[root][i], ROOT_LEVEL) && EntryFoot(pages, pages[root][i], ROOT_LEVEL) == {}
    {
      assert EntryTidy(was, kernel, was[root][i], ROOT_LEVEL);
    }
  }

  lemma ClearedView(was: seq<Page>, pages: seq<Page>, kernel: set<nat>, root: nat, v: nat)
    requires Tidy(was, kernel, root, ROOT_LEVEL) && |pages| == |was| && KernelClosed(was, kernel) && Agree(was, pages, kernel)
    requires pages[root][Index(v, ROOT_LEVEL)] ==
      if was[root][Index(v, ROOT_LEVEL)].Owned() then NULL_PTE else was[root][Index(v, ROOT_LEVEL)]
    ensures ViewOf(pages, root, ROOT_LEVEL, v) ==
      if was[root][Index(v, ROOT_LEVEL)].Owned() then View(None, Some(NULL_PTE)) else ViewOf(was, root, ROOT_LEVEL, v)
  {
    var e := was[root][Index(v, ROOT_LEVEL)];
    assert EntryTidy(was, kernel, e, ROOT_LEVEL);
    if !e.Owned() {
      KernelWalkFrame(was, pages, kernel, e, ROOT_LEVEL, v);
    }
  }

  lemma {:induction false} FootInRam(pages: seq<Page>, kernel: set<nat>, t: nat, level: nat)
    requires Tidy(pages, kernel, t, level)
    ensures forall p :: p in Foot(pages, t, level) ==> 0 < p < |pages|
    decreases level
  {
    forall p | p in Foot(pages, t, level) ensures 0 < p < |pages| {
      var i: nat :| i < PTE_CNT && p in EntryFoot(pages, pages[t][i], level);
      TableEntry(pages, kernel, pages[t][i], level);
      if level > 0 {
        FootInRam(pages, kernel, pages[t][i].ppn, level - 1);
      }
    }
  }

  /** A space whose private entries were all cleared, with what they owned now free. */
  lemma ClearedSpace(was: seq<Page>, pages: seq<Page>, free: set<nat>, kernel: set<nat>, root: nat)
    requires Space(was, free, kernel, root) && ChangedIn(was, pages, Mine(was, root))
    requires forall i: nat :: i < PTE_CNT ==> pages[root][i] == if was[root][i].Owned() then NULL_PTE else was[root][i]
    ensures Space(pages, free + Foot(was, root, ROOT_LEVEL), kernel, root) && Mine(pages, root) == {root}
    ensures Unseen(was, pages, root)
  {
    hide Tidy, Foot, KernelClosed, ViewOf;
    SpaceParts(was, free, kernel, root);
    ClearedTable(was, pages, kernel, root);
    KernelKept(was, pages, kernel);
    FootInRam(was, kernel, root, ROOT_LEVEL);
    forall v ensures ViewOf(pages, root, ROOT_LEVEL, v) ==
      (if TableAt(was, root)[Index(v, ROOT_LEVEL)].Owned() then View(None, Some(NULL_PTE)) else ViewOf(was, root, ROOT_LEVEL, v))
    {
      ClearedView(was, pages, kernel, root, v);
    }
  }

  /** After a clone, no page of the copy is mapped to a frame of the original, and no two of its pages that
      differ in their low 27 bits share a frame. */
  lemma CloneIsIsolated(pages: seq<Page>, free: set<nat>, kernel: set<nat>, root: nat, copy: nat, v: nat, w: nat)
    requires Space(pages, free, kernel, root) && Space(pages, free, kernel, copy) && ClonedSpace(pages, kernel, root, copy)
    requires var e := Lookup(pages, copy, ROOT_LEVEL, v); e.Some? && e.value.Valid()
    ensures var frame := Lookup(pages, copy, ROOT_LEVEL, v).value.ppn;
      && frame in Mine(pages, copy) && frame !in free && frame !in kernel
      && (var d := Lookup(pages, root, ROOT_LEVEL, w); d.Some? && d.value.Valid() ==> d.value.ppn != frame)
      && (var d := Lookup(pages, copy, ROOT_LEVEL, w); d.Some? && d.value.Valid() && !SamePath(v, w, ROOT_LEVEL, 0) ==> d.value.ppn != frame)
  {
    hide Foot, Tidy, Lookup, SeenAlike, ViewOf;
    SpaceParts(pages, free, kernel, root);
    SpaceParts(pages, free, kernel, copy);
    FramesDistinct(pages, kernel, copy, ROOT_LEVEL, v, v);
    var d, c := Lookup(pages, root, ROOT_LEVEL, w), Lookup(pages, copy, ROOT_LEVEL, w);
    if d.Some? && d.value.Valid() {
      FramesDistinct(pages, kernel, root, ROOT_LEVEL, w, w);
    }
    if c.Some? && c.value.Valid() {
      FramesDistinct(pages, kernel, copy, ROOT_LEVEL, v, w);
    }
  }
}
