/** How far a file can grow: the blocks it lacks, the free blocks it takes for them, and the limit this sets. */
module KtfsLimits {
  import opened Machine
  import opened Results
  import opened KtfsImage
  import opened KtfsTree
  import opened KtfsGrowth

  // ---------------------------------------------------------------- blocks that a file lacks

  /** The absent slots among those that serve the first `n` blocks of the file. */
  ghost function AbsentSlots(img: Image, ino: nat, n: nat): set<Slot>
    requires ino < |img.inodes| && n <= MAX_BLOCKS
  {
    set b: nat, s: Slot | b < n && s in Path(Leaf(ino, b)) && s.InRange() && s.ino == ino && Val(img, s) == 0 :: s
  }

  /** How many blocks, index blocks included, the file needs before its first `n` blocks are there. */
  ghost function Lacking(img: Image, ino: nat, n: nat): nat
    requires ino < |img.inodes| && n <= MAX_BLOCKS
  {
    |AbsentSlots(img, ino, n)|
  }

  lemma OnPathServes(s: Slot, ino: nat, b: nat, n: nat)
    requires b < n <= MAX_BLOCKS && s in Path(Leaf(ino, b)) && s.InRange()
    ensures Serves(s, ino, n)
  {
    ServesOneMore(s, ino, b);
  }

  lemma FirstBlockPath(s: Slot)
    requires s.InRange()
    ensures FirstBlock(s) < MAX_BLOCKS && s in Path(Leaf(s.ino, FirstBlock(s)))
  {
    match s
    case Direct(_, _) =>
    case Ind(i) => assert Leaf(i, FirstBlock(s)) == IndLeaf(i, 0);
    case IndLeaf(_, _) => LeafOfBlockNumber(s);
    case Dind(i, d) => LeafOfBlockNumber(DindLeaf(i, d, 0, 0));
    case DindMid(i, d, m) => LeafOfBlockNumber(DindLeaf(i, d, m, 0));
    case DindLeaf(_, _, _, _) => LeafOfBlockNumber(s);
  }

  lemma AbsentIs(img: Image, ino: nat, n: nat)
    requires ino < |img.inodes| && n <= MAX_BLOCKS
    ensures forall s: Slot :: s in AbsentSlots(img, ino, n) <==> Serves(s, ino, n) && Val(img, s) == 0
  {
    hide Val;
    forall s: Slot
      ensures s in AbsentSlots(img, ino, n) <==> Serves(s, ino, n) && Val(img, s) == 0
    {
      if s in AbsentSlots(img, ino, n) {
        var b: nat :| b < n && s in Path(Leaf(ino, b)) && s.InRange() && s.ino == ino && Val(img, s) == 0;
        OnPathServes(s, ino, b, n);
      }
      if Serves(s, ino, n) && Val(img, s) == 0 {
        FirstBlockPath(s);
        assert FirstBlock(s) < n && s in Path(Leaf(ino, FirstBlock(s)));
      }
    }
  }

  lemma LackingNone(img: Image, ino: nat, n: nat)
    requires ino < |img.inodes| && n <= MAX_BLOCKS
    ensures Lacking(img, ino, n) == 0 <==> MappedTo(img, ino, n)
  {
    hide Val, AbsentSlots;
    AbsentIs(img, ino, n);
    if Lacking(img, ino, n) != 0 {
      var s :| s in AbsentSlots(img, ino, n);
    }
  }

  lemma LackingMore(img: Image, ino: nat, n: nat, n': nat)
    requires ino < |img.inodes| && n <= n' <= MAX_BLOCKS
    ensures Lacking(img, ino, n) <= Lacking(img, ino, n')
  {
    hide Val, AbsentSlots;
    AbsentIs(img, ino, n);
    AbsentIs(img, ino, n');
    SubsetSize(AbsentSlots(img, ino, n), AbsentSlots(img, ino, n'));
  }

  lemma SubsetSize(s: set<Slot>, t: set<Slot>)
    requires s <= t
    ensures |s| <= |t|
  {
    assert t == s + (t - s);
  }

  lemma LackingSame(a: Image, b: Image, ino: nat, n: nat)
    requires ino < |a.inodes| && ino < |b.inodes| && n <= MAX_BLOCKS
    requires forall s: Slot :: s.ino == ino && s.InRange() ==> Val(b, s) == Val(a, s)
    ensures Lacking(b, ino, n) == Lacking(a, ino, n)
  {
    hide Val, AbsentSlots;
    AbsentIs(a, ino, n);
    AbsentIs(b, ino, n);
    assert AbsentSlots(a, ino, n) == AbsentSlots(b, ino, n);
  }

  ghost function AbsentOne(img: Image, s: Slot): (r: set<Slot>)
    requires s.InRange() && s.ino < |img.inodes|
    ensures |r| == Absent(img, s) && forall t :: t in r <==> t == s && Val(img, s) == 0
  {
    if Val(img, s) == 0 then {s} else {}
  }

  /** The absent slots on the path of one file block. */
  ghost function AbsentOn(img: Image, leaf: Slot): set<Slot>
    requires leaf.IsLeaf() && leaf.InRange() && leaf.ino < |img.inodes|
  {
    match leaf
    case Direct(_, _) => AbsentOne(img, leaf)
    case IndLeaf(i, _) => AbsentOne(img, leaf) + AbsentOne(img, Ind(i))
    case DindLeaf(i, d, m, _) => AbsentOne(img, leaf) + AbsentOne(img, Dind(i, d)) + AbsentOne(img, DindMid(i, d, m))
  }

  lemma AbsentOnIs(img: Image, leaf: Slot)
    requires leaf.IsLeaf() && leaf.InRange() && leaf.ino < |img.inodes|
    ensures forall s :: s in AbsentOn(img, leaf) <==> s in Path(leaf) && s.InRange() && s.ino == leaf.ino && Val(img, s) == 0
  {
    hide Val, AbsentOne;
  }

  lemma MissingIs(img: Image, leaf: Slot)
    requires leaf.IsLeaf() && leaf.InRange() && leaf.ino < |img.inodes|
    ensures Missing(img, leaf) == |AbsentOn(img, leaf)|
    ensures forall s :: s in AbsentOn(img, leaf) <==> s in Path(leaf) && s.InRange() && s.ino == leaf.ino && Val(img, s) == 0
  {
    hide Val, AbsentOne, Path;
    AbsentOnIs(img, leaf);
    if leaf.IndLeaf? {
      Disjoint(AbsentOne(img, leaf), AbsentOne(img, Ind(leaf.ino)));
    }
    if leaf.DindLeaf? {
      var top, mid := AbsentOne(img, Dind(leaf.ino, leaf.d)), AbsentOne(img, DindMid(leaf.ino, leaf.d, leaf.m));
      Disjoint(AbsentOne(img, leaf), top);
      Disjoint(AbsentOne(img, leaf) + top, mid);
    }
  }

  lemma Disjoint(s: set<Slot>, t: set<Slot>)
    requires s !! t
    ensures |s + t| == |s| + |t|
  {
  }

  /** A file that has its first `blkno` blocks lacks for one more what that block lacks. */
  lemma LackingNext(img: Image, ino: nat, blkno: nat)
    requires ino < |img.inodes| && blkno < MAX_BLOCKS && MappedTo(img, ino, blkno)
    ensures Lacking(img, ino, blkno + 1) == Missing(img, Leaf(ino, blkno))
  {
    hide Val, AbsentSlots;
    var leaf := Leaf(ino, blkno);
    AbsentIs(img, ino, blkno + 1);
    MissingIs(img, leaf);
    forall s: Slot
      ensures s in AbsentSlots(img, ino, blkno + 1) <==> s in AbsentOn(img, leaf)
    {
      ServesOneMore(s, ino, blkno);
      if s in AbsentOn(img, leaf) {
        OnPathServes(s, ino, blkno, blkno + 1);
      }
    }
    assert AbsentSlots(img, ino, blkno + 1) == AbsentOn(img, leaf);
  }

  // ---------------------------------------------------------------- growing in order

  function Less(x: nat, y: nat): nat {
    if x > y then x - y else 0
  }

  /** From `a` to `b` the file took the lowest free blocks, and for its lowest absent slots. */
  ghost predicate Grew(a: Image, b: Image, ino: nat) {
    && ino < |a.inodes| == |b.inodes| && |b.data| == |a.data| && |b.dataBits| == |a.dataBits|
    && FreeCount(b.dataBits) <= FreeCount(a.dataBits)
    && var c := FreeCount(a.dataBits) - FreeCount(b.dataBits);
      && b.dataBits == TakeFirst(a.dataBits, c)
      && (forall n :: 0 <= n <= MAX_BLOCKS ==> Lacking(b, ino, n) == Less(Lacking(a, ino, n), c))
      && (forall j :: 0 <= j < MAX_BLOCKS && Val(a, Leaf(ino, j)) == 0 != Val(b, Leaf(ino, j)) ==>
            Lacking(a, ino, j + 1) > 0 && Val(b, Leaf(ino, j)) == NthFree(a.dataBits, Lacking(a, ino, j + 1) - 1))
  }

  lemma GrewNothing(a: Image, b: Image, ino: nat)
    requires ino < |a.inodes| == |b.inodes| && |b.data| == |a.data| && b.dataBits == a.dataBits
    requires forall s: Slot :: s.ino == ino && s.InRange() ==> Val(b, s) == Val(a, s)
    ensures Grew(a, b, ino)
  {
    hide Val, Lacking;
    forall n | 0 <= n <= MAX_BLOCKS
      ensures Lacking(b, ino, n) == Lacking(a, ino, n)
    {
      LackingSame(a, b, ino, n);
    }
    assert TakeFirst(a.dataBits, 0) == a.dataBits;
  }

  lemma GrewTransitive(a: Image, b: Image, c: Image, ino: nat)
    requires Grew(a, b, ino) && Grew(b, c, ino)
    requires forall t: Slot :: t.ino == ino && t.InRange() && Val(b, t) != 0 ==> Val(c, t) == Val(b, t)
    ensures Grew(a, c, ino)
  {
    hide Val, Lacking, NthFree, TakeFirst, FreeCount;
    var m, n := FreeCount(a.dataBits) - FreeCount(b.dataBits), FreeCount(b.dataBits) - FreeCount(c.dataBits);
    TakeFirstTwice(a.dataBits, m, n);
    forall j | 0 <= j < MAX_BLOCKS && Val(a, Leaf(ino, j)) == 0 != Val(c, Leaf(ino, j))
      ensures Lacking(a, ino, j + 1) > 0 && Val(c, Leaf(ino, j)) == NthFree(a.dataBits, Lacking(a, ino, j + 1) - 1)
    {
      if Val(b, Leaf(ino, j)) == 0 {
        TakeFirstTwice(a.dataBits, m, Lacking(b, ino, j + 1) - 1);
      }
    }
  }

  lemma GrewFrom(a: Image, b: Image, c: Image, ino: nat)
    requires Grew(b, c, ino) && ino < |a.inodes| == |b.inodes| && |b.data| == |a.data| && b.dataBits == a.dataBits
    requires forall s: Slot :: s.ino == ino && s.InRange() ==> Val(b, s) == Val(a, s)
    ensures Grew(a, c, ino)
  {
    hide Val, Lacking, NthFree, TakeFirst, FreeCount;
    forall n | 0 <= n <= MAX_BLOCKS
      ensures Lacking(b, ino, n) == Lacking(a, ino, n)
    {
      LackingSame(a, b, ino, n);
    }
  }

  /** Filling the path of block `blkno` of a file that has all blocks before it keeps the order. */
  lemma ReachedGrew(a: Image, b: Image, live: set<nat>, ino: nat, blkno: nat, r: Result<nat>)
    requires blkno < MAX_BLOCKS && ino in live && Reached(a, b, live, Leaf(ino, blkno), r) && MappedTo(a, ino, blkno)
    ensures Grew(a, b, ino)
    ensures Lacking(a, ino, blkno + 1) == Missing(a, Leaf(ino, blkno))
  {
    hide Val, Owned, Shape, BytesStay, NewRef, Lacking, NthFree, TakeFirst, FreeCount;
    LackingNext(a, ino, blkno);
    if Val(b, Leaf(ino, blkno)) != 0 {
      PresentComplete(b, Leaf(ino, blkno));
    }
    forall n | 0 <= n <= MAX_BLOCKS
      ensures Lacking(b, ino, n) == Less(Lacking(a, ino, n), FreeCount(a.dataBits) - FreeCount(b.dataBits))
    {
      if n <= blkno {
        LackingNone(a, ino, blkno);
        LackingMore(a, ino, n, blkno);
        LackingKept(a, b, live, ino, blkno, n);
      } else {
        LackingAfter(a, b, live, ino, blkno, n);
      }
    }
    forall j | 0 <= j < MAX_BLOCKS && Val(a, Leaf(ino, j)) == 0 != Val(b, Leaf(ino, j))
      ensures j == blkno
    {
      assert Live(a, live, Leaf(ino, j));
      OtherLeaf(Leaf(ino, j), Leaf(ino, blkno));
    }
  }

  lemma PresentComplete(img: Image, leaf: Slot)
    requires leaf.IsLeaf() && leaf.InRange() && leaf.ino < |img.inodes| && Val(img, leaf) != 0
    ensures Missing(img, leaf) == 0
  {
  }

  lemma OtherLeaf(s: Slot, leaf: Slot)
    requires s.IsLeaf() && leaf.IsLeaf() && s in Path(leaf)
    ensures s == leaf
  {
  }

  lemma LackingKept(a: Image, b: Image, live: set<nat>, ino: nat, blkno: nat, n: nat)
    requires blkno < MAX_BLOCKS && ino in live && ino < |a.inodes| && Grown(a, b, live, Path(Leaf(ino, blkno)))
    requires n <= MAX_BLOCKS && Lacking(a, ino, n) == 0
    ensures Lacking(b, ino, n) == 0
  {
    hide Val, BytesStay, NewRef;
    LackingNone(a, ino, n);
    LackingNone(b, ino, n);
    forall s | Serves(s, ino, n)
      ensures Val(b, s) != 0
    {
      assert Live(a, live, s);
    }
  }

  lemma LackingAfter(a: Image, b: Image, live: set<nat>, ino: nat, blkno: nat, n: nat)
    requires blkno < n <= MAX_BLOCKS && ino in live && ino < |a.inodes| && Grown(a, b, live, Path(Leaf(ino, blkno)))
    ensures ino < |b.inodes|
    ensures var leaf := Leaf(ino, blkno);
      Lacking(b, ino, n) + Missing(a, leaf) == Lacking(a, ino, n) + Missing(b, leaf) && Missing(a, leaf) <= Lacking(a, ino, n)
  {
    OffPathSame(a, b, live, ino, Path(Leaf(ino, blkno)));
    hide Grown, Val, AbsentSlots, Missing, AbsentOn, Path;
    var leaf := Leaf(ino, blkno);
    SplitLacking(a, ino, blkno, n);
    SplitLacking(b, ino, blkno, n);
    assert AbsentSlots(a, ino, n) - AbsentOn(a, leaf) == AbsentSlots(b, ino, n) - AbsentOn(b, leaf);
  }

  lemma OffPathSame(a: Image, b: Image, live: set<nat>, ino: nat, path: set<Slot>)
    requires ino in live && ino < |a.inodes| && Grown(a, b, live, path)
    ensures ino < |b.inodes|
    ensures forall s: Slot :: s.ino == ino && s.InRange() && s !in path ==> (Val(b, s) == 0 <==> Val(a, s) == 0)
  {
    hide Val, BytesStay, NewRef;
    assert forall s: Slot :: s.ino == ino && s.InRange() ==> Live(a, live, s);
  }

  /** The absent slots on the path of one block and the others. */
  lemma SplitLacking(a: Image, ino: nat, blkno: nat, n: nat)
    requires blkno < n <= MAX_BLOCKS && ino < |a.inodes|
    ensures var leaf := Leaf(ino, blkno);
      && Lacking(a, ino, n) == |AbsentSlots(a, ino, n) - AbsentOn(a, leaf)| + Missing(a, leaf)
      && (forall s :: s in AbsentSlots(a, ino, n) - AbsentOn(a, leaf) <==> Serves(s, ino, n) && Val(a, s) == 0 && s !in Path(leaf))
  {
    hide Val, AbsentSlots, Missing, AbsentOn, Path;
    var leaf := Leaf(ino, blkno);
    AbsentIs(a, ino, n);
    MissingIs(a, leaf);
    forall s | s in AbsentOn(a, leaf)
      ensures Serves(s, ino, n)
    {
      OnPathServes(s, ino, blkno, n);
    }
    Disjoint(AbsentSlots(a, ino, n) - AbsentOn(a, leaf), AbsentOn(a, leaf));
    assert AbsentSlots(a, ino, n) == AbsentSlots(a, ino, n) - AbsentOn(a, leaf) + AbsentOn(a, leaf);
  }

  // ---------------------------------------------------------------- the limit

  /** The number of blocks the file can have, with what is free now. */
  ghost function BlockLimit(img: Image, ino: nat): nat
    requires ino < |img.inodes|
  {
    LimitFrom(img, ino, MAX_BLOCKS)
  }

  ghost function LimitFrom(img: Image, ino: nat, n: nat): nat
    requires ino < |img.inodes| && n <= MAX_BLOCKS
  {
    if n == 0 || Lacking(img, ino, n) <= FreeCount(img.dataBits) then n else LimitFrom(img, ino, n - 1)
  }

  /** The largest size the file can have, with what is free now. */
  ghost function Limit(img: Image, ino: nat): nat
    requires ino < |img.inodes|
  {
    BLKSZ * BlockLimit(img, ino)
  }

  lemma {:induction false} LimitFromIs(img: Image, ino: nat, m: nat, n: nat)
    requires ino < |img.inodes| && n <= m <= MAX_BLOCKS
    ensures n <= LimitFrom(img, ino, m) <==> Lacking(img, ino, n) <= FreeCount(img.dataBits)
    ensures LimitFrom(img, ino, m) <= m
    decreases m
  {
    hide Lacking;
    LackingNone(img, ino, 0);
    if n < m {
      LimitFromIs(img, ino, m - 1, n);
      LackingMore(img, ino, n, m);
    } else if m > 0 {
      LimitFromIs(img, ino, m - 1, m - 1);
    }
  }

  /** The file can have `n` blocks exactly when the blocks it lacks for that are free. */
  lemma LimitIs(img: Image, ino: nat, n: nat)
    requires ino < |img.inodes|
    ensures n <= BlockLimit(img, ino) <==> n <= MAX_BLOCKS && Lacking(img, ino, n) <= FreeCount(img.dataBits)
    ensures BlockLimit(img, ino) <= MAX_BLOCKS
  {
    if n <= MAX_BLOCKS {
      LimitFromIs(img, ino, MAX_BLOCKS, n);
    }
    LimitFromIs(img, ino, MAX_BLOCKS, 0);
  }

  /** A size is within the limit exactly when its number of blocks is. */
  lemma LimitOfSize(img: Image, ino: nat, size: nat)
    requires ino < |img.inodes|
    ensures size <= Limit(img, ino) <==> NumBlocks(size) <= BlockLimit(img, ino)
    ensures Limit(img, ino) <= MAX_FILE_SIZE
  {
    LimitIs(img, ino, 0);
  }

  /** Growing the file never changes how far it can grow. */
  lemma GrewLimit(a: Image, b: Image, ino: nat)
    requires Grew(a, b, ino)
    ensures BlockLimit(b, ino) == BlockLimit(a, ino) && Limit(b, ino) == Limit(a, ino)
  {
    hide Val, Lacking, BlockLimit;
    var m, n := BlockLimit(a, ino), BlockLimit(b, ino);
    LimitIs(a, ino, m);
    LimitIs(a, ino, n);
    LimitIs(b, ino, m);
    LimitIs(b, ino, n);
  }

  // ---------------------------------------------------------------- what growth exposes

  /** The block that file block `j` has, or will have once the file has grown so far. */
  ghost function BlockToBe(img: Image, ino: nat, j: nat): nat
    requires ino < |img.inodes| && j < MAX_BLOCKS
  {
    if Val(img, Leaf(ino, j)) != 0 || Lacking(img, ino, j + 1) == 0 then Val(img, Leaf(ino, j))
    else NthFree(img.dataBits, Lacking(img, ino, j + 1) - 1)
  }

  /** Byte `k` of the file once it has grown so far, if nothing is written there: what that block holds now. */
  ghost function Exposed(img: Image, ino: nat, k: nat): Byte
    requires ino < |img.inodes| && k < MAX_FILE_SIZE
  {
    var v := BlockToBe(img, ino, k / BLKSZ);
    if v < |img.data| then img.data[v][k % BLKSZ] else 0
  }

  lemma GrewBlock(a: Image, b: Image, ino: nat, j: nat)
    requires Grew(a, b, ino) && j < MAX_BLOCKS && Val(b, Leaf(ino, j)) != 0
    requires Val(a, Leaf(ino, j)) != 0 ==> Val(b, Leaf(ino, j)) == Val(a, Leaf(ino, j))
    ensures Val(b, Leaf(ino, j)) == BlockToBe(a, ino, j)
  {
    hide Val, Lacking;
  }

  // ---------------------------------------------------------------- the limit from outside

  /** For each number of blocks, how many blocks a file lacks for it. */
  type Wants = w: seq<nat> | |w| == MAX_BLOCKS + 1 witness seq(MAX_BLOCKS + 1, _ => 0)

  ghost function WantsOf(img: Image, ino: nat): Wants
    requires ino < |img.inodes|
  {
    seq(MAX_BLOCKS + 1, n requires 0 <= n <= MAX_BLOCKS => Lacking(img, ino, n))
  }

  lemma WantsAt(img: Image, ino: nat)
    requires ino < |img.inodes|
    ensures forall n :: 0 <= n <= MAX_BLOCKS ==> WantsOf(img, ino)[n] == Lacking(img, ino, n)
  {
    hide Lacking;
  }

  /** After the file took `c` blocks. */
  function Minus(w: Wants, c: nat): Wants {
    seq(MAX_BLOCKS + 1, n requires 0 <= n <= MAX_BLOCKS => Less(w[n], c))
  }

  function BlocksWithin(w: Wants, free: nat, n: nat): nat
    requires n <= MAX_BLOCKS
  {
    if n == 0 || w[n] <= free then n else BlocksWithin(w, free, n - 1)
  }

  /** The largest size the file can have with `free` blocks free. */
  function LimitOf(w: Wants, free: nat): nat {
    BLKSZ * BlocksWithin(w, free, MAX_BLOCKS)
  }

  lemma {:induction false} BlocksWithinIs(img: Image, ino: nat, n: nat)
    requires ino < |img.inodes| && n <= MAX_BLOCKS
    ensures BlocksWithin(WantsOf(img, ino), FreeCount(img.dataBits), n) == LimitFrom(img, ino, n)
  {
    hide Lacking, FreeCount;
    WantsAt(img, ino);
    if n > 0 {
      BlocksWithinIs(img, ino, n - 1);
    }
  }

  lemma LimitOfWants(img: Image, ino: nat)
    requires ino < |img.inodes|
    ensures LimitOf(WantsOf(img, ino), FreeCount(img.dataBits)) == Limit(img, ino)
  {
    hide WantsOf, FreeCount;
    BlocksWithinIs(img, ino, MAX_BLOCKS);
  }

  lemma GrewWants(a: Image, b: Image, ino: nat)
    requires Grew(a, b, ino)
    ensures WantsOf(b, ino) == Minus(WantsOf(a, ino), FreeCount(a.dataBits) - FreeCount(b.dataBits))
  {
    hide Lacking, FreeCount, Val, TakeFirst, NthFree;
    WantsAt(a, ino);
    WantsAt(b, ino);
    assert forall n :: 0 <= n <= MAX_BLOCKS ==> Lacking(b, ino, n) == Less(Lacking(a, ino, n), FreeCount(a.dataBits) - FreeCount(b.dataBits));
  }

  lemma SameWants(a: Image, b: Image, ino: nat)
    requires ino < |a.inodes| && ino < |b.inodes|
    requires forall s: Slot :: s.ino == ino && s.InRange() ==> Val(b, s) == Val(a, s)
    ensures WantsOf(b, ino) == WantsOf(a, ino)
  {
    hide Lacking, Val;
    WantsAt(a, ino);
    WantsAt(b, ino);
    forall n | 0 <= n <= MAX_BLOCKS
      ensures WantsOf(b, ino)[n] == WantsOf(a, ino)[n]
    {
      LackingSame(a, b, ino, n);
    }
  }

  // ---------------------------------------------------------------- how many blocks are taken

  /** From `a` to `b`, no more blocks were taken than the file lacked for its first `n` blocks. */
  ghost predicate TookWithin(a: Image, b: Image, ino: nat, n: nat) {
    ino < |a.inodes| && FreeCount(a.dataBits) <= FreeCount(b.dataBits) + Lacking(a, ino, Min(n, MAX_BLOCKS))
  }

  lemma TookNothing(a: Image, b: Image, ino: nat, n: nat)
    requires ino < |a.inodes| && b.dataBits == a.dataBits
    ensures TookWithin(a, b, ino, n)
  {
  }

  lemma TookMore(a: Image, b: Image, ino: nat, n: nat, n': nat)
    requires TookWithin(a, b, ino, n) && n <= n'
    ensures TookWithin(a, b, ino, n')
  {
    hide Lacking, FreeCount;
    LackingMore(a, ino, Min(n, MAX_BLOCKS), Min(n', MAX_BLOCKS));
  }

  lemma TookTransitive(a: Image, b: Image, c: Image, ino: nat, n: nat)
    requires Grew(a, b, ino) && TookWithin(a, b, ino, n) && TookWithin(b, c, ino, n)
    ensures TookWithin(a, c, ino, n)
  {
    hide Lacking, FreeCount, Val, TakeFirst, NthFree;
  }

  lemma ReachedTook(a: Image, b: Image, live: set<nat>, ino: nat, blkno: nat, r: Result<nat>)
    requires blkno < MAX_BLOCKS && ino in live && Reached(a, b, live, Leaf(ino, blkno), r) && MappedTo(a, ino, blkno)
    ensures TookWithin(a, b, ino, blkno + 1)
  {
    hide Val, Owned, Shape, Grown, Lacking, NthFree, TakeFirst, FreeCount;
    LackingNext(a, ino, blkno);
  }

  /** A file that has its first `n` blocks now has taken exactly what it lacked for them. */
  lemma TookAll(a: Image, b: Image, ino: nat, n: nat)
    requires Grew(a, b, ino) && TookWithin(a, b, ino, n) && n <= MAX_BLOCKS && MappedTo(b, ino, n)
    ensures FreeCount(a.dataBits) - FreeCount(b.dataBits) == Lacking(a, ino, n)
  {
    hide Lacking, FreeCount, Val, TakeFirst, NthFree;
    LackingNone(b, ino, n);
    assert Lacking(b, ino, n) == Less(Lacking(a, ino, n), FreeCount(a.dataBits) - FreeCount(b.dataBits));
  }

  // ---------------------------------------------------------------- counting slots

  /** How many slots serve block `b` and no block before it. */
  function SlotsAt(b: nat): nat {
    1 + (if b == NUM_DIRECT then 1 else 0)
    + (if b >= 132 && (b - 132) % 128 == 0 then 1 else 0) + (if b >= 132 && (b - 132) % 16384 == 0 then 1 else 0)
  }

  /** How many blocks a file of `n` blocks takes, index blocks included. */
  function SlotCount(n: nat): nat {
    if n == 0 then 0 else SlotCount(n - 1) + SlotsAt(n - 1)
  }

  ghost function ServingSlots(ino: nat, n: nat): set<Slot>
    requires n <= MAX_BLOCKS
  {
    set b: nat, s: Slot | b < n && s in Path(Leaf(ino, b)) && s.InRange() && s.ino == ino :: s
  }

  lemma ServingIs(ino: nat, n: nat)
    requires n <= MAX_BLOCKS
    ensures forall s: Slot :: s in ServingSlots(ino, n) <==> Serves(s, ino, n)
  {
    forall s: Slot
      ensures s in ServingSlots(ino, n) <==> Serves(s, ino, n)
    {
      if s in ServingSlots(ino, n) {
        var b: nat :| b < n && s in Path(Leaf(ino, b)) && s.InRange() && s.ino == ino;
        OnPathServes(s, ino, b, n);
      }
      if Serves(s, ino, n) {
        FirstBlockPath(s);
        assert FirstBlock(s) < n && s in Path(Leaf(ino, FirstBlock(s)));
      }
    }
  }

  /** The slots that serve block `b` and no block before it. */
  ghost function NewSlots(ino: nat, b: nat): set<Slot>
    requires b < MAX_BLOCKS
  {
    {Leaf(ino, b)} + (if b == NUM_DIRECT then {Ind(ino)} else {})
    + (if b >= 132 && (b - 132) % 128 == 0 then {DindMid(ino, (b - 132) / 16384, (b - 132) % 16384 / 128)} else {})
    + (if b >= 132 && (b - 132) % 16384 == 0 then {Dind(ino, (b - 132) / 16384)} else {})
  }

  lemma NewSlotsSize(ino: nat, b: nat)
    requires b < MAX_BLOCKS
    ensures |NewSlots(ino, b)| == SlotsAt(b)
  {
  }

  lemma NewSlotsAre(ino: nat, b: nat)
    requires b < MAX_BLOCKS
    ensures forall s: Slot :: s in NewSlots(ino, b) <==> s.ino == ino && s.InRange() && FirstBlock(s) == b
  {
    forall s: Slot
      ensures s in NewSlots(ino, b) <==> s.ino == ino && s.InRange() && FirstBlock(s) == b
    {
      NewSlotIs(ino, b, s);
    }
  }

  lemma NewSlotIs(ino: nat, b: nat, s: Slot)
    requires b < MAX_BLOCKS
    ensures s in NewSlots(ino, b) <==> s.ino == ino && s.InRange() && FirstBlock(s) == b
  {
    if s.IsLeaf() && s.InRange() {
      LeafOfBlockNumber(s);
    }
  }

  lemma {:induction false} ServingCount(ino: nat, n: nat)
    requires n <= MAX_BLOCKS
    ensures |ServingSlots(ino, n)| == SlotCount(n)
  {
    hide ServingSlots, NewSlots, SlotsAt, FirstBlock;
    ServingIs(ino, n);
    if n == 0 {
      assert ServingSlots(ino, 0) == {};
    } else {
      ServingCount(ino, n - 1);
      ServingIs(ino, n - 1);
      NewSlotsAre(ino, n - 1);
      NewSlotsSize(ino, n - 1);
      assert ServingSlots(ino, n) == ServingSlots(ino, n - 1) + NewSlots(ino, n - 1);
      Disjoint(ServingSlots(ino, n - 1), NewSlots(ino, n - 1));
    }
  }

  /** What a new file lacks. */
  function NewWants(): Wants {
    seq(MAX_BLOCKS + 1, n requires 0 <= n <= MAX_BLOCKS => SlotCount(n))
  }

  lemma EmptyWants(d: Image, ino: nat)
    requires ino < |d.inodes| && d.inodes[ino] == EMPTY_INODE
    ensures WantsOf(d, ino) == NewWants()
  {
    hide AbsentSlots, ServingSlots, SlotCount;
    WantsAt(d, ino);
    forall n | 0 <= n <= MAX_BLOCKS
      ensures Lacking(d, ino, n) == SlotCount(n)
    {
      AbsentIs(d, ino, n);
      ServingIs(ino, n);
      assert AbsentSlots(d, ino, n) == ServingSlots(ino, n);
      ServingCount(ino, n);
    }
  }
}
