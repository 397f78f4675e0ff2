/** What add_dentry does when it takes an index block that is not blank. */
module KtfsStale {
  import opened Results
  import opened KtfsImage
  import opened KtfsTree
  import opened KtfsGrowth
  import opened KtfsLimits
  import opened KtfsSteps
  import opened KtfsEntries
  import opened KtfsDirectory

  // ---------------------------------------------------------------- exactly when the trees are kept

  /** No step without clearing changes a word that is not zero, or an inode's pointer that is set. */
  ghost predicate WordsStay(a: Image, b: Image) {
    && |b.data| == |a.data| && |b.inodes| == |a.inodes|
    && (forall h, k :: 0 <= h < |a.data| && 0 <= k < PTRS_PER_BLOCK && Ptr(a.data[h], k) != 0 ==>
          Ptr(b.data[h], k) == Ptr(a.data[h], k))
    && (forall s: Slot :: s.InRange() && s.ino < |a.inodes| && !InIndexBlock(s) && InodePtr(a.inodes[s.ino], s) != 0 ==>
          InodePtr(b.inodes[s.ino], s) == InodePtr(a.inodes[s.ino], s))
  }

  lemma FillWords(a: Image, s: Slot)
    requires s.InRange() && s.ino < |a.inodes| && |a.dataBits| <= 0x8000_0000
    ensures WordsStay(a, Fill(a, s, false).0)
    ensures var f := Fill(a, s, false);
      FreeCount(f.0.dataBits) == FreeCount(a.dataBits) - (if f == (a, f.1) then 0 else 1) && (f.1.Err? ==> f.0 == a)
  {
    var f := Fill(a, s, false);
    FirstFreeIs(a.dataBits);
    if f != (a, f.1) {
      var v := FirstFree(a.dataBits);
      FreeCountTake(a.dataBits, v);
      if InIndexBlock(s) {
        SetPtrStays(a, Holder(a, s), Entry(s), v);
      }
    }
  }

  lemma SetPtrStays(a: Image, h: nat, k: nat, v: Uint32)
    requires h < |a.data| && k < PTRS_PER_BLOCK && Ptr(a.data[h], k) == 0
    ensures forall j :: 0 <= j < PTRS_PER_BLOCK && Ptr(a.data[h], j) != 0 ==> Ptr(SetPtr(a.data[h], k, v), j) == Ptr(a.data[h], j)
  {
    hide Ptr, SetPtr;
    forall j | 0 <= j < PTRS_PER_BLOCK
      ensures Ptr(a.data[h], j) != 0 ==> Ptr(SetPtr(a.data[h], k, v), j) == Ptr(a.data[h], j)
    {
      PtrOfSetPtr(a.data[h], k, v, j);
    }
  }

  /** The word that makes a block not blank. */
  lemma StaleWord(a: Image, v: nat) returns (k: nat)
    requires v < |a.data| && !NoPointers(a.data[v])
    ensures k < PTRS_PER_BLOCK && Ptr(a.data[v], k) != 0
  {
    k :| k < PTRS_PER_BLOCK && Ptr(a.data[v], k) != 0;
  }

  lemma StaleIndirect(a: Image, live: set<nat>, leaf: Slot)
    requires Shape(a) && Owned(a, live) && leaf.IndLeaf? && Live(a, live, leaf) && Val(a, Ind(leaf.ino)) == 0
    requires FirstFree(a.dataBits) < |a.data| && !NoPointers(a.data[FirstFree(a.dataBits)])
    ensures !Reached(a, Located(a, leaf, false).0, live, leaf, Located(a, leaf, false).1)
  {
    hide Owned, SetPtr, TakeFirst, NthFree, BytesStay, NewRef;
    var top, v := Ind(leaf.ino), FirstFree(a.dataBits);
    FirstFreeIs(a.dataBits);
    var k := StaleWord(a, v);
    var f := Fill(a, top, false);
    var g := Fill(f.0, leaf, false);
    var c := g.0;
    FillWords(a, top);
    FillWords(f.0, leaf);
    assert f.0 == AllocSlot(a, top, v, false) && f.0.data == a.data && f.0.inodes[leaf.ino].indirect == v;
    assert InodePtr(c.inodes[leaf.ino], top) == v;
    if k != leaf.k {
      OffPath(a, c, live, leaf, IndLeaf(leaf.ino, k));
      NotGrown(a, c, live, leaf, g.1);
    } else {
      assert Val(f.0, leaf) != 0 && g == (f.0, Ok(Val(f.0, leaf)));
      TookTooFew(a, c, live, leaf, g.1);
    }
  }

  /** A success that took fewer blocks than were missing. */
  lemma TookTooFew(a: Image, c: Image, live: set<nat>, leaf: Slot, r: Result<nat>)
    requires leaf.IsLeaf() && leaf.InRange() && leaf.ino < |a.inodes|
    requires r.Ok? && FreeCount(a.dataBits) < FreeCount(c.dataBits) + Missing(a, leaf)
    ensures !Reached(a, c, live, leaf, r)
  {
    hide Grown, Owned, Shape, FreeCount, NthFree, TakeFirst;
    if Reached(a, c, live, leaf, r) {
      PresentComplete(c, leaf);
    }
  }

  lemma OffPath(a: Image, c: Image, live: set<nat>, leaf: Slot, t: Slot)
    requires leaf.IsLeaf() && Live(a, live, t) && t !in Path(leaf) && Val(a, t) == 0
    requires |c.inodes| == |a.inodes| && Val(c, t) != 0
    ensures !Grown(a, c, live, Path(leaf))
  {
  }

  /** From a state with the outer index block present and the inner one absent: a stale word of the block taken for
      it shows in another slot, or stands in for the block of the file block itself. */
  lemma StaleMid(b: Image, leaf: Slot, k: nat)
    requires leaf.DindLeaf? && leaf.InRange() && leaf.ino < |b.inodes| && |b.dataBits| <= 0x8000_0000
    requires 0 < Val(b, Dind(leaf.ino, leaf.d)) < |b.data| && Val(b, DindMid(leaf.ino, leaf.d, leaf.m)) == 0
    requires 0 < FirstFree(b.dataBits) < |b.data| <= |b.dataBits| && FirstFree(b.dataBits) != Val(b, Dind(leaf.ino, leaf.d))
    requires k < PTRS_PER_BLOCK && Ptr(b.data[FirstFree(b.dataBits)], k) != 0
    ensures var g := Fill(b, DindMid(leaf.ino, leaf.d, leaf.m), false);
      var h := Fill(g.0, leaf, false);
      && g.1.Ok? && Val(h.0, DindLeaf(leaf.ino, leaf.d, leaf.m, k)) != 0
      && (k == leaf.k ==> h.1.Ok? && FreeCount(h.0.dataBits) == FreeCount(b.dataBits) - 1)
  {
    hide SetPtr, TakeFirst, NthFree, FirstFree, Ptr;
    var top, mid, v := Dind(leaf.ino, leaf.d), DindMid(leaf.ino, leaf.d, leaf.m), FirstFree(b.dataBits);
    var outer := Val(b, top);
    var g := Fill(b, mid, false);
    var h := Fill(g.0, leaf, false);
    FillWords(b, mid);
    FillWords(g.0, leaf);
    assert Holder(b, mid) == outer && CanHold(b, mid, v, false);
    assert g == (AllocSlot(b, mid, v, false), Ok(v));
    PtrOfSetPtr(b.data[outer], leaf.m, v, leaf.m);
    assert g.0.data[v] == b.data[v] && Ptr(g.0.data[outer], leaf.m) == v;
    assert InodePtr(g.0.inodes[leaf.ino], top) == outer && InodePtr(h.0.inodes[leaf.ino], top) == outer;
    assert Val(g.0, mid) == v && Val(h.0, mid) == v;
    assert Val(h.0, DindLeaf(leaf.ino, leaf.d, leaf.m, k)) == Ptr(h.0.data[v], k);
    if k == leaf.k {
      assert Val(g.0, leaf) == Ptr(g.0.data[v], k);
    }
  }

  lemma FillPresent(a: Image, s: Slot)
    requires s.InRange() && s.ino < |a.inodes| && |a.dataBits| <= 0x8000_0000 && !InIndexBlock(s) && Val(a, s) != 0
    ensures Fill(a, s, false) == (a, Ok(Val(a, s)))
  {
  }

  /** Blocks taken and slots filled do not match. */
  lemma Unbalanced(a: Image, c: Image, live: set<nat>, leaf: Slot, r: Result<nat>)
    requires leaf.IsLeaf() && leaf.InRange() && leaf.ino < |a.inodes| == |c.inodes|
    requires FreeCount(c.dataBits) + Missing(a, leaf) != FreeCount(a.dataBits) + Missing(c, leaf)
    ensures !Reached(a, c, live, leaf, r)
  {
    hide Grown, Owned, Shape, FreeCount, NthFree, TakeFirst;
  }

  lemma StaleInner(a: Image, b: Image, live: set<nat>, leaf: Slot)
    requires leaf.DindLeaf? && Live(a, live, leaf) && |a.dataBits| <= 0x8000_0000 && |b.inodes| == |a.inodes|
    requires |b.dataBits| <= 0x8000_0000 && |b.data| <= |b.dataBits|
    requires var top, mid := Dind(leaf.ino, leaf.d), DindMid(leaf.ino, leaf.d, leaf.m);
      && 0 < Val(b, top) < |b.data| && Val(b, mid) == 0 && Val(a, mid) == 0
      && FreeCount(a.dataBits) <= FreeCount(b.dataBits) + Absent(a, top)
      && Fill(a, top, false).0 == b && Fill(a, top, false).1.Ok?
      && 0 < FirstFree(b.dataBits) < |b.data| && FirstFree(b.dataBits) != Val(b, top)
      && !NoPointers(b.data[FirstFree(b.dataBits)])
    ensures !Reached(a, Located(a, leaf, false).0, live, leaf, Located(a, leaf, false).1)
  {
    hide Fill, Owned, Grown, Reached, FreeCount, FirstFree, Ptr;
    var mid := DindMid(leaf.ino, leaf.d, leaf.m);
    var k := StaleWord(b, FirstFree(b.dataBits));
    StaleMid(b, leaf, k);
    var g := Fill(b, mid, false);
    var h := Fill(g.0, leaf, false);
    assert Located(a, leaf, false) == h;
    if k != leaf.k {
      OffPath(a, h.0, live, leaf, DindLeaf(leaf.ino, leaf.d, leaf.m, k));
      NotGrown(a, h.0, live, leaf, h.1);
    } else {
      TookTooFew(a, h.0, live, leaf, h.1);
    }
  }

  lemma NotGrown(a: Image, c: Image, live: set<nat>, leaf: Slot, r: Result<nat>)
    requires leaf.IsLeaf() && !Grown(a, c, live, Path(leaf))
    ensures !Reached(a, c, live, leaf, r)
  {
    hide Grown;
  }

  lemma StaleOuter(a: Image, live: set<nat>, leaf: Slot)
    requires Shape(a) && leaf.DindLeaf? && Live(a, live, leaf) && Val(a, Dind(leaf.ino, leaf.d)) == 0
    requires FirstFree(a.dataBits) < |a.data| && !NoPointers(a.data[FirstFree(a.dataBits)])
    ensures !Reached(a, Located(a, leaf, false).0, live, leaf, Located(a, leaf, false).1)
  {
    hide Owned, SetPtr, TakeFirst, NthFree, BytesStay, NewRef, Grown, Reached, Ptr, FreeCount;
    var top, mid, v := Dind(leaf.ino, leaf.d), DindMid(leaf.ino, leaf.d, leaf.m), FirstFree(a.dataBits);
    FirstFreeIs(a.dataBits);
    var k := StaleWord(a, v);
    var f := Fill(a, top, false);
    var g := Fill(f.0, mid, false);
    var h := Fill(g.0, leaf, false);
    FillWords(a, top);
    FillWords(f.0, mid);
    FillWords(g.0, leaf);
    assert f == (AllocSlot(a, top, v, false), Ok(v)) && f.0.data == a.data;
    assert InodePtr(f.0.inodes[leaf.ino], top) == v;
    assert InodePtr(g.0.inodes[leaf.ino], top) == v && InodePtr(h.0.inodes[leaf.ino], top) == v;
    var c := Located(a, leaf, false);
    if k != leaf.m {
      var t := DindMid(leaf.ino, leaf.d, k);
      assert Val(c.0, t) == Ptr(c.0.data[v], k);
      OffPath(a, c.0, live, leaf, t);
      NotGrown(a, c.0, live, leaf, c.1);
    } else {
      assert Val(f.0, mid) == Ptr(f.0.data[v], k);
      assert g == (f.0, Ok(Val(f.0, mid))) && c == h;
      if c.1.Ok? {
        TookTooFew(a, c.0, live, leaf, c.1);
      } else {
        assert Missing(c.0, leaf) <= 1;
        Unbalanced(a, c.0, live, leaf, c.1);
      }
    }
  }

  lemma SecondFree(a: Image, b: Image, live: set<nat>, leaf: Slot, r: Result<nat>)
    requires Shape(a) && leaf.DindLeaf? && Live(a, live, leaf) && Val(a, Dind(leaf.ino, leaf.d)) == 0
    requires Entered(a, b, live, Path(leaf), Dind(leaf.ino, leaf.d), r) && FreeCount(a.dataBits) > 1
    requires !Blank(a, NthFree(a.dataBits, 1))
    ensures r.Ok? && Val(b, DindMid(leaf.ino, leaf.d, leaf.m)) == 0 && 0 < Val(b, Dind(leaf.ino, leaf.d)) < |b.data|
    ensures 0 < FirstFree(b.dataBits) < |b.data| <= |b.dataBits| <= 0x8000_0000 && !NoPointers(b.data[FirstFree(b.dataBits)])
    ensures FirstFree(b.dataBits) != Val(b, Dind(leaf.ino, leaf.d)) && FreeCount(a.dataBits) <= FreeCount(b.dataBits) + 1
    ensures |b.inodes| == |a.inodes| && Val(a, DindMid(leaf.ino, leaf.d, leaf.m)) == 0
  {
    hide TotalBlocks, NewRef, FreeCount, TakeFirst;
    var top, mid := Dind(leaf.ino, leaf.d), DindMid(leaf.ino, leaf.d, leaf.m);
    assert Live(a, live, mid) && Live(b, live, top);
    TakeFirstTwice(a.dataBits, 1, 0);
    FirstFreeIs(b.dataBits);
    assert BytesStay(a, b, live);
  }

  lemma StaleDindirect(a: Image, live: set<nat>, leaf: Slot)
    requires Shape(a) && Owned(a, live) && leaf.DindLeaf? && Live(a, live, leaf) && !IndexBlocksBlank(a, leaf)
    ensures !Reached(a, Located(a, leaf, false).0, live, leaf, Located(a, leaf, false).1)
  {
    hide Owned, SetPtr, BytesStay, NewRef, Grown, Fill;
    assert NthFree(a.dataBits, 0) == FirstFree(a.dataBits);
    var top, mid := Dind(leaf.ino, leaf.d), DindMid(leaf.ino, leaf.d, leaf.m);
    assert Live(a, live, top) && Live(a, live, mid);
    FirstFreeIs(a.dataBits);
    if Val(a, top) != 0 {
      ValInRange(a, live, top);
      FillPresent(a, top);
      assert MissingAbove(a, leaf) == 1 && FreeCount(a.dataBits) > 0 && !Blank(a, NthFree(a.dataBits, 0));
      StaleInner(a, a, live, leaf);
    } else if Blank(a, NthFree(a.dataBits, 0)) {
      TakeFirstTwice(a.dataBits, 1, 0);
      assert FreeCount(a.dataBits) > 1 && !Blank(a, NthFree(a.dataBits, 1));
      FillEntered(a, live, Path(leaf), top, false);
      var f := Fill(a, top, false);
      SecondFree(a, f.0, live, leaf, f.1);
      StaleInner(a, f.0, live, leaf);
    } else {
      StaleOuter(a, live, leaf);
    }
  }

  /** The allocation part of add_dentry does what get_or_alloc_data_block would do (no slot off the path changes, and
      exactly the missing blocks are taken) exactly when the free blocks it takes as index blocks are blank. */
  lemma ReachedExactly(a: Image, live: set<nat>, leaf: Slot)
    requires Shape(a) && Owned(a, live) && leaf.IsLeaf() && Live(a, live, leaf)
    ensures |a.dataBits| <= 0x8000_0000
    ensures Reached(a, Located(a, leaf, false).0, live, leaf, Located(a, leaf, false).1) <==> IndexBlocksBlank(a, leaf)
  {
    hide Reached, Located, Owned, FreeCount, NthFree;
    if IndexBlocksBlank(a, leaf) {
      LocatedReached(a, live, leaf, false);
    } else if leaf.IndLeaf? {
      FirstTaken(a, leaf);
      StaleIndirect(a, live, leaf);
    } else {
      StaleDindirect(a, live, leaf);
    }
  }

  lemma FirstTaken(a: Image, leaf: Slot)
    requires Shape(a) && leaf.IndLeaf? && leaf.InRange() && leaf.ino < |a.inodes| && !IndexBlocksBlank(a, leaf)
    ensures Val(a, Ind(leaf.ino)) == 0
    ensures FirstFree(a.dataBits) < |a.data| && !NoPointers(a.data[FirstFree(a.dataBits)])
  {
    FirstFreeIs(a.dataBits);
    assert NthFree(a.dataBits, 0) == FirstFree(a.dataBits);
  }

  // ---------------------------------------------------------------- a full directory

  /** Block `j` of a directory of 128 entries: entry `n` names inode `n + 1` with the one character `n + 1`. */
  function DirBlock(j: nat): Block
    requires 1 <= j <= 4
  {
    seq(512, k requires 0 <= k < 512 => if k % 16 == 0 || k % 16 == 2 then 32 * (j - 1) + k / 16 + 1 else 0)
  }

  /** A full set of direct blocks, 1 to 4; a file, inode 1, with the one block 6; and a lowest free block, 5, that
      was once an index block and still holds `w` as its first word. Block 7 is free too, or it is not. */
  function FullDir(w: Uint32, two: bool): Image
    requires w < 8
  {
    Image(seq(4096, i => i != 129),
          seq(4096, v => v != 5 && (v != 7 || !two)),
          seq(130, i => if i == 0 then Inode(2048, [1, 2, 3, 4], 0, [0, 0])
                        else if i == 1 then Inode(512, [6, 0, 0, 0], 0, [0, 0])
                        else EMPTY_INODE),
          [ZeroBlock(), DirBlock(1), DirBlock(2), DirBlock(3), DirBlock(4), SetPtr(ZeroBlock(), 0, w), ZeroBlock(), ZeroBlock()])
  }

  ghost function FullDirLive(w: Uint32, two: bool): set<nat>
    requires w < 8
  {
    set i: nat | i < 130 && FullDir(w, two).inodeBits[i]
  }

  lemma StaleSlots(w: Uint32, two: bool)
    requires w < 8
    ensures forall t: Slot :: Live(FullDir(w, two), FullDirLive(w, two), t) && Val(FullDir(w, two), t) != 0 ==>
              t.Direct? && ((t.ino == 0 && Val(FullDir(w, two), t) == t.k + 1) || (t == Direct(1, 0) && Val(FullDir(w, two), t) == 6))
    ensures forall k: nat :: k < 4 ==> Val(FullDir(w, two), Direct(0, k)) == k + 1
    ensures Val(FullDir(w, two), Direct(1, 0)) == 6
  {
    hide SetPtr, ZeroBlock, DirBlock;
  }

  lemma StaleSound(w: Uint32, two: bool)
    requires w < 8
    ensures Sound(FullDir(w, two), FullDirLive(w, two))
  {
    hide SetPtr, ZeroBlock, DirBlock, Val;
    StaleSlots(w, two);
    assert Shape(FullDir(w, two));
    forall s: Slot | Live(FullDir(w, two), FullDirLive(w, two), s) && FirstBlock(s) < NumBlocks(FullDir(w, two).inodes[s.ino].size)
      ensures Val(FullDir(w, two), s) != 0
    {
      assert s.Direct?;
    }
  }

  lemma StaleEntry(w: Uint32, two: bool, n: nat)
    requires w < 8 && n < 128
    ensures EntryAt(FullDir(w, two), 0, n).inode == n + 1 && |EntryAt(FullDir(w, two), 0, n).name| == NAME_LEN
    ensures 0 in EntryAt(FullDir(w, two), 0, n).name && NameOf(EntryAt(FullDir(w, two), 0, n)) == [n + 1]
  {
    hide DirBlock, DentryAt, CString, ZeroBlock, SetPtr, Val;
    StaleSlots(w, two);
    var j := n / PER_BLOCK + 1;
    assert Leaf(0, n / PER_BLOCK) == Direct(0, n / PER_BLOCK);
    assert FullDir(w, two).data[j] == DirBlock(j);
    DirEntry(j, n % PER_BLOCK);
  }

  lemma DirEntry(j: nat, e: nat)
    requires 1 <= j <= 4 && e < PER_BLOCK
    ensures var d := DentryAt(DirBlock(j), e);
      && d.inode == 32 * (j - 1) + e + 1 && |d.name| == NAME_LEN && 0 in d.name && NameOf(d) == [32 * (j - 1) + e + 1]
  {
    var d := DentryAt(DirBlock(j), e);
    assert d.name[0] == 32 * (j - 1) + e + 1 && d.name[1] == 0;
    assert CString(d.name[1..]) == [];
  }

  lemma StaleDirOk(w: Uint32, two: bool)
    requires w < 8
    ensures DirOk(FullDir(w, two), FullDirLive(w, two), 0) && Count(FullDir(w, two), 0) == 128
    ensures forall n :: 0 <= n < 128 ==> NameOf(Entries(FullDir(w, two), 0)[n]) == [n + 1]
  {
    hide SetPtr, ZeroBlock, DirBlock, Val, EntryAt, CString;
    StaleSound(w, two);
    EntriesLength(FullDir(w, two), 0);
    forall n: nat | n < 128
      ensures Entries(FullDir(w, two), 0)[n] == EntryAt(FullDir(w, two), 0, n) && EntryAt(FullDir(w, two), 0, n).inode == n + 1
      ensures |EntryAt(FullDir(w, two), 0, n).name| == NAME_LEN && 0 in EntryAt(FullDir(w, two), 0, n).name
      ensures NameOf(EntryAt(FullDir(w, two), 0, n)) == [n + 1]
    {
      StaleEntry(w, two, n);
    }
  }

  lemma StaleFree()
    ensures FirstFree(FullDir(6, true).dataBits) == 5 && FreeCount(FullDir(6, true).dataBits) >= 2
  {
    hide SetPtr, ZeroBlock, DirBlock;
    var bits := FullDir(6, true).dataBits;
    FirstFreeFound(bits, 5);
    FreeCountTake(bits, 5);
    FreeCountTake(bits[5 := true], 7);
  }

  lemma SharedNotOwned(img: Image, live: set<nat>, s: Slot, t: Slot)
    requires Live(img, live, s) && Live(img, live, t) && s != t && Val(img, s) == Val(img, t) != 0
    ensures !Owned(img, live)
  {
  }

  lemma StaleNotReady()
    ensures Ptr(FullDir(6, true).data[5], 0) == 6 && Leaf(0, 128 / PER_BLOCK) == IndLeaf(0, 0)
    ensures Count(FullDir(6, true), 0) == 128 && !IndexReady(FullDir(6, true), 0) && HasRoom(FullDir(6, true), 0)
    ensures |FullDir(6, true).dataBits| == 4096 && |FullDir(6, true).inodes| == 130
  {
    hide DirBlock, Ptr, SetPtr, FirstFree, FreeCount, ZeroBlock;
    StaleFree();
    StaleSlots(6, true);
    var a, leaf := FullDir(6, true), IndLeaf(0, 0);
    PtrOfSetPtr(ZeroBlock(), 0, 6, 0);
    assert Leaf(0, 128 / PER_BLOCK) == leaf && Live(a, FullDirLive(6, true), Ind(0)) && Val(a, Ind(0)) == 0;
    assert NthFree(a.dataBits, 0) == 5 && !Blank(a, 5);
    assert MissingAbove(a, leaf) == 1;
  }

  /** The image after the entry went through the stale word. */
  lemma StaleTaken(d: Dentry)
    requires d.inode == 129 && |d.name| == NAME_LEN
    ensures var a := FullDir(6, true);
      && Count(a, 0) < DENTRY_LIMIT && |a.dataBits| <= 0x8000_0000
      && var c := WithDentry(a, 0, d);
        && c.inodes == a.inodes[0 := Inode(2064, [1, 2, 3, 4], 5, [0, 0])]
        && c.data == a.data[6 := Overwrite(a.data[6], 0, DentryBytes(d))]
  {
    hide DirBlock, Ptr, SetPtr, FirstFree, FreeCount, ZeroBlock, DentryBytes, Overwrite, IndexReady, HasRoom;
    StaleNotReady();
    StaleFree();
    var a, leaf := FullDir(6, true), IndLeaf(0, 0);
    var f := Fill(a, Ind(0), false);
    assert f == (AllocSlot(a, Ind(0), 5, false), Ok(5));
    assert Val(f.0, leaf) == 6;
    assert Fill(f.0, leaf, false) == (f.0, Ok(6));
    assert Located(a, leaf, false) == (f.0, Ok(6));
  }

  /** So a directory can come to share a file's block: the entry with index 128 goes through the stale word, over the
      file's first bytes, although two blocks were free. */
  lemma StaleIndexBlock(d: Dentry)
    requires d.inode == 129 && |d.name| == NAME_LEN
    ensures var a, live := FullDir(6, true), FullDirLive(6, true);
      && DirOk(a, live, 0) && Count(a, 0) == 128 && HasRoom(a, 0) && HasFreeInode(a) && !IndexReady(a, 0)
      && |a.dataBits| <= 0x8000_0000
      && var c := WithDentry(a, 0, d);
        && |c.inodes| == |a.inodes| && Count(c, 0) == 129
        && Val(c, IndLeaf(0, 0)) == Val(c, Direct(1, 0)) == 6 && !Owned(c, live)
        && ByteAt(a, 1, 0) == 0 != ByteAt(c, 1, 0)
  {
    hide DirBlock, Ptr, SetPtr, FirstFree, FreeCount, IndexReady, HasRoom, DirOk, WithDentry, Owned;
    StaleDirOk(6, true);
    StaleNotReady();
    StaleTaken(d);
    var a, live := FullDir(6, true), FullDirLive(6, true);
    assert !a.inodeBits[129];
    var c := WithDentry(a, 0, d);
    assert Val(c, IndLeaf(0, 0)) == Ptr(c.data[5], 0) && Live(c, live, IndLeaf(0, 0));
    assert Live(c, live, Direct(1, 0)) && Leaf(1, 0) == Direct(1, 0);
    SharedNotOwned(c, live, IndLeaf(0, 0), Direct(1, 0));
  }
}
