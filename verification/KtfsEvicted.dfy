/** What becomes of the volume when add_dentry runs out of blocks on the way: the buffers it changed are released as
    clean, so what it wrote there is gone once the cache takes them over (`CacheRuns.CleanReleaseForgets`), while the
    bits of the blocks it took stay set. */
module KtfsEvicted {
  import opened Machine
  import opened Results
  import opened KtfsImage
  import opened KtfsTree
  import opened KtfsGrowth
  import opened KtfsLimits
  import opened KtfsSteps
  import opened KtfsEntries
  import opened KtfsFiles
  import opened KtfsDirectory
  import opened KtfsSystem
  import opened KtfsStale

  // ---------------------------------------------------------------- what was written and where

  /** From `a`, the image is `d` as long as the buffers stay. This is what is left of it without the buffer of the
      root's inode, without that of the index block, or without both. */
  function Evicted(a: Image, d: Image, root: nat, inodeBuf: bool, indexBuf: bool): Image
    requires root < |a.inodes| && root < |d.inodes|
  {
    d.(inodes := if inodeBuf then d.inodes[root := a.inodes[root]] else d.inodes, data := if indexBuf then a.data else d.data)
  }

  /** Filling a slot changes the inode or one index block. */
  lemma FillSides(a: Image, s: Slot)
    requires s.InRange() && s.ino < |a.inodes| && |a.dataBits| <= 0x8000_0000
    ensures var b := Fill(a, s, false).0;
      && b.inodeBits == a.inodeBits && (Fill(a, s, false).1.Err? ==> b == a) && (Val(a, s) != 0 ==> b == a)
      && (!InIndexBlock(s) ==> b.data == a.data && forall i :: 0 <= i < |a.inodes| && i != s.ino ==> b.inodes[i] == a.inodes[i])
      && (InIndexBlock(s) ==> b.inodes == a.inodes && forall h :: 0 <= h < |a.data| && h != Holder(a, s) ==> b.data[h] == a.data[h])
  {
    hide FirstFree, SetPtr;
  }

  /** A failed search for the block of an entry has stages: at most the index block that the inode refers to was taken,
      which left `b`, and then at most the one below it. */
  lemma Stages(a: Image, live: set<nat>, leaf: Slot) returns (top: Slot, b: Image)
    requires Shape(a) && Owned(a, live) && leaf.IsLeaf() && !leaf.Direct? && Live(a, live, leaf) && IndexBlocksBlank(a, leaf)
    requires |a.dataBits| <= 0x8000_0000 && Located(a, leaf, false).1.Err?
    ensures top.ino == leaf.ino && !InIndexBlock(top) && !top.IsLeaf() && Live(a, live, top) && Live(b, live, top)
    ensures Owned(b, live) && |b.inodes| == |a.inodes| && b.data == a.data && (Val(a, top) != 0 ==> b == a)
    ensures forall i :: 0 <= i < |a.inodes| && i != leaf.ino ==> b.inodes[i] == a.inodes[i]
    ensures forall t: Slot :: Live(a, live, t) && t != top ==> Live(b, live, t) && Val(b, t) == Val(a, t)
    ensures var c := Located(a, leaf, false).0;
      && c.inodes == b.inodes && |c.data| == |b.data|
      && (forall h :: 0 <= h < |b.data| && h != Val(b, top) ==> c.data[h] == b.data[h])
  {
    hide Owned, Fill, Grown, FreeCount, TakeFirst, NthFree, IndexBlocksBlank, Shape;
    top := if leaf.IndLeaf? then Ind(leaf.ino) else Dind(leaf.ino, leaf.d);
    var f := TopFilled(a, live, leaf, top, false);
    b := f.0;
    FillSides(a, top);
    if f.1.Ok? {
      FillSides(f.0, if leaf.IndLeaf? then leaf else DindMid(leaf.ino, leaf.d, leaf.m));
      if leaf.DindLeaf? {
        FillSides(Fill(f.0, DindMid(leaf.ino, leaf.d, leaf.m), false).0, leaf);
      }
    }
  }

  /** Every reference is the one that was held, or is gone and was not there before. */
  ghost predicate Forgotten(a: Image, c: Image, e: Image, live: set<nat>) {
    && |c.inodes| == |a.inodes| && |e.inodes| == |a.inodes|
    && forall t: Slot :: Live(a, live, t) ==> Val(e, t) == Val(c, t) || Val(e, t) == 0 == Val(a, t)
  }

  ghost predicate SameVals(a: Image, e: Image, live: set<nat>) {
    |e.inodes| == |a.inodes| && forall t: Slot :: Live(a, live, t) ==> Val(e, t) == Val(a, t)
  }

  lemma SameSides(a: Image, e: Image, live: set<nat>)
    requires e.inodes == a.inodes && e.data == a.data
    ensures SameVals(a, e, live)
  {
  }

  lemma EvictedVals(a: Image, live: set<nat>, leaf: Slot, inodeBuf: bool, indexBuf: bool)
    requires Shape(a) && Owned(a, live) && leaf.IsLeaf() && !leaf.Direct? && Live(a, live, leaf) && IndexBlocksBlank(a, leaf)
    requires |a.dataBits| <= 0x8000_0000 && Located(a, leaf, false).1.Err?
    ensures var c := Located(a, leaf, false).0; var e := Evicted(a, c, leaf.ino, inodeBuf, indexBuf);
      Forgotten(a, c, e, live) && (inodeBuf && indexBuf ==> SameVals(a, e, live))
  {
    hide Val, Owned, Located, IndexBlocksBlank, Shape, Grown, SameVals, Forgotten;
    var c := Located(a, leaf, false).0;
    var e := Evicted(a, c, leaf.ino, inodeBuf, indexBuf);
    var top, b := Stages(a, live, leaf);
    LocatedReached(a, live, leaf, false);
    if !inodeBuf && !indexBuf {
      SameSides(c, e, live);
      KeptForgotten(a, c, e, live);
    } else if !inodeBuf {
      SameSides(b, e, live);
      SameSides(b, c.(data := b.data), live);
      HalfForgotten(a, b, c, e, live, top, leaf);
    } else if indexBuf {
      assert e.inodes == a.inodes;
      SameSides(a, e, live);
      GoneForgotten(a, c, e, live, leaf);
    } else if Val(a, top) != 0 {
      assert e.inodes == c.inodes;
      SameSides(c, e, live);
      KeptForgotten(a, c, e, live);
    } else {
      assert e.inodes == a.inodes;
      InnerUnseen(a, b, c, e, live, top);
      GoneForgotten(a, c, e, live, leaf);
    }
  }

  lemma KeptForgotten(a: Image, c: Image, e: Image, live: set<nat>)
    requires |c.inodes| == |a.inodes| && SameVals(c, e, live)
    ensures Forgotten(a, c, e, live)
  {
    hide Val;
    assert forall t: Slot :: Live(a, live, t) ==> Live(c, live, t);
  }

  lemma GoneForgotten(a: Image, c: Image, e: Image, live: set<nat>, leaf: Slot)
    requires leaf.IsLeaf() && Grown(a, c, live, Path(leaf)) && SameVals(a, e, live)
    ensures Forgotten(a, c, e, live)
  {
    hide Val, Path;
  }

  lemma HalfForgotten(a: Image, b: Image, c: Image, e: Image, live: set<nat>, top: Slot, leaf: Slot)
    requires leaf.IsLeaf() && Grown(a, c, live, Path(leaf)) && SameVals(b, e, live) && |b.inodes| == |a.inodes| && c.inodes == b.inodes
    requires !InIndexBlock(top) && top.InRange() && top.ino < |a.inodes|
    requires forall t: Slot :: Live(a, live, t) && t != top ==> Live(b, live, t) && Val(b, t) == Val(a, t)
    ensures Forgotten(a, c, e, live)
  {
    assert Val(c, top) == Val(b, top);
    hide Val, Path;
    forall t: Slot | Live(a, live, t)
      ensures Val(e, t) == Val(c, t) || Val(e, t) == 0 == Val(a, t)
    {
      assert Live(b, live, t);
    }
  }

  /** Nothing refers to the index block that was taken first any more, so what was written there is not seen. */
  lemma InnerUnseen(a: Image, b: Image, c: Image, e: Image, live: set<nat>, top: Slot)
    requires Owned(a, live) && Owned(b, live) && |b.inodes| == |a.inodes| && b.data == a.data && |c.data| == |a.data|
    requires Live(a, live, top) && Live(b, live, top) && Val(a, top) == 0
    requires forall t: Slot :: Live(a, live, t) && t != top ==> Live(b, live, t) && Val(b, t) == Val(a, t)
    requires forall h :: 0 <= h < |b.data| && h != Val(b, top) ==> c.data[h] == b.data[h]
    requires e.inodes == a.inodes && e.data == c.data
    ensures SameVals(a, e, live)
  {
    SameSides(a.(data := c.data), e, live);
    hide Val;
    forall t: Slot | Live(a, live, t)
      ensures Val(e, t) == Val(a, t)
    {
      DataFrame(a, c.data, live, t);
      assert Live(a.(data := c.data), live, t);
    }
  }

  // ---------------------------------------------------------------- what is left

  /** `c` is held after a failed search from `a`, and `e` is what is left of it. */
  ghost predicate Left(a: Image, c: Image, e: Image, live: set<nat>, leaf: Slot) {
    && leaf.IsLeaf() && Live(a, live, leaf) && Sound(a, live) && Sound(c, live) && Grown(a, c, live, Path(leaf))
    && |e.data| == |c.data| && e.dataBits == c.dataBits && e.inodeBits == c.inodeBits && Forgotten(a, c, e, live)
    && (forall i :: 0 <= i < |a.inodes| ==> e.inodes[i].size == a.inodes[i].size && (i != leaf.ino ==> e.inodes[i] == a.inodes[i]))
    && (e.data == a.data || e.data == c.data)
  }

  lemma LeftSound(a: Image, c: Image, e: Image, live: set<nat>, leaf: Slot)
    requires Left(a, c, e, live, leaf)
    ensures Sound(e, live)
  {
    hide Val, BytesStay, NewRef, Path;
    assert forall t: Slot :: Live(e, live, t) ==> Live(a, live, t) && Live(c, live, t);
  }

  lemma LeftOthers(a: Image, c: Image, e: Image, live: set<nat>, leaf: Slot)
    requires Left(a, c, e, live, leaf)
    ensures OthersSame(a, e, live, leaf.ino)
  {
    hide Val, NewRef;
    forall t: Slot | Live(a, live, t) && t.ino != leaf.ino
      ensures Val(e, t) == Val(a, t)
    {
      assert t !in Path(leaf);
    }
  }

  lemma LeftEntries(a: Image, c: Image, e: Image, live: set<nat>, leaf: Slot)
    requires Left(a, c, e, live, leaf)
    ensures a.inodes[leaf.ino].size <= MAX_FILE_SIZE && e.inodes[leaf.ino].size <= MAX_FILE_SIZE
    ensures Entries(e, leaf.ino) == Entries(a, leaf.ino)
  {
    hide Val, NewRef, DentryAt;
    var root := leaf.ino;
    forall m: nat | m < Count(a, root)
      ensures EntryAt(e, root, m) == EntryAt(a, root, m)
    {
      var s := Leaf(root, m / PER_BLOCK);
      DentryBlocksMapped(a, live, root, m);
      assert s in Path(s) && Live(a, live, s) && Live(c, live, s);
    }
  }

  /** Something has leaked exactly when something had before, or a reference is gone. */
  lemma LeftLeaks(a: Image, c: Image, e: Image, live: set<nat>, leaf: Slot)
    requires Left(a, c, e, live, leaf)
    ensures NoLeaks(e, live) <==> NoLeaks(a, live) && SameVals(c, e, live)
  {
    hide Val, BytesStay;
    if NoLeaks(e, live) {
      LeftTight(a, c, e, live, leaf);
    }
    if NoLeaks(a, live) && SameVals(c, e, live) {
      GrownNoLeaks(a, c, live, Path(leaf));
      SameValsNoLeaks(c, e, live);
    }
  }

  lemma LeftTight(a: Image, c: Image, e: Image, live: set<nat>, leaf: Slot)
    requires Left(a, c, e, live, leaf) && NoLeaks(e, live)
    ensures NoLeaks(a, live) && SameVals(c, e, live)
  {
    hide Val, BytesStay, NewRef;
    forall t: Slot | Live(c, live, t)
      ensures Val(e, t) == Val(c, t)
    {
      assert Live(a, live, t);
      if Val(c, t) != 0 {
        assert c.dataBits[Val(c, t)];
        var u :| Refers(e, live, u, Val(c, t));
        assert Live(a, live, u) && Live(c, live, u);
      }
    }
    forall v | 0 < v < |a.data| && v < |a.dataBits|
      ensures a.dataBits[v] <==> Used(a, live, v)
    {
      if a.dataBits[v] {
        var u :| Refers(e, live, u, v);
        assert Live(a, live, u) && Live(c, live, u) && Refers(a, live, u, v);
      }
    }
  }

  lemma LeftOnPath(a: Image, c: Image, e: Image, live: set<nat>, leaf: Slot)
    requires Left(a, c, e, live, leaf)
    ensures |c.inodes| == |e.inodes| == |a.inodes| && leaf.InRange() && leaf.ino < |a.inodes|
    ensures forall t: Slot :: t in Path(leaf) ==> (
              && t.InRange() && t.ino == leaf.ino && Live(c, live, t) && Absent(c, t) <= Absent(e, t) <= Absent(a, t)
              && (Absent(e, t) == Absent(c, t) <==> Val(e, t) == Val(c, t)))
    ensures forall t: Slot :: Live(c, live, t) && t !in Path(leaf) ==> Val(e, t) == Val(c, t)
  {
    hide Val, BytesStay, NewRef, Shape, Owned;
    assert forall t: Slot :: t in Path(leaf) ==> Live(a, live, t) && Live(c, live, t);
    assert forall t: Slot :: Live(c, live, t) ==> Live(a, live, t);
  }

  /** The next entry lacks between what it lacks with the buffers held and what it lacked before, and more than with
      them exactly when a reference is gone. */
  lemma LeftMissing(a: Image, c: Image, e: Image, live: set<nat>, leaf: Slot)
    requires Left(a, c, e, live, leaf)
    ensures Missing(c, leaf) <= Missing(e, leaf) <= Missing(a, leaf)
    ensures Missing(e, leaf) == Missing(c, leaf) <==> SameVals(c, e, live)
  {
    LeftOnPath(a, c, e, live, leaf);
    hide Left, SameVals, Absent, Val;
    if Missing(e, leaf) == Missing(c, leaf) {
      SamePath(a, c, e, live, leaf);
    } else if SameVals(c, e, live) {
      SameOnPath(c, e, live, leaf);
    }
  }

  lemma SamePath(a: Image, c: Image, e: Image, live: set<nat>, leaf: Slot)
    requires Left(a, c, e, live, leaf) && Missing(e, leaf) == Missing(c, leaf)
    ensures SameVals(c, e, live)
  {
    LeftOnPath(a, c, e, live, leaf);
    hide Left, Absent, Val;
  }

  lemma SameOnPath(c: Image, e: Image, live: set<nat>, leaf: Slot)
    requires SameVals(c, e, live) && leaf.IsLeaf() && Live(c, live, leaf)
    ensures leaf.ino < |e.inodes| && Missing(e, leaf) == Missing(c, leaf)
  {
    hide Val;
    assert forall t: Slot :: t in Path(leaf) ==> Live(c, live, t);
  }

  // ---------------------------------------------------------------- after a create

  lemma FoundNone(a: Image, live: set<nat>, root: nat)
    requires Sound(a, live) && root in live && root < |a.inodes| && RunsOut(a, root) && IndexReady(a, root)
    ensures |a.dataBits| <= 0x8000_0000
    ensures var leaf := Leaf(root, Count(a, root) / PER_BLOCK);
      && !leaf.Direct? && Live(a, live, leaf) && IndexBlocksBlank(a, leaf)
      && Located(a, leaf, false).1.Err? && Sound(Located(a, leaf, false).0, live) && !HasRoom(a, root)
      && FreeCount(Located(a, leaf, false).0.dataBits) == 0
      && Grown(a, Located(a, leaf, false).0, live, Path(leaf))
  {
    hide Owned, Grown, FreeCount, TakeFirst, NthFree, Located, IndexBlocksBlank, Val;
    var leaf := Leaf(root, Count(a, root) / PER_BLOCK);
    SizesOf(a);
    assert Live(a, live, leaf);
    LocatedReached(a, live, leaf, false);
    SoundGrown(a, Located(a, leaf, false).0, live, Path(leaf));
  }

  /** What is left when add_dentry gave up. */
  lemma LeftOver(a: Image, live: set<nat>, root: nat, inodeBuf: bool, indexBuf: bool) returns (e: Image)
    requires Sound(a, live) && root in live && root < |a.inodes| && RunsOut(a, root) && IndexReady(a, root)
    ensures |a.dataBits| <= 0x8000_0000
    ensures var leaf := Leaf(root, Count(a, root) / PER_BLOCK);
      var c := Located(a, leaf, false).0;
      && e == Evicted(a, c, root, inodeBuf, indexBuf) && Left(a, c, e, live, leaf)
      && (inodeBuf && indexBuf ==> SameVals(a, e, live))
  {
    hide Val, Located, FreeCount, IndexBlocksBlank, IndexReady, HasRoom, Missing;
    FoundNone(a, live, root);
    var leaf := Leaf(root, Count(a, root) / PER_BLOCK);
    var c := Located(a, leaf, false).0;
    EvictedVals(a, live, leaf, inodeBuf, indexBuf);
    e := Evicted(a, c, root, inodeBuf, indexBuf);
    LeftParts(a, c, e, live, leaf, inodeBuf, indexBuf);
  }

  lemma LeftParts(a: Image, c: Image, e: Image, live: set<nat>, leaf: Slot, inodeBuf: bool, indexBuf: bool)
    requires leaf.IsLeaf() && Live(a, live, leaf) && Sound(a, live) && Sound(c, live) && Grown(a, c, live, Path(leaf))
    requires e == Evicted(a, c, leaf.ino, inodeBuf, indexBuf) && Forgotten(a, c, e, live)
    ensures Left(a, c, e, live, leaf)
  {
    hide Val, Sound, BytesStay, NewRef, Forgotten;
    assert forall t :: t in Path(leaf) ==> t.ino == leaf.ino;
  }

  /** With the lowest free inode emptied, as the end of ktfs_create does. */
  lemma CreatedLeft(a: Image, live: set<nat>, root: nat, name: seq<Byte>, ino: nat, inodeBuf: bool, indexBuf: bool)
    returns (c: Image, e: Image)
    requires DirOk(a, live, root) && RunsOut(a, root) && IndexReady(a, root) && |name| < NAME_LEN
    requires ino < |a.inodeBits| && !a.inodeBits[ino]
    ensures ino < |a.inodes| <= |a.inodeBits| <= 0x1_0000 && root < |a.inodes| && |a.dataBits| <= 0x8000_0000
    ensures ino !in live && ino < |c.inodes| && ino < |e.inodes|
    ensures var b := a.(inodeBits := a.inodeBits[ino := true]);
      var d := CreatedImage(a, root, name, ino);
      && d == c.(inodes := c.inodes[ino := EMPTY_INODE]) && Left(b, c, e, live, Leaf(root, Count(a, root) / PER_BLOCK))
      && Evicted(a, d, root, inodeBuf, indexBuf) == e.(inodes := e.inodes[ino := EMPTY_INODE])
      && (inodeBuf && indexBuf ==> SameVals(b, e, live)) && FreeCount(c.dataBits) == 0
  {
    hide Val, Sound, Located, FreeCount, IndexReady, RunsOut, HasRoom, Entries, WellNamed, Left, SameVals, NoLeaks, Padded;
    FreeInodeBound(a, live, ino);
    var b := a.(inodeBits := a.inodeBits[ino := true]);
    DirSound(a, live, root);
    InodeBitsOnly(a, b, live, ino, true);
    SameRoom(a, b, root);
    FoundNone(b, live, root);
    e := LeftOver(b, live, root, inodeBuf, indexBuf);
    c := Located(b, Leaf(root, Count(b, root) / PER_BLOCK), false).0;
    RunsOutBelow(a, root);
    assert WithDentry(b, root, Dentry(ino, Padded(name))) == c;
    LeftSizes(b, c, e, live, Leaf(root, Count(b, root) / PER_BLOCK));
    var d := CreatedImage(a, root, name, ino);
    assert Evicted(a, d, root, inodeBuf, indexBuf).inodes == e.inodes[ino := EMPTY_INODE];
  }

  lemma RunsOutBelow(a: Image, root: nat)
    requires root < |a.inodes| && RunsOut(a, root)
    ensures Count(a, root) < DENTRY_LIMIT
  {
  }

  lemma LeftSizes(a: Image, c: Image, e: Image, live: set<nat>, leaf: Slot)
    requires Left(a, c, e, live, leaf)
    ensures |c.inodes| == |e.inodes| == |a.inodes| && e.dataBits == c.dataBits && |c.dataBits| == |a.dataBits| && Sound(a, live)
    ensures e.inodeBits == c.inodeBits == a.inodeBits
    ensures e.inodes[leaf.ino].size == a.inodes[leaf.ino].size && forall i :: i in live ==> i < |a.inodes|
  {
    hide Val, BytesStay, NewRef;
  }

  lemma NameIsNew(a: Image, live: set<nat>, root: nat, name: seq<Byte>)
    requires DirOk(a, live, root) && Snap(a, live, root).Accepts(name)
    ensures root < |a.inodes| && Count(a, root) < DENTRY_LIMIT && |name| < NAME_LEN && name !in Names(Entries(a, root))
    ensures forall n :: 0 <= n < Count(a, root) ==> NameOf(EntryAt(a, root, n)) != name
  {
    hide Sound, CString, Contents, WantsOf, FreeCount, WantsAtName, FileAt, Entries, EntryAt, Names;
    DirBound(a, live, root);
    FilesKeys(a, live, root);
    forall n | 0 <= n < Count(a, root)
      ensures NameOf(EntryAt(a, root, n)) != name
    {
      NamesAt(Entries(a, root), NameOf(Entries(a, root)[n]), Entries(a, root)[n].inode);
    }
  }

  /** The image that an accepted create leaves, with the buffers held, as the snapshot sees it. */
  lemma HeldSnap(a: Image, live: set<nat>, root: nat, name: seq<Byte>, ino: nat)
    requires DirOk(a, live, root) && root < |a.inodes| && IndexReady(a, root) && 0 !in name && Snap(a, live, root).Accepts(name)
    requires ino < |a.inodeBits| && !a.inodeBits[ino] && (forall i :: 0 <= i < ino ==> a.inodeBits[i])
    ensures ino < |a.inodes| <= |a.inodeBits| <= 0x1_0000 && Count(a, root) < DENTRY_LIMIT && |a.dataBits| <= 0x8000_0000
    ensures |name| < NAME_LEN
    ensures var d := CreatedImage(a, root, name, ino);
      DirOk(d, live + {ino}, root) && Snap(d, live + {ino}, root) == Snap(a, live, root).AfterCreate(name)
  {
    hide DirOk, Sound, Snap, IndexReady, Entries, Names, Appended, Created, WithDentry, Padded, NoLeaks, OthersSame, RunsOut, HasRoom;
    NameIsNew(a, live, root, name);
    DirSound(a, live, root);
    FreeInodeBound(a, live, ino);
    SoundShape(a, live);
    var b, d := a.(inodeBits := a.inodeBits[ino := true]), Dentry(ino, Padded(name));
    InodeBitsOnly(a, b, live, ino, true);
    SameRoom(a, b, root);
    DirSized(a, live, root);
    DentrySizes(b, root, d);
    WithDentryAppends(b, live, root, d);
    CreateDone(a, b, WithDentry(b, root, d), live, root, name, ino);
    CreateSnap(a, CreatedImage(a, root, name, ino), live, root, name, ino);
  }

  lemma DirSized(a: Image, live: set<nat>, root: nat)
    requires DirOk(a, live, root)
    ensures root < |a.inodes| && a.inodes[root].size % DENSZ == 0
  {
  }

  /** An image that is sound and has the entries and files that were there is a volume with the same names. */
  lemma SameVolume(a: Image, e: Image, live: set<nat>, root: nat, ino: nat)
    requires DirOk(a, live, root) && ino !in live && ino < |a.inodes| == |e.inodes| <= |a.inodeBits|
    requires Sound(e, live + {ino}) && e.inodeBits == a.inodeBits[ino := true] && OthersSame(a, e, live, root)
    requires root < |a.inodes| && e.inodes[root].size == a.inodes[root].size <= MAX_FILE_SIZE && Entries(e, root) == Entries(a, root)
    ensures DirOk(e, live + {ino}, root)
    ensures Files(e, live + {ino}, root) == Files(a, live, root) && AllWants(e, live + {ino}, root) == AllWants(a, live, root)
  {
    hide DirOk, Sound, Entries, Names, OthersSame, FileAt, WantsAtName, CString, WellNamed;
    DirSized(a, live, root);
    DirWellNamed(a, live, root);
    MoreLive(Entries(a, root), live, root, ino);
    NewDirOk(a, e, live, root, ino);
    DirSound(a, live, root);
    forall x | x in Names(Entries(a, root))
      ensures FileAt(e, live + {ino}, root, x) == FileAt(a, live, root, x)
      ensures WantsAtName(e, live + {ino}, root, x) == WantsAtName(a, live, root, x)
    {
      NamedInode(a, live, root, x);
      SameFile(a, e, live, live, live + {ino}, root, root, x);
    }
  }

  lemma MoreLive(ents: seq<Dentry>, live: set<nat>, root: nat, ino: nat)
    requires WellNamed(ents, live, root)
    ensures WellNamed(ents, live + {ino}, root)
  {
    hide CString;
  }

  lemma RootMissing(c: Image, d: Image, root: nat, n: nat)
    requires root < |c.inodes| && root < |d.inodes| && d.inodes[root] == c.inodes[root] && d.data == c.data && n < MAX_BLOCKS
    ensures Missing(d, Leaf(root, n)) == Missing(c, Leaf(root, n)) && WantsOf(d, root) == WantsOf(c, root)
  {
    assert forall s: Slot :: s.InRange() && s.ino == root ==> Val(d, s) == Val(c, s);
    hide Val, WantsOf;
    SameWants(c, d, root);
  }

  /** `e` is `e0` with the new inode emptied. */
  lemma LeftVolume(a: Image, c: Image, e0: Image, live: set<nat>, root: nat, ino: nat)
    requires DirOk(a, live, root) && root < |a.inodes| && Count(a, root) < DENTRY_LIMIT && ino !in live
    requires ino < |a.inodes| <= |a.inodeBits| && ino < |e0.inodes|
    requires Left(a.(inodeBits := a.inodeBits[ino := true]), c, e0, live, Leaf(root, Count(a, root) / PER_BLOCK))
    ensures var e, leaf := e0.(inodes := e0.inodes[ino := EMPTY_INODE]), Leaf(root, Count(a, root) / PER_BLOCK);
      && DirOk(e, live + {ino}, root) && e.dataBits == c.dataBits && e.inodeBits == c.inodeBits == a.inodeBits[ino := true]
      && Files(e, live + {ino}, root) == Files(a, live, root) && AllWants(e, live + {ino}, root) == AllWants(a, live, root)
      && |c.inodes| == |a.inodes| && Missing(c, leaf) <= Missing(e, leaf) <= Missing(a, leaf)
      && (NoLeaks(e, live + {ino}) <==> NoLeaks(a, live) && Missing(e, leaf) == Missing(c, leaf))
  {
    hide Val, Sound, Left, NoLeaks, Entries, OthersSame, Missing, Names, DirOk, FileAt, WantsAtName;
    var b, e, leaf := a.(inodeBits := a.inodeBits[ino := true]), e0.(inodes := e0.inodes[ino := EMPTY_INODE]), Leaf(root, Count(a, root) / PER_BLOCK);
    DirSound(a, live, root);
    DirNotRoot(a, live, root);
    SoundOwned(a, live);
    InodeBitsOnly(a, b, live, ino, true);
    SameTrees(a, b, root);
    LeftSizes(b, c, e0, live, leaf);
    LeftSound(b, c, e0, live, leaf);
    LeftOthers(b, c, e0, live, leaf);
    LeftEntries(b, c, e0, live, leaf);
    LeftLeaks(b, c, e0, live, leaf);
    LeftMissing(b, c, e0, live, leaf);
    NewInode(e0, live, ino);
    RootEntriesSame(e0, e, root, ino);
    RootMissing(e0, e, root, Count(a, root) / PER_BLOCK);
    RootMissing(a, b, root, Count(a, root) / PER_BLOCK);
    OthersSameTransitive(a, b, e0, live, root);
    OthersSameTransitive2(a, e0, e, live, root, ino);
    SameVolume(a, e, live, root, ino);
  }

  lemma DirNotRoot(a: Image, live: set<nat>, root: nat)
    requires DirOk(a, live, root)
    ensures root in live && root < |a.inodes| && a.inodes[root].size <= MAX_FILE_SIZE
  {
  }

  /** The volume after a create that ran out of blocks on the way, once the cache has taken over none, one or both of
      the buffers: the same files, no block free, one inode less. The next entry lacks at least what it lacks with the
      buffers held, and nothing has leaked exactly when it lacks no more; without both, the directory lacks what it
      lacked before, and blocks have leaked. */
  lemma CreateEvicted(a: Image, live: set<nat>, root: nat, name: seq<Byte>, ino: nat, inodeBuf: bool, indexBuf: bool)
    requires DirOk(a, live, root) && RunsOut(a, root) && IndexReady(a, root)
    requires Snap(a, live, root).Accepts(name) && 0 !in name
    requires ino < |a.inodeBits| && !a.inodeBits[ino] && (forall i :: 0 <= i < ino ==> a.inodeBits[i])
    ensures ino < |a.inodes| <= |a.inodeBits| <= 0x1_0000 && root < |a.inodes| && |a.dataBits| <= 0x8000_0000
    ensures var s, d := Snap(a, live, root), CreatedImage(a, root, name, ino);
      var e := Evicted(a, d, root, inodeBuf, indexBuf);
      && DirOk(e, live + {ino}, root)
      && var t := Snap(e, live + {ino}, root);
        && t == s.AfterCreate(name).(dirWants := t.dirWants) && t.files == s.files && t.free == 0
        && s.AfterCreate(name).EntryCost() <= t.EntryCost() <= s.EntryCost()
        && (NoLeaks(e, live + {ino}) <==> NoLeaks(a, live) && t.EntryCost() == s.AfterCreate(name).EntryCost())
        && (inodeBuf && indexBuf ==> t.dirWants == s.dirWants && !NoLeaks(e, live + {ino}))
  {
    hide DirOk, Left, Sound, IndexReady, RunsOut, CreatedImage, Evicted, NoLeaks, Missing, Files, AllWants, FreeCount, WantsOf, SameVals, Val;
    NameIsNew(a, live, root, name);
    var c, e0 := CreatedLeft(a, live, root, name, ino, inodeBuf, indexBuf);
    DirSound(a, live, root);
    HeldSnap(a, live, root, name, ino);
    LeftVolume(a, c, e0, live, root, ino);
    var d, n := CreatedImage(a, root, name, ino), Count(a, root) / PER_BLOCK;
    var e := Evicted(a, d, root, inodeBuf, indexBuf);
    EntryCostIs(a, live, root);
    EntryCostIs(d, live + {ino}, root);
    EntryCostIs(e, live + {ino}, root);
    RootMissing(c, d, root, n);
    var s, t := Snap(a, live, root), Snap(e, live + {ino}, root);
    assert s.AfterCreate(name).EntryCost() <= t.EntryCost() <= s.EntryCost();
    assert s.AfterCreate(name).EntryCost() < s.EntryCost();
    if inodeBuf && indexBuf {
      BothGone(a, e0, live, root, ino);
    }
  }

  lemma BothGone(a: Image, e0: Image, live: set<nat>, root: nat, ino: nat)
    requires ino < |a.inodeBits| && root in live && root < |a.inodes| && ino < |e0.inodes| && ino !in live
    requires SameVals(a.(inodeBits := a.inodeBits[ino := true]), e0, live)
    ensures WantsOf(e0.(inodes := e0.inodes[ino := EMPTY_INODE]), root) == WantsOf(a, root)
  {
    var b := a.(inodeBits := a.inodeBits[ino := true]);
    RootMissing(a, b, root, 0);
    RootMissing(e0, e0.(inodes := e0.inodes[ino := EMPTY_INODE]), root, 0);
    hide Val, WantsOf;
    assert forall t: Slot :: t.InRange() && t.ino == root ==> Live(b, live, t);
    SameWants(b, e0, root);
  }

  // ---------------------------------------------------------------- a volume on which a block is lost

  lemma OneFree()
    ensures var bits := FullDir(0, false).dataBits; FirstFree(bits) == 5 && FreeCount(bits) == 1 && NthFree(bits, 0) == 5
  {
    hide SetPtr, ZeroBlock, DirBlock;
    var bits := FullDir(0, false).dataBits;
    FirstFreeFound(bits, 5);
    FreeCountTake(bits, 5);
    FreeCountFull(bits[5 := true]);
  }

  lemma BlankBlock()
    ensures NoPointers(SetPtr(ZeroBlock(), 0, 0))
  {
    hide SetPtr, Ptr;
    forall k: nat | k < PTRS_PER_BLOCK
      ensures Ptr(SetPtr(ZeroBlock(), 0, 0), k) == 0
    {
      PtrOfSetPtr(ZeroBlock(), 0, 0, k);
      ZeroPtr(k);
    }
  }

  lemma ZeroPtr(k: nat)
    requires k < PTRS_PER_BLOCK
    ensures Ptr(ZeroBlock(), k) == 0
  {
  }

  lemma OneFreeRunsOut()
    ensures var a := FullDir(0, false); Count(a, 0) == 128 && IndexReady(a, 0) && RunsOut(a, 0)
    ensures Missing(FullDir(0, false), Leaf(0, 4)) == 2
  {
    hide DirBlock, Ptr, SetPtr, FirstFree, FreeCount, ZeroBlock, NoPointers, NthFree;
    OneFree();
    StaleSlots(0, false);
    BlankBlock();
    var a, leaf := FullDir(0, false), IndLeaf(0, 0);
    assert Leaf(0, 4) == leaf && Val(a, Ind(0)) == 0 && Val(a, leaf) == 0;
    assert a.data[5] == SetPtr(ZeroBlock(), 0, 0);
  }

  /** 128 entries and one free block: the create takes it as an index block and gives up. With the buffers held the
      next entry lacks one block; when they are gone it lacks two again, and block 5 is marked and belongs to nothing. */
  lemma LostIndexBlock()
    ensures var a, live := FullDir(0, false), FullDirLive(0, false);
      && DirOk(a, live, 0) && Snap(a, live, 0).Accepts([129]) && IndexReady(a, 0) && RunsOut(a, 0) && |a.dataBits| == 4096
      && Count(a, 0) == 128
      && var s, e := Snap(a, live, 0), Evicted(a, CreatedImage(a, 0, [129], 129), 0, true, true);
        && DirOk(e, live + {129}, 0) && s.EntryCost() == 2 && s.AfterCreate([129]).EntryCost() == 1
        && Snap(e, live + {129}, 0).EntryCost() == 2 && Snap(e, live + {129}, 0).free == 0
        && !NoLeaks(e, live + {129})
  {
    hide SetPtr, ZeroBlock, DirBlock, Val, IndexReady, RunsOut, DirOk, NoLeaks, CreatedImage, Evicted, FullDirLive,
      FreeCount, Missing, WantsOf, Files, AllWants;
    var a, live := FullDir(0, false), FullDirLive(0, false);
    StaleDirOk(0, false);
    OneFree();
    OneFreeRunsOut();
    EntryCostIs(a, live, 0);
    NewName(a, live);
    FreeInodes(a);
    assert !a.inodeBits[129];
    CreateEvicted(a, live, 0, [129], 129, true, true);
  }

  lemma NewName(a: Image, live: set<nat>)
    requires DirOk(a, live, 0) && Count(a, 0) == 128 && forall n :: 0 <= n < 128 ==> NameOf(Entries(a, 0)[n]) == [n + 1]
    ensures [129] !in Snap(a, live, 0).files
  {
    hide CString, Contents, WantsOf, FreeCount, WantsAtName, FileAt, EntryAt, Names, Sound, WellNamed;
    FilesKeys(a, live, 0);
    EntriesLengthOf(a, live, 0);
    if [129] in Names(Entries(a, 0)) {
      NamesAt(Entries(a, 0), [129], Names(Entries(a, 0))[[129]]);
    }
  }
}
