/** The inode table as a whole: what freeing a file and starting a new one do to every other file. */
module KtfsFiles {
  import opened Machine
  import opened Results
  import opened KtfsImage
  import opened KtfsTree
  import opened KtfsGrowth
  import opened KtfsLimits
  import opened KtfsSteps
  import opened KtfsVolume
  import opened KtfsEntries

  /** No block at or beyond the end of the file hangs from its inode. */
  ghost predicate NoneBeyond(img: Image, ino: nat) {
    && ino < |img.inodes|
    && forall s: Slot :: s.ino == ino && s.InRange() && Val(img, s) != 0 ==> FirstBlock(s) < NumBlocks(img.inodes[ino].size)
  }

  /** `d` is `b` with the blocks that serve file `ino` given back. */
  ghost predicate Freed(b: Image, d: Image, ino: nat) {
    && ino < |b.inodes| && d == b.(dataBits := d.dataBits) && |d.dataBits| == |b.dataBits|
    && (forall v :: 0 <= v < |d.dataBits| ==>
          (d.dataBits[v] <==> b.dataBits[v] && !ServedBy(b, ino, NumBlocks(b.inodes[ino].size), v)))
  }

  lemma FreedKeepsOthers(b: Image, d: Image, live: set<nat>, ino: nat)
    requires Sound(b, live) && ino in live && Freed(b, d, ino)
    ensures Sound(d, live - {ino}) && OthersSame(b, d, live, ino)
  {
    var live' := live - {ino};
    forall s: Slot | Live(d, live', s)
      ensures Live(b, live, s) && Val(d, s) == Val(b, s)
      ensures Val(d, s) != 0 ==> Val(d, s) < |d.data| && d.dataBits[Val(d, s)]
    {
      if Val(b, s) != 0 && ServedBy(b, ino, NumBlocks(b.inodes[ino].size), Val(b, s)) {
        var t: Slot :| Serves(t, ino, NumBlocks(b.inodes[ino].size)) && Val(b, t) == Val(b, s);
        assert Live(b, live, t);
      }
    }
    FreedShape(b, d, live, ino);
  }

  lemma FreedShape(b: Image, d: Image, live: set<nat>, ino: nat)
    requires Sound(b, live) && ino in live && Freed(b, d, ino)
    ensures Shape(d)
  {
    forall v | v == 0 || |b.data| <= v < |b.dataBits|
      ensures d.dataBits[v]
    {
      if ServedBy(b, ino, NumBlocks(b.inodes[ino].size), v) {
        var t: Slot :| Serves(t, ino, NumBlocks(b.inodes[ino].size)) && Val(b, t) == v;
        assert Live(b, live, t);
      }
    }
  }

  /** Deleting a file gives back every block that hangs from it exactly when none hangs at or beyond its end. */
  lemma FreedNoLeaks(b: Image, d: Image, live: set<nat>, ino: nat)
    requires Sound(b, live) && ino in live && Freed(b, d, ino) && NoLeaks(b, live)
    ensures NoLeaks(d, live - {ino}) <==> NoneBeyond(b, ino)
  {
    if NoneBeyond(b, ino) {
      forall v | 0 < v < |d.data| && v < |d.dataBits|
        ensures d.dataBits[v] <==> Used(d, live - {ino}, v)
      {
        FreedBlock(b, d, live, ino, v);
      }
    } else {
      var s: Slot :| s.ino == ino && s.InRange() && Val(b, s) != 0 && FirstBlock(s) >= NumBlocks(b.inodes[ino].size);
      LeakedBlock(b, d, live, ino, s);
    }
  }

  lemma FreedBlock(b: Image, d: Image, live: set<nat>, ino: nat, v: nat)
    requires Sound(b, live) && ino in live && Freed(b, d, ino) && NoLeaks(b, live) && NoneBeyond(b, ino)
    requires 0 < v < |d.data| && v < |d.dataBits|
    ensures d.dataBits[v] <==> Used(d, live - {ino}, v)
  {
    var n := NumBlocks(b.inodes[ino].size);
    if Used(d, live - {ino}, v) {
      var s :| Refers(d, live - {ino}, s, v);
      assert Refers(b, live, s, v);
      if ServedBy(b, ino, n, v) {
        var t: Slot :| Serves(t, ino, n) && Val(b, t) == v;
        assert Live(b, live, t);
      }
    }
    if d.dataBits[v] {
      var s :| Refers(b, live, s, v);
      if s.ino != ino {
        assert Refers(d, live - {ino}, s, v);
      }
    }
  }

  lemma LeakedBlock(b: Image, d: Image, live: set<nat>, ino: nat, s: Slot)
    requires Sound(b, live) && ino in live && Freed(b, d, ino) && NoLeaks(b, live)
    requires s.ino == ino && s.InRange() && Val(b, s) != 0 && FirstBlock(s) >= NumBlocks(b.inodes[ino].size)
    ensures !NoLeaks(d, live - {ino})
  {
    var v := Val(b, s);
    assert Live(b, live, s);
    if ServedBy(b, ino, NumBlocks(b.inodes[ino].size), v) {
      var t: Slot :| Serves(t, ino, NumBlocks(b.inodes[ino].size)) && Val(b, t) == v;
      assert Live(b, live, t);
    }
    assert d.dataBits[v];
    if Used(d, live - {ino}, v) {
      var t :| Refers(d, live - {ino}, t, v);
      assert Live(b, live, t);
    }
  }

  /** A free inode cleared and brought to life owns nothing. */
  lemma NewInode(c: Image, live: set<nat>, ino: nat)
    requires Sound(c, live) && ino !in live && ino < |c.inodes|
    ensures var d := c.(inodes := c.inodes[ino := EMPTY_INODE]);
      && Sound(d, live + {ino}) && OthersSame(c, d, live, ino)
      && (NoLeaks(c, live) <==> NoLeaks(d, live + {ino}))
      && Contents(d, ino) == [] && Trim(d, ino)
  {
    hide ByteAt, Val;
    var d := c.(inodes := c.inodes[ino := EMPTY_INODE]);
    NewInodeVals(c, live, ino);
    NewInodeLeaks(c, d, live, ino);
  }

  lemma NewInodeVals(c: Image, live: set<nat>, ino: nat)
    requires ino !in live && ino < |c.inodes|
    ensures var d := c.(inodes := c.inodes[ino := EMPTY_INODE]);
      && (forall s: Slot :: Live(d, live + {ino}, s) ==>
            if s.ino == ino then Val(d, s) == 0 else Live(c, live, s) && Val(d, s) == Val(c, s))
      && (forall s: Slot :: Live(c, live, s) ==> Live(d, live + {ino}, s) && Val(d, s) == Val(c, s))
  {
  }

  lemma NewInodeLeaks(c: Image, d: Image, live: set<nat>, ino: nat)
    requires |d.data| == |c.data| && d.dataBits == c.dataBits
    requires forall s: Slot :: Live(d, live + {ino}, s) ==>
               if s.ino == ino then Val(d, s) == 0 else Live(c, live, s) && Val(d, s) == Val(c, s)
    requires forall s: Slot :: Live(c, live, s) ==> Live(d, live + {ino}, s) && Val(d, s) == Val(c, s)
    ensures NoLeaks(c, live) <==> NoLeaks(d, live + {ino})
  {
    hide Val;
    assert forall s: Slot, v :: Refers(d, live + {ino}, s, v) ==> Refers(c, live, s, v);
    assert forall s: Slot, v :: Refers(c, live, s, v) ==> Refers(d, live + {ino}, s, v);
  }

  // ---------------------------------------------------------------- create and delete

  /** ktfs_delete of directory entry `n`: the entry, the inode and the file's blocks are given back, and
      every other file keeps its inode, its block map and its bytes. */
  ghost predicate Deleted(a: Image, d: Image, live: set<nat>, root: nat, n: nat) {
    && root < |a.inodes| && a.inodes[root].size <= MAX_FILE_SIZE && n < Count(a, root)
    && root < |d.inodes| && d.inodes[root].size <= MAX_FILE_SIZE
    && var ino := Entries(a, root)[n].inode;
      && ino < |a.inodes| && ino < |a.inodeBits|
      && Entries(d, root) == RemoveAt(Entries(a, root), n)
      && d.inodeBits == a.inodeBits[ino := false]
      && OthersSame(a, d, live - {ino}, root) && SameTree(a, d, root)
      && (forall v :: 0 <= v < |d.dataBits| && v < |a.dataBits| ==>
            (d.dataBits[v] <==> a.dataBits[v] && !ServedBy(a, ino, NumBlocks(a.inodes[ino].size), v)))
      && (NoLeaks(a, live) ==> (NoLeaks(d, live - {ino}) <==> NoneBeyond(a, ino)))
  }

  /** Images with the same inode table and data region have the same trees and entries. */
  lemma SameTrees(b: Image, c: Image, root: nat)
    requires c.inodes == b.inodes && c.data == b.data && root < |b.inodes| && b.inodes[root].size <= MAX_FILE_SIZE
    ensures forall s: Slot :: s.InRange() && s.ino < |b.inodes| ==> Val(c, s) == Val(b, s)
    ensures Entries(c, root) == Entries(b, root)
  {
    assert forall s: Slot :: s.InRange() && s.ino < |b.inodes| ==> Val(c, s) == Val(b, s);
    assert forall m: nat :: m < Count(b, root) ==> EntryAt(c, root, m) == EntryAt(b, root, m);
  }

  lemma InodeBitsOnly(b: Image, c: Image, live: set<nat>, ino: nat, status: bool)
    requires Sound(b, live) && ino < |b.inodes| && ino < |b.inodeBits|
    requires c == b.(inodeBits := b.inodeBits[ino := status])
    ensures Sound(c, live) && (NoLeaks(b, live) <==> NoLeaks(c, live))
    ensures forall s: Slot :: Live(b, live, s) ==> Val(c, s) == Val(b, s)
    ensures forall i :: OthersSame(b, c, live, i)
  {
    assert forall s: Slot :: Live(b, live, s) <==> Live(c, live, s);
    assert forall s: Slot :: Live(b, live, s) ==> Val(c, s) == Val(b, s);
    SameValsNoLeaks(b, c, live);
    SameValsNoLeaks(c, b, live);
  }

  lemma ServedSame(a: Image, c: Image, live: set<nat>, ino: nat, n: nat)
    requires ino in live && ino < |a.inodes| == |c.inodes|
    requires forall s: Slot :: Live(a, live, s) ==> Val(c, s) == Val(a, s)
    ensures forall v :: ServedBy(c, ino, n, v) <==> ServedBy(a, ino, n, v)
    ensures a.inodes[ino].size == c.inodes[ino].size ==> (NoneBeyond(a, ino) <==> NoneBeyond(c, ino))
  {
    assert forall s: Slot :: s.ino == ino && s.InRange() ==> Live(a, live, s);
    forall v
      ensures ServedBy(c, ino, n, v) <==> ServedBy(a, ino, n, v)
    {
      if ServedBy(c, ino, n, v) {
        var s: Slot :| Serves(s, ino, n) && Val(c, s) == v;
        assert Val(a, s) == v;
      }
      if ServedBy(a, ino, n, v) {
        var s: Slot :| Serves(s, ino, n) && Val(a, s) == v;
        assert Val(c, s) == v;
      }
    }
  }

  lemma DeleteDone(a: Image, b: Image, d: Image, live: set<nat>, root: nat, n: nat)
    requires DirOk(a, live, root) && Removed(a, b, live, root, n)
    requires var ino := Entries(a, root)[n].inode;
      ino < |b.inodeBits| && Freed(b.(inodeBits := b.inodeBits[ino := false]), d, ino)
    ensures Deleted(a, d, live, root, n)
    ensures DirOk(d, live - {Entries(a, root)[n].inode}, root)
  {
    hide Owned, Entries, Sound, OthersSame, NoLeaks, NoneBeyond, ServedBy, Mapped, Shape, EntryAt, RemoveAt, CString, Kept;
    EntriesLength(a, root);
    var ino := Entries(a, root)[n].inode;
    SoundOwned(a, live);
    LiveBound(a, live, ino);
    var c := b.(inodeBits := b.inodeBits[ino := false]);
    InodeBitsOnly(b, c, live, ino, false);
    ServedSame(a, c, live, ino, NumBlocks(a.inodes[ino].size));
    FreedKeepsOthers(c, d, live, ino);
    SameTrees(b, d, root);
    KeptParts(a, b, live, root);
    RemoveWellNamed(Entries(a, root), live, root, n);
    OthersSameTransitive(a, b, c, live, root);
    DeletedOthers(a, c, d, live, root, ino);
    if NoLeaks(a, live) {
      FreedNoLeaks(c, d, live, ino);
    }
  }

  lemma {:induction false} ClearedCount(img: Image, before: seq<bool>, after: seq<bool>, slots: set<Slot>)
    requires Cleared(img, before, after, slots)
    requires forall s :: s in slots ==> Val(img, s) < |before| && before[Val(img, s)]
    requires forall s, t :: s in slots && t in slots && s != t ==> Val(img, s) != Val(img, t)
    ensures FreeCount(after) == FreeCount(before) + |slots|
    decreases slots
  {
    hide Val;
    if slots == {} {
      assert after == before;
    } else {
      var s :| s in slots;
      var v := Val(img, s);
      ClearedCount(img, before, after[v := true], slots - {s});
      FreeCountTake(after, v);
    }
  }

  /** A delete frees as many blocks as a file of that size takes. */
  lemma DeletedBlocks(a: Image, d: Image, live: set<nat>, root: nat, n: nat)
    requires DirOk(a, live, root) && Deleted(a, d, live, root, n)
    ensures a.inodes[Entries(a, root)[n].inode].size <= MAX_FILE_SIZE
    ensures FreeCount(d.dataBits) == FreeCount(a.dataBits) + SlotCount(NumBlocks(a.inodes[Entries(a, root)[n].inode].size))
  {
    hide Entries, RemoveAt, NoLeaks, NoneBeyond, CString, FreeCount, SlotCount, ServingSlots;
    EntriesLength(a, root);
    var ino := Entries(a, root)[n].inode;
    MappedFile(a, live, ino);
    var m := NumBlocks(a.inodes[ino].size);
    ServingIs(ino, m);
    ServingCount(ino, m);
    ServedSlots(a, live, ino, m);
    ServedCleared(a, a.dataBits, d.dataBits, ino, m, ServingSlots(ino, m));
    ClearedCount(a, a.dataBits, d.dataBits, ServingSlots(ino, m));
  }

  lemma ServedCleared(img: Image, before: seq<bool>, after: seq<bool>, ino: nat, n: nat, slots: set<Slot>)
    requires ino < |img.inodes| && |after| == |before| && forall s :: s in slots <==> Serves(s, ino, n)
    requires forall v :: 0 <= v < |after| ==> (after[v] <==> before[v] && !ServedBy(img, ino, n, v))
    ensures Cleared(img, before, after, slots)
  {
    hide Val, FirstBlock;
  }

  lemma ServedSlots(a: Image, live: set<nat>, ino: nat, n: nat)
    requires Sound(a, live) && ino in live && ino < |a.inodes| && n <= MAX_BLOCKS && MappedTo(a, ino, n)
    ensures forall s: Slot :: Serves(s, ino, n) ==> Val(a, s) < |a.dataBits| && a.dataBits[Val(a, s)]
    ensures forall s: Slot, t: Slot :: Serves(s, ino, n) && Serves(t, ino, n) && s != t ==> Val(a, s) != Val(a, t)
  {
    hide Val;
    assert forall s: Slot :: Serves(s, ino, n) ==> Live(a, live, s) && Val(a, s) != 0;
  }

  lemma LiveBound(a: Image, live: set<nat>, ino: nat)
    requires Sound(a, live) && ino in live
    ensures ino < |a.inodes| <= |a.inodeBits|
  {
  }

  lemma DeletedOthers(a: Image, c: Image, d: Image, live: set<nat>, root: nat, ino: nat)
    requires Sound(a, live) && root in live && ino in live
    requires OthersSame(a, c, live, root) && OthersSame(c, d, live, ino)
    ensures OthersSame(a, d, live - {ino}, root)
  {
    assert forall t: Slot :: Live(a, live - {ino}, t) ==> Live(a, live, t) && Live(c, live, t);
  }

  /** ktfs_create of inode `ino`: the lowest free inode, emptied, and an entry at the end of the directory
      if the blocks for it are there. Otherwise the inode is taken and no entry names it. */
  ghost predicate Created(a: Image, d: Image, live: set<nat>, root: nat, name: seq<Byte>, ino: nat) {
    && |name| < NAME_LEN
    && root < |a.inodes| && a.inodes[root].size <= MAX_FILE_SIZE
    && root < |d.inodes| && d.inodes[root].size <= MAX_FILE_SIZE
    && ino < |a.inodes| <= |a.inodeBits| && !a.inodeBits[ino] && (forall i :: 0 <= i < ino ==> a.inodeBits[i])
    && d.inodeBits == a.inodeBits[ino := true] && ino < |d.inodes| && d.inodes[ino] == EMPTY_INODE
    && OthersSame(a, d, live, root) && TreeReady(a, d, root)
    && Entries(d, root) == (if HasRoom(a, root) then Entries(a, root) + [Dentry(ino, Padded(name))] else Entries(a, root))
    && (NoLeaks(a, live) ==> NoLeaks(d, live + {ino}))
  }

  lemma CreateDone(a: Image, b: Image, c: Image, live: set<nat>, root: nat, name: seq<Byte>, ino: nat)
    requires DirOk(a, live, root) && |name| < NAME_LEN && 0 !in name
    requires forall n :: 0 <= n < Count(a, root) ==> NameOf(EntryAt(a, root, n)) != name
    requires ino < |a.inodeBits| && !a.inodeBits[ino] && (forall i :: 0 <= i < ino ==> a.inodeBits[i])
    requires b == a.(inodeBits := a.inodeBits[ino := true])
    requires Appended(b, c, live, root, Dentry(ino, Padded(name)))
    ensures ino < |a.inodes| == |c.inodes| && ino !in live
    ensures var d := c.(inodes := c.inodes[ino := EMPTY_INODE]);
      Created(a, d, live, root, name, ino) && DirOk(d, live + {ino}, root)
  {
    hide *;
    DirSize(a, live, root);
    FreeInodeBound(a, live, ino);
    CreateNames(a, live, root, name, ino);
    InodeBitsOnly(a, b, live, ino, true);
    AppendedParts(b, c, live, root, Dentry(ino, Padded(name)));
    SameTrees(a, b, root);
    KeptParts(b, c, live, root);
    NewInode(c, live, ino);
    var d := c.(inodes := c.inodes[ino := EMPTY_INODE]);
    assert d.inodes[root] == c.inodes[root];
    RootEntriesSame(c, d, root, ino);
    OthersSameTransitive(a, b, c, live, root);
    OthersSameTransitive2(a, c, d, live, root, ino);
    SameRoom(a, b, root);
    SameTreeReady(a, b, c, root, ino);
    NewDirOk(a, d, live, root, ino);
    IsCreated(a, d, live, root, name, ino);
  }

  lemma AppendedParts(b: Image, c: Image, live: set<nat>, root: nat, e: Dentry)
    requires Appended(b, c, live, root, e)
    ensures Sound(c, live) && Kept(b, c, live, root) && TreeReady(b, c, root)
    ensures root < |b.inodes| && b.inodes[root].size <= MAX_FILE_SIZE
    ensures root < |c.inodes| && c.inodes[root].size <= MAX_FILE_SIZE && c.inodes[root].size % DENSZ == 0
    ensures Entries(c, root) == if HasRoom(b, root) then Entries(b, root) + [e] else Entries(b, root)
  {
  }

  lemma IsCreated(a: Image, d: Image, live: set<nat>, root: nat, name: seq<Byte>, ino: nat)
    requires |name| < NAME_LEN
    requires root < |a.inodes| && a.inodes[root].size <= MAX_FILE_SIZE
    requires root < |d.inodes| && d.inodes[root].size <= MAX_FILE_SIZE
    requires ino < |a.inodes| <= |a.inodeBits| && !a.inodeBits[ino] && (forall i :: 0 <= i < ino ==> a.inodeBits[i])
    requires d.inodeBits == a.inodeBits[ino := true] && ino < |d.inodes| && d.inodes[ino] == EMPTY_INODE
    requires OthersSame(a, d, live, root) && TreeReady(a, d, root)
    requires Entries(d, root) == if HasRoom(a, root) then Entries(a, root) + [Dentry(ino, Padded(name))] else Entries(a, root)
    requires NoLeaks(a, live) ==> NoLeaks(d, live + {ino})
    ensures Created(a, d, live, root, name, ino)
  {
    hide Entries, OthersSame, TreeReady, HasRoom, NoLeaks;
  }

  lemma DirSize(a: Image, live: set<nat>, root: nat)
    requires DirOk(a, live, root)
    ensures root in live && root < |a.inodes| && a.inodes[root].size <= MAX_FILE_SIZE && Sound(a, live)
  {
  }

  lemma NewDirOk(a: Image, d: Image, live: set<nat>, root: nat, ino: nat)
    requires DirOk(a, live, root) && ino < |a.inodes| == |d.inodes| <= |a.inodeBits|
    requires Sound(d, live + {ino}) && d.inodeBits == a.inodeBits[ino := true]
    requires d.inodes[root].size <= MAX_FILE_SIZE && d.inodes[root].size % DENSZ == 0
    requires WellNamed(Entries(d, root), live + {ino}, root)
    ensures DirOk(d, live + {ino}, root)
  {
    hide Sound, WellNamed, Entries;
  }

  lemma SameTreeReady(a: Image, b: Image, c: Image, root: nat, ino: nat)
    requires b.inodes == a.inodes && b.data == a.data && b.dataBits == a.dataBits
    requires root < |a.inodes| && ino != root && ino < |c.inodes|
    requires TreeReady(b, c, root)
    ensures TreeReady(a, c.(inodes := c.inodes[ino := EMPTY_INODE]), root)
  {
    var d := c.(inodes := c.inodes[ino := EMPTY_INODE]);
    hide Grew, FreeCount;
    assert forall s: Slot :: s.InRange() && s.ino == root ==> Val(b, s) == Val(a, s) && Val(d, s) == Val(c, s);
    hide Val;
    GrewFrom(a, b, c, root);
    SameGrew(a, c, d, root);
    if Count(a, root) < DENTRY_LIMIT {
      SameMissing(a, b, Leaf(root, Count(a, root) / PER_BLOCK));
    }
  }

  lemma SameMissing(a: Image, b: Image, leaf: Slot)
    requires b.inodes == a.inodes && b.data == a.data && leaf.IsLeaf() && leaf.InRange() && leaf.ino < |a.inodes|
    ensures Missing(b, leaf) == Missing(a, leaf)
  {
    assert forall s: Slot :: s.InRange() && s.ino == leaf.ino ==> Val(b, s) == Val(a, s);
  }

  lemma FreeInodeBound(a: Image, live: set<nat>, ino: nat)
    requires Sound(a, live) && ino < |a.inodeBits| && !a.inodeBits[ino]
    ensures ino < |a.inodes| <= |a.inodeBits| <= 0x1_0000 && Owned(a, live)
  {
  }

  lemma CreateNames(a: Image, live: set<nat>, root: nat, name: seq<Byte>, ino: nat)
    requires DirOk(a, live, root) && |name| < NAME_LEN && 0 !in name
    requires forall n :: 0 <= n < Count(a, root) ==> NameOf(EntryAt(a, root, n)) != name
    requires ino < |a.inodeBits| && !a.inodeBits[ino] && ino < |a.inodes|
    ensures ino < 0x1_0000 && ino !in live
    ensures WellNamed(Entries(a, root) + [Dentry(ino, Padded(name))], live + {ino}, root)
    ensures WellNamed(Entries(a, root), live + {ino}, root)
    ensures Names(Entries(a, root) + [Dentry(ino, Padded(name))]) == Names(Entries(a, root))[name := ino]
    ensures name !in Names(Entries(a, root))
  {
    EntriesLength(a, root);
    NameRoundTrip(name);
    AppendNames(Entries(a, root), live, root, Dentry(ino, Padded(name)));
  }

  lemma KeptParts(b: Image, c: Image, live: set<nat>, root: nat)
    requires Kept(b, c, live, root)
    ensures OthersSame(b, c, live, root) && c.inodeBits == b.inodeBits && (NoLeaks(b, live) ==> NoLeaks(c, live))
    ensures |c.inodes| == |b.inodes|
  {
  }

  lemma RootEntriesSame(c: Image, d: Image, root: nat, ino: nat)
    requires ino != root && ino < |c.inodes| && d == c.(inodes := c.inodes[ino := EMPTY_INODE])
    requires root < |c.inodes| && c.inodes[root].size <= MAX_FILE_SIZE
    ensures Entries(d, root) == Entries(c, root)
  {
    assert forall s: Slot :: s.InRange() && s.ino == root ==> Val(d, s) == Val(c, s);
    assert forall m: nat :: m < Count(c, root) ==> EntryAt(d, root, m) == EntryAt(c, root, m);
  }

  lemma OthersSameTransitive2(a: Image, c: Image, d: Image, live: set<nat>, root: nat, ino: nat)
    requires ino !in live && OthersSame(a, c, live, root) && OthersSame(c, d, live, ino)
    ensures OthersSame(a, d, live, root)
  {
    assert forall t: Slot :: Live(a, live, t) ==> Live(c, live, t);
  }

  lemma SameRoom(a: Image, b: Image, root: nat)
    requires b.inodes == a.inodes && b.data == a.data && b.dataBits == a.dataBits && root < |a.inodes|
    ensures HasRoom(b, root) <==> HasRoom(a, root)
    ensures IndexReady(a, root) ==> IndexReady(b, root)
    ensures RunsOut(b, root) <==> RunsOut(a, root)
  {
    assert forall s: Slot :: s.InRange() && s.ino < |a.inodes| ==> Val(b, s) == Val(a, s);
  }
}
