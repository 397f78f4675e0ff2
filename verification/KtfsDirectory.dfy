/** Looking up, adding and deleting directory entries, and the create and delete calls built on them. */
module KtfsDirectory {
  import opened Machine
  import opened Results
  import opened KtfsImage
  import opened KtfsTree
  import opened KtfsGrowth
  import opened KtfsLimits
  import opened KtfsSteps
  import opened KtfsVolume
  import opened KtfsEntries
  import opened KtfsFiles

  /** Where a directory entry lies: its index, and the data block and entry within it. */
  datatype Place = Place(index: nat, block: nat, entry: nat)

  ghost predicate At(img: Image, root: nat, p: Place)
    requires root < |img.inodes|
  {
    && p.index / PER_BLOCK < MAX_BLOCKS && p.entry == p.index % PER_BLOCK
    && p.block == Val(img, Leaf(root, p.index / PER_BLOCK)) && 0 < p.block < |img.data|
  }

  ghost predicate NoneNamed(img: Image, root: nat, n: nat, name: seq<Byte>)
    requires root < |img.inodes| && (n + 31) / PER_BLOCK <= MAX_BLOCKS
  {
    forall m: nat :: m < n ==> NameOf(EntryAt(img, root, m)) != name
  }

  class Directory {
    const volume: Volume
    const root: nat

    constructor (v: Volume, r: nat)
      ensures volume == v && root == r
    {
      volume, root := v, r;
    }

    // -------------------------------------------------------------- reading entries

    /** get_dentry_at_index, which subtracts the capacity of each region as it passes it. */
    method GetDentryAtIndex(n: nat, ghost live: set<nat>) returns (r: Result<Dentry>)
      requires root in live && Sound(volume.Img(), live) && n < Count(volume.Img(), root)
      ensures n / PER_BLOCK < MAX_BLOCKS && r == Ok(EntryAt(volume.Img(), root, n))
    {
      hide Sound, EntryAt, DentryAt, Leaf;
      ghost var img := volume.Img();
      DentryBlocksMapped(img, live, root, n);
      var inode := volume.inodes[root];
      var index: nat := n;
      var directCap := NUM_DIRECT * PER_BLOCK;
      DentrySlot(root, n, 0, 0);
      DentryIs(img, root, n);
      if index < directCap {
        assert Direct(root, index / PER_BLOCK) in Path(Leaf(root, n / PER_BLOCK));
        return Ok(DentryAt(volume.data[inode.block[index / PER_BLOCK]], index % PER_BLOCK));
      }
      index := index - directCap;
      var indirectCap := PTRS_PER_BLOCK * PER_BLOCK;
      if index < indirectCap {
        assert Ind(root) in Path(Leaf(root, n / PER_BLOCK));
      }
      if index < indirectCap && inode.indirect != 0 {
        var dataIdx := Ptr(volume.data[inode.indirect], index / PER_BLOCK);
        return Ok(DentryAt(volume.data[dataIdx], index % PER_BLOCK));
      }
      index := index - indirectCap;
      var perIndirect := PTRS_PER_BLOCK * PER_BLOCK;
      var perDindirect := PTRS_PER_BLOCK * perIndirect;
      var d := 0;
      while d < NUM_DINDIRECT
        invariant d <= NUM_DINDIRECT && n == directCap + indirectCap + d * perDindirect + index
      {
        if index >= perDindirect {
          index, d := index - perDindirect, d + 1;
        } else {
          DentrySlot(root, n, d, index);
          assert Dind(root, d) in Path(Leaf(root, n / PER_BLOCK));
          if inode.dindirect[d] == 0 {
            return Err(ENOTSUP);
          }
          var second, remain := index / perIndirect, index % perIndirect;
          assert DindMid(root, d, second) in Path(Leaf(root, n / PER_BLOCK));
          var secondBlock := Ptr(volume.data[inode.dindirect[d]], second);
          var dataIdx := Ptr(volume.data[secondBlock], remain / PER_BLOCK);
          return Ok(DentryAt(volume.data[dataIdx], remain % PER_BLOCK));
        }
      }
      r := Err(ENOENT);
    }

    /** The walk that open, create and delete share: direct blocks, indirect block, doubly-indirect trees. */
    method Find(name: seq<Byte>, ghost live: set<nat>) returns (r: Option<Place>)
      requires root in live && Sound(volume.Img(), live)
      ensures root < |volume.inodes| && Count(volume.Img(), root) <= DENTRY_LIMIT
      ensures r.Some? ==> r.value.index < Count(volume.Img(), root) && At(volume.Img(), root, r.value)
                          && NameOf(EntryAt(volume.Img(), root, r.value.index)) == name
      ensures r.None? ==> NoneNamed(volume.Img(), root, Count(volume.Img(), root), name)
    {
      hide Sound, EntryAt, DentryAt, NoneNamed, At;
      ghost var img := volume.Img();
      CountBound(img, live, root);
      NoneNamedYet(img, root, name);
      var inode := volume.inodes[root];
      var count := inode.size / DENSZ;
      var i: nat := 0;
      var j := 0;
      while j < NUM_DIRECT && i < count
        invariant j <= NUM_DIRECT && i == Min(count, j * PER_BLOCK)
        invariant NoneNamed(img, root, i, name)
        decreases NUM_DIRECT - j
      {
        DentryBlocksMapped(img, live, root, i);
        assert Direct(root, j) in Path(Leaf(root, i / PER_BLOCK));
        i, r := ScanBlock(inode.block[j], i, count, name);
        if r.Some? {
          return;
        }
        j := j + 1;
      }
      if i == count {
        return None;
      }
      DentryBlocksMapped(img, live, root, i);
      assert Ind(root) in Path(Leaf(root, i / PER_BLOCK));
      if inode.indirect != 0 {
        i, r := ScanIndexed(inode.indirect, i, count, name, Ind(root), live);
        if r.Some? {
          return;
        }
      }
      if i == count {
        return None;
      }
      var d := 0;
      while d < NUM_DINDIRECT && i < count
        invariant d <= NUM_DINDIRECT && i == Min(count, FirstBlock(Dind(root, d)) * PER_BLOCK)
        invariant NoneNamed(img, root, i, name)
        decreases NUM_DINDIRECT - d
      {
        i, r := ScanDindirect(inode.dindirect[d], d, i, count, name, live);
        if r.Some? {
          return;
        }
        d := d + 1;
      }
      r := None;
    }

    method ScanDindirect(h: nat, d: nat, i0: nat, count: nat, name: seq<Byte>, ghost live: set<nat>)
      returns (i: nat, r: Option<Place>)
      requires root in live && Sound(volume.Img(), live) && root < |volume.inodes|
      requires d < NUM_DINDIRECT && i0 == FirstBlock(Dind(root, d)) * PER_BLOCK < count
      requires h == volume.inodes[root].dindirect[d] && count == Count(volume.Img(), root) <= DENTRY_LIMIT
      requires NoneNamed(volume.Img(), root, i0, name)
      ensures r.Some? ==> r.value.index < count && At(volume.Img(), root, r.value)
                          && NameOf(EntryAt(volume.Img(), root, r.value.index)) == name
      ensures r.None? ==> i == Min(count, FirstBlock(Dind(root, d + 1)) * PER_BLOCK) && NoneNamed(volume.Img(), root, i, name)
    {
      hide Sound, EntryAt, DentryAt, NoneNamed, At, Leaf;
      i, r := i0, None;
      var g := 0;
      while g < PTRS_PER_BLOCK && i < count
        invariant g <= PTRS_PER_BLOCK && i == Min(count, FirstBlock(DindMid(root, d, g)) * PER_BLOCK)
        invariant r.None? && NoneNamed(volume.Img(), root, i, name)
        decreases PTRS_PER_BLOCK - g
      {
        DentryBlocksMapped(volume.Img(), live, root, i);
        ChildPath(DindMid(root, d, g), 0);
        assert Dind(root, d) in Path(DindLeaf(root, d, g, 0));
        i, r := ScanIndexed(Ptr(volume.data[h], g), i, count, name, DindMid(root, d, g), live);
        if r.Some? {
          return;
        }
        g := g + 1;
      }
    }

    /** The directory blocks listed in one index block, which slot `p` refers to. */
    method ScanIndexed(h: nat, i0: nat, count: nat, name: seq<Byte>, ghost p: Slot, ghost live: set<nat>)
      returns (i: nat, r: Option<Place>)
      requires root in live && Sound(volume.Img(), live) && root < |volume.inodes|
      requires (p.Ind? || p.DindMid?) && p.ino == root && p.InRange() && h == Val(volume.Img(), p)
      requires i0 == FirstBlock(p) * PER_BLOCK < count == Count(volume.Img(), root) <= DENTRY_LIMIT
      requires NoneNamed(volume.Img(), root, i0, name)
      ensures r.Some? ==> r.value.index < count && At(volume.Img(), root, r.value)
                          && NameOf(EntryAt(volume.Img(), root, r.value.index)) == name
      ensures r.None? ==> i == Min(count, (FirstBlock(p) + PTRS_PER_BLOCK) * PER_BLOCK) && NoneNamed(volume.Img(), root, i, name)
    {
      hide Sound, EntryAt, DentryAt, NoneNamed, At, Leaf, Path;
      i, r := i0, None;
      var j := 0;
      while j < PTRS_PER_BLOCK && i < count
        invariant j <= PTRS_PER_BLOCK && i == Min(count, (FirstBlock(p) + j) * PER_BLOCK)
        invariant r.None? && NoneNamed(volume.Img(), root, i, name)
        decreases PTRS_PER_BLOCK - j
      {
        DentryBlocksMapped(volume.Img(), live, root, i);
        ChildPath(p, j);
        i, r := ScanBlock(Ptr(volume.data[h], j), i, count, name);
        if r.Some? {
          return;
        }
        j := j + 1;
      }
    }

    /** strcmp against the entries of one directory block. */
    method ScanBlock(block: nat, i0: nat, count: nat, name: seq<Byte>) returns (i: nat, r: Option<Place>)
      requires root < |volume.inodes| && i0 % PER_BLOCK == 0 && i0 < count <= DENTRY_LIMIT
      requires block == Val(volume.Img(), Leaf(root, i0 / PER_BLOCK)) && 0 < block < |volume.data|
      requires NoneNamed(volume.Img(), root, i0, name)
      ensures r.Some? ==> r.value.index < count && At(volume.Img(), root, r.value)
                          && NameOf(EntryAt(volume.Img(), root, r.value.index)) == name
      ensures r.None? ==> i == Min(count, i0 + PER_BLOCK) && NoneNamed(volume.Img(), root, i, name)
    {
      hide DentryAt;
      i, r := i0, None;
      var k := 0;
      while k < PER_BLOCK && i < count
        invariant k <= PER_BLOCK && i == i0 + k <= count
        invariant NoneNamed(volume.Img(), root, i, name)
        decreases PER_BLOCK - k
      {
        assert i / PER_BLOCK == i0 / PER_BLOCK && i % PER_BLOCK == k;
        if NameOf(DentryAt(volume.data[block], k)) == name {
          return i, Some(Place(i, block, k));
        }
        i, k := i + 1, k + 1;
      }
    }

    // -------------------------------------------------------------- adding an entry

    /** add_dentry. The index blocks it takes are not cleared: the entry is appended as it should be when they
        happen to be blank, and in any case the image is `WithDentry`. All exits without an entry release the buffers
        of the root inode and of the index blocks as clean; `unsaved` says that one of them was changed. */
    method AddDentry(name: seq<Byte>, inodeNum: nat, ghost live: set<nat>) returns (unsaved: bool)
      requires root in live && Sound(volume.Img(), live) && root < |volume.inodes|
      requires volume.inodes[root].size % DENSZ == 0 && Count(volume.Img(), root) < DENTRY_LIMIT
      requires |name| < NAME_LEN && inodeNum < 0x1_0000
      modifies volume
      ensures |old(volume.DataBits())| <= 0x8000_0000
      ensures volume.Img() == WithDentry(old(volume.Img()), root, Dentry(inodeNum, Padded(name)))
      ensures old(IndexReady(volume.Img(), root)) ==>
                Appended(old(volume.Img()), volume.Img(), live, root, Dentry(inodeNum, Padded(name)))
      ensures old(IndexReady(volume.Img(), root)) ==> (unsaved <==> RunsOut(old(volume.Img()), root))
    {
      hide Sound, Located, Appended, Padded, Overwrite, FirstFree, IndexReady, RunsOut;
      ghost var a := volume.Img();
      var inodes, data := volume.inodes, volume.data;
      SoundShape(a, live);
      var sizeBefore := volume.inodes[root].size;
      var sizeAfter := sizeBefore + DENSZ;
      var dentry := Dentry(inodeNum, Padded(name));
      var r := EntryBlock(sizeAfter);
      ghost var n := Count(a, root);
      if IndexReady(a, root) {
        WithDentryAppends(a, live, root, dentry);
        UnsavedExactly(a, live, root);
      }
      if r.Err? || r.value >= |volume.data| {
        return volume.inodes != inodes || volume.data != data;
      }
      var at := (sizeAfter - 1) / DENSZ % PER_BLOCK;
      SlotBySize(root, n, sizeAfter);
      volume.data := volume.data[r.value := Overwrite(volume.data[r.value], DENSZ * at, DentryBytes(dentry))];
      volume.inodes := volume.inodes[root := volume.inodes[root].(size := sizeAfter)];
      unsaved := false;
    }

    /** The data block of the entry that ends at byte `sizeAfter`, allocated if it is still absent. A block
        that already holds entries is present, so asking for it allocates nothing. */
    method EntryBlock(sizeAfter: nat) returns (r: Result<nat>)
      requires Shape(volume.Img()) && root < |volume.inodes| && volume.inodes[root].size % DENSZ == 0
      requires Count(volume.Img(), root) < DENTRY_LIMIT && sizeAfter == DENSZ * (Count(volume.Img(), root) + 1)
      modifies volume
      ensures |old(volume.DataBits())| <= 0x8000_0000
      ensures (volume.Img(), r) == Located(old(volume.Img()), Leaf(root, old(Count(volume.Img(), root)) / PER_BLOCK), false)
    {
      hide Located, FirstFree;
      ghost var a, n := volume.Img(), Count(volume.Img(), root);
      ghost var leaf := Leaf(root, n / PER_BLOCK);
      SlotBySize(root, n, sizeAfter);
      assert volume.View(root, volume.inodes[root]) == a;
      var sizeDirect := BLKSZ * NUM_DIRECT;
      var sizeIndirect := sizeDirect + BLKSZ * PTRS_PER_BLOCK;
      var inode := volume.inodes[root];
      if sizeAfter <= sizeDirect {
        r, inode := volume.DirectBlock(inode, leaf, (sizeAfter - 1) / BLKSZ);
      } else if sizeAfter <= sizeIndirect {
        var offset := sizeAfter - sizeDirect;
        r, inode := volume.IndirectBlock(inode, (offset - 1) / BLKSZ, false, leaf);
      } else {
        var offset := sizeAfter - sizeIndirect;
        var big, mid := BLKSZ * PTRS_PER_BLOCK * PTRS_PER_BLOCK, BLKSZ * PTRS_PER_BLOCK;
        var d := (offset - 1) / big;
        var rem1 := offset - d * big;
        var m := (rem1 - 1) / mid;
        var rem2 := rem1 - m * mid;
        r, inode := volume.DoublyIndirectBlock(inode, d, m, (rem2 - 1) / BLKSZ, false, leaf);
      }
      ghost var b := volume.View(root, inode);
      volume.inodes := volume.inodes[root := inode];
      assert volume.Img() == b;
    }

    // -------------------------------------------------------------- deleting an entry

    /** delete_dentry: the last entry replaces the one at `p`, and the directory shrinks by one entry. */
    method DeleteDentry(p: Place, ghost live: set<nat>)
      requires root in live && Sound(volume.Img(), live) && root < |volume.inodes|
      requires volume.inodes[root].size % DENSZ == 0
      requires p.index < Count(volume.Img(), root) && At(volume.Img(), root, p)
      modifies volume
      ensures Removed(old(volume.Img()), volume.Img(), live, root, p.index)
    {
      hide Sound, EntrySet, Removed, DentryAt, EntryAt;
      ghost var a := volume.Img();
      CountBound(a, live, root);
      var size := volume.inodes[root].size;
      var last := LastDentry(size, live);
      DentryAtIs(a, live, root, Count(a, root) - 1);
      WriteEntry(a, live, root, p.index, last);
      volume.data := volume.data[p.block := Overwrite(volume.data[p.block], DENSZ * p.entry, DentryBytes(last))];
      RemoveDone(a, volume.Img(), live, root, p.index);
      volume.inodes := volume.inodes[root := volume.inodes[root].(size := size - DENSZ)];
    }

    /** The entry that ends the directory. */
    method LastDentry(size: nat, ghost live: set<nat>) returns (d: Dentry)
      requires root in live && Sound(volume.Img(), live) && root < |volume.inodes|
      requires size == volume.inodes[root].size && size % DENSZ == 0 && size > 0
      ensures Count(volume.Img(), root) <= DENTRY_LIMIT && d == EntryAt(volume.Img(), root, Count(volume.Img(), root) - 1)
      ensures d.inode < 0x1_0000 && |d.name| == NAME_LEN
    {
      hide Sound, DentryAt, EntryAt, Leaf, Path, Ptr, TotalBlocks;
      ghost var img := volume.Img();
      ghost var n := Count(img, root) - 1;
      CountBound(img, live, root);
      DentryBlocksMapped(img, live, root, n);
      SlotBySize(root, n, size);
      DentryIs(img, root, n);
      ghost var leaf := Leaf(root, n / PER_BLOCK);
      PathOf(leaf);
      var inode := volume.inodes[root];
      var sizeDirect := BLKSZ * NUM_DIRECT;
      var sizeIndirect := sizeDirect + BLKSZ * PTRS_PER_BLOCK;
      var block;
      if size <= sizeDirect {
        block := inode.block[(size - 1) / BLKSZ];
      } else if size <= sizeIndirect {
        block := Ptr(volume.data[inode.indirect], (size - sizeDirect - 1) / BLKSZ);
      } else {
        var rest := size - sizeIndirect;
        var big, mid := BLKSZ * PTRS_PER_BLOCK * PTRS_PER_BLOCK, BLKSZ * PTRS_PER_BLOCK;
        var d := (rest - 1) / big;
        rest := rest - d * big;
        var m := (rest - 1) / mid;
        var indirectBlock := Ptr(volume.data[inode.dindirect[d]], m);
        rest := rest - m * mid;
        block := Ptr(volume.data[indirectBlock], (rest - 1) / BLKSZ);
      }
      d := DentryAt(volume.data[block], (size - 1) / DENSZ % PER_BLOCK);
      DentryAtBounds(volume.data[block], (size - 1) / DENSZ % PER_BLOCK);
    }

    // -------------------------------------------------------------- ktfs_create, ktfs_delete

    /** ktfs_create. It returns 0 even when add_dentry found no block for the entry. With `unsaved`, a buffer that it
        changed was released as clean: the image is what clients see until the cache takes that buffer over, unless
        another call has released it as dirty before. */
    method Create(name: seq<Byte>, ghost live: set<nat>) returns (r: Result<()>, unsaved: bool, ghost ino: nat)
      requires DirOk(volume.Img(), live, root) && 0 !in name
      modifies volume
      ensures root < |old(volume.inodes)| && old(Count(volume.Img(), root)) < DENTRY_LIMIT
      ensures r.Ok? <==> && |name| < NAME_LEN
                         && name !in old(Names(Entries(volume.Img(), root)))
                         && HasFreeInode(old(volume.Img()))
      ensures r.Err? ==> r == Err(ENOTSUP) && volume.Img() == old(volume.Img())
      ensures r.Ok? ==> |old(volume.DataBits())| <= 0x8000_0000 && ino < |old(volume.inodes)| <= |old(volume.InodeBits())| <= 0x1_0000
                        && volume.Img() == CreatedImage(old(volume.Img()), root, name, ino)
      ensures r.Ok? && old(IndexReady(volume.Img(), root)) ==>
                        Created(old(volume.Img()), volume.Img(), live, root, name, ino)
                        && DirOk(volume.Img(), live + {ino}, root)
      ensures old(IndexReady(volume.Img(), root)) ==> (unsaved <==> r.Ok? && RunsOut(old(volume.Img()), root))
    {
      hide RunsOut, Sound, Created, Appended, EntryAt, WellNamed, Owned, NoneNamed, At, Padded, CString, Names, Shape, WithDentry, IndexReady;
      ghost var a := volume.Img();
      ino, unsaved := 0, false;
      DirBound(a, live, root);
      if |name| > NAME_LEN - 1 {
        return Err(ENOTSUP), false, 0;
      }
      var found := Find(name, live);
      FoundName(a, live, root, name, found);
      if found.Some? {
        return Err(ENOTSUP), false, 0;
      }
      var num, pins := volume.FindFreeInode();
      if num.Err? {
        return Err(ENOTSUP), false, 0;
      }
      ino := num.value;
      FreeInodeBound(a, live, ino);
      volume.SetInodeStatus(num.value, true);
      ghost var b := volume.Img();
      InodeBitsOnly(a, b, live, ino, true);
      SameRoom(a, b, root);
      unsaved := AddDentry(name, num.value, live);
      ghost var c := volume.Img();
      DentrySizes(b, root, Dentry(ino, Padded(name)));
      if IndexReady(a, root) {
        CreateDone(a, b, c, live, root, name, ino);
      }
      volume.inodes := volume.inodes[num.value := EMPTY_INODE];
      r := Ok(());
    }

    /** ktfs_delete. */
    method Delete(name: seq<Byte>, ghost live: set<nat>) returns (r: Result<()>, ghost n: nat)
      requires DirOk(volume.Img(), live, root)
      modifies volume
      ensures r.Ok? <==> name in old(Names(Entries(volume.Img(), root)))
      ensures r.Err? ==> r == Err(ENOENT) && volume.Img() == old(volume.Img())
      ensures r.Ok? ==> n < old(Count(volume.Img(), root)) && NameOf(old(Entries(volume.Img(), root))[n]) == name
                        && Deleted(old(volume.Img()), volume.Img(), live, root, n)
                        && DirOk(volume.Img(), live - {old(Entries(volume.Img(), root))[n].inode}, root)
    {
      hide Sound, Removed, Deleted, EntryAt, WellNamed, Owned, NoneNamed, CString, Names, Freed, DentryAt;
      ghost var a := volume.Img();
      n := 0;
      var found := Find(name, live);
      FoundName(a, live, root, name, found);
      if found.None? {
        return Err(ENOENT), 0;
      }
      n := found.value.index;
      DentryIs(a, root, n);
      var inodeNum := DentryAt(volume.data[found.value.block], found.value.entry).inode;
      DirBound(a, live, root);
      DeleteDentry(found.value, live);
      ghost var b := volume.Img();
      RemovedParts(a, b, live, root, n, inodeNum);
      volume.SetInodeStatus(inodeNum, false);
      ghost var c := volume.Img();
      var inode := volume.inodes[inodeNum];
      FileBlocksMapped(c, live, inodeNum);
      volume.FreeDataBlocks(inode.size, inode, inodeNum);
      FreedIs(c, volume.Img(), inodeNum);
      DeleteDone(a, b, volume.Img(), live, root, n);
      r := Ok(());
    }
  }

  /** What opening the empty name gives: reads return the names of the directory, one a call. */
  class Listing {
    const dir: Directory
    var index: nat

    constructor (d: Directory)
      ensures dir == d && index == 0
    {
      dir, index := d, 0;
    }

    /** ktfs_listing_read: the next name with its terminator, if the buffer has room for it; nothing at the end. */
    method Read(bufsz: nat, ghost live: set<nat>) returns (r: Result<seq<Byte>>)
      requires DirOk(dir.volume.Img(), live, dir.root)
      modifies this
      ensures var ents := Entries(dir.volume.Img(), dir.root);
        if bufsz == 0 || old(index) >= |ents| then r == Ok([]) && index == old(index)
        else
          var name := NameOf(ents[old(index)]);
          if |name| + 1 > bufsz then r == Err(ENOTSUP) && index == old(index)
          else r == Ok(name + [0]) && index == old(index) + 1
    {
      hide Sound, WellNamed, CString, EntryAt, DentryAt;
      DirBound(dir.volume.Img(), live, dir.root);
      if bufsz == 0 {
        return Ok([]);
      }
      var numDentries := dir.volume.inodes[dir.root].size / DENSZ;
      if index >= numDentries {
        return Ok([]);
      }
      DirSound(dir.volume.Img(), live, dir.root);
      var dentry := dir.GetDentryAtIndex(index, live);
      var name := NameOf(dentry.value);
      if |name| + 1 > bufsz {
        return Err(ENOTSUP);
      }
      index := index + 1;
      r := Ok(name + [0]);
    }
  }

  lemma DirSound(a: Image, live: set<nat>, root: nat)
    requires DirOk(a, live, root)
    ensures Sound(a, live) && root in live && root < |a.inodes| && a.inodes[root].size <= MAX_FILE_SIZE
  {
  }

  /** A C string is what stands before the first zero byte. */
  lemma {:induction false} CStringLength(s: seq<Byte>)
    requires 0 in s
    ensures |CString(s)| < |s| && 0 !in CString(s) && s[|CString(s)|] == 0 && CString(s) == s[..|CString(s)|]
  {
    if s[0] != 0 {
      assert 0 in s[1..];
      CStringLength(s[1..]);
    }
  }

  ghost predicate HasFreeInode(img: Image) {
    exists i :: 0 <= i < |img.inodeBits| && !img.inodeBits[i]
  }

  /** The image after add_dentry, whatever the index blocks it takes may hold. A block index from outside the data
      region cannot be fetched, and then no entry is written. */
  function WithDentry(img: Image, root: nat, d: Dentry): Image
    requires root < |img.inodes| && Count(img, root) < DENTRY_LIMIT && |img.dataBits| <= 0x8000_0000
    requires d.inode < 0x1_0000 && |d.name| == NAME_LEN
  {
    var n := Count(img, root);
    var f := Located(img, Leaf(root, n / PER_BLOCK), false);
    if f.1.Err? || f.1.value >= |f.0.data| then f.0
    else
      var block := Overwrite(f.0.data[f.1.value], DENSZ * (n % PER_BLOCK), DentryBytes(d));
      WithSize(f.0.(data := f.0.data[f.1.value := block]), root, DENSZ * (n + 1))
  }

  /** The image after an accepted create of inode `ino`. */
  function CreatedImage(img: Image, root: nat, name: seq<Byte>, ino: nat): Image
    requires root < |img.inodes| && Count(img, root) < DENTRY_LIMIT && |img.dataBits| <= 0x8000_0000
    requires ino < |img.inodes| <= |img.inodeBits| <= 0x1_0000 && |name| < NAME_LEN
  {
    var b := img.(inodeBits := img.inodeBits[ino := true]);
    DentrySizes(b, root, Dentry(ino, Padded(name)));
    var c := WithDentry(b, root, Dentry(ino, Padded(name)));
    c.(inodes := c.inodes[ino := EMPTY_INODE])
  }

  lemma DentrySizes(img: Image, root: nat, d: Dentry)
    requires root < |img.inodes| && Count(img, root) < DENTRY_LIMIT && |img.dataBits| <= 0x8000_0000
    requires d.inode < 0x1_0000 && |d.name| == NAME_LEN
    ensures |WithDentry(img, root, d).inodes| == |img.inodes|
  {
    hide Fill, Overwrite;
  }

  /** With blank index blocks, add_dentry does what get_or_alloc_data_block would have done, and appends the entry. */
  lemma WithDentryAppends(a: Image, live: set<nat>, root: nat, d: Dentry)
    requires Sound(a, live) && root in live && root < |a.inodes| && a.inodes[root].size % DENSZ == 0
    requires Count(a, root) < DENTRY_LIMIT && IndexReady(a, root) && |a.dataBits| <= 0x8000_0000
    requires d.inode < 0x1_0000 && |d.name| == NAME_LEN
    ensures Appended(a, WithDentry(a, root, d), live, root, d)
  {
    hide Sound, Step, Reached, Owned, EntrySet, Appended, Kept, DentryAt, EntryAt, Located, FirstFree, Overwrite;
    var n := Count(a, root);
    var leaf := Leaf(root, n / PER_BLOCK);
    var f := Located(a, leaf, false);
    var b, r := f.0, f.1;
    SoundShape(a, live);
    assert Live(a, live, leaf);
    LocatedReached(a, live, leaf, false);
    ReachedGrown(a, b, live, leaf, r);
    EntryMapped(a, live, root);
    GrownStep(a, b, live, root, n / PER_BLOCK, 0, r);
    SoundGrown(a, b, live, Path(leaf));
    GrownSizes(a, b, live, Path(leaf));
    if r.Err? {
      AppendFailed(a, b, live, root, d, r);
    } else {
      WriteEntry(b, live, root, n, d);
      var c := b.(data := b.data[r.value := Overwrite(b.data[r.value], DENSZ * (n % PER_BLOCK), DentryBytes(d))]);
      AppendDone(a, b, c, live, root, d, r);
    }
  }

  /** Of the exits without an entry, those that changed a buffer are the ones that ran out of blocks on the way. */
  lemma UnsavedExactly(a: Image, live: set<nat>, root: nat)
    requires Sound(a, live) && root in live && root < |a.inodes| && Count(a, root) < DENTRY_LIMIT && IndexReady(a, root)
    ensures |a.dataBits| <= 0x8000_0000
    ensures var (b, r) := Located(a, Leaf(root, Count(a, root) / PER_BLOCK), false);
      && (r.Ok? ==> r.value < |b.data| && !RunsOut(a, root))
      && (r.Err? ==> (b.inodes != a.inodes || b.data != a.data <==> RunsOut(a, root)))
  {
    hide Owned, Grown, FreeCount, TakeFirst, NthFree, Located;
    var leaf := Leaf(root, Count(a, root) / PER_BLOCK);
    SoundShape(a, live);
    LocatedReached(a, live, leaf, false);
    NothingFree(a, leaf);
    var b := Located(a, leaf, false).0;
    if b.inodes == a.inodes && b.data == a.data {
      SameMissing(a, b, leaf);
    }
  }

  lemma NothingFree(a: Image, leaf: Slot)
    requires leaf.IsLeaf() && leaf.InRange() && leaf.ino < |a.inodes| && |a.dataBits| <= 0x8000_0000
    ensures FreeCount(a.dataBits) == 0 ==> Located(a, leaf, false).0 == a
  {
    FreeCountFull(a.dataBits);
    FirstFreeIs(a.dataBits);
  }

  lemma EntryMapped(a: Image, live: set<nat>, root: nat)
    requires Sound(a, live) && root in live && root < |a.inodes| && a.inodes[root].size % DENSZ == 0
    ensures MappedTo(a, root, Count(a, root) / PER_BLOCK)
  {
    MappedFile(a, live, root);
  }

  lemma DirBound(a: Image, live: set<nat>, root: nat)
    requires DirOk(a, live, root)
    ensures |Entries(a, root)| == Count(a, root) <= |a.inodes| <= |a.inodeBits| <= 0x1_0000
    ensures |a.inodeBits| % BITS_PER_BLOCK == 0
    ensures forall n :: 0 <= n < Count(a, root) ==> Entries(a, root)[n] == EntryAt(a, root, n)
    ensures forall n :: 0 <= n < Count(a, root) ==> Entries(a, root)[n].inode in live
    ensures forall n :: 0 <= n < Count(a, root) ==> Entries(a, root)[n].inode != root
    ensures forall n :: 0 <= n < Count(a, root) ==> Entries(a, root)[n].inode < |a.inodes|
  {
    EntriesLength(a, root);
    EntriesBound(Entries(a, root), live, root, |a.inodes|);
  }

  /** The walk finds a name exactly when the directory map has it. */
  lemma FoundName(a: Image, live: set<nat>, root: nat, name: seq<Byte>, found: Option<Place>)
    requires DirOk(a, live, root) && Count(a, root) <= DENTRY_LIMIT
    requires found.Some? ==> found.value.index < Count(a, root) && NameOf(EntryAt(a, root, found.value.index)) == name
    requires found.None? ==> NoneNamed(a, root, Count(a, root), name)
    ensures found.Some? <==> name in Names(Entries(a, root))
    ensures found.None? ==> forall n :: 0 <= n < Count(a, root) ==> NameOf(EntryAt(a, root, n)) != name
    ensures found.Some? ==> NameOf(Entries(a, root)[found.value.index]) == name
  {
    var ents := Entries(a, root);
    EntriesLength(a, root);
    if found.Some? {
      var n := found.value.index;
      assert NameOf(ents[n]) == name;
      NamesAt(ents, name, ents[n].inode);
    } else if name in Names(ents) {
      NamesAt(ents, name, Names(ents)[name]);
    }
  }

  lemma RemovedParts(a: Image, b: Image, live: set<nat>, root: nat, n: nat, ino: nat)
    requires DirOk(a, live, root) && Removed(a, b, live, root, n) && ino in live
    ensures Sound(b, live) && b.inodeBits == a.inodeBits && ino < |b.inodes| <= |b.inodeBits|
    ensures Sound(b.(inodeBits := b.inodeBits[ino := false]), live)
  {
    InodeBitsOnly(b, b.(inodeBits := b.inodeBits[ino := false]), live, ino, false);
  }

  lemma FileBlocksMapped(c: Image, live: set<nat>, ino: nat)
    requires Sound(c, live) && ino in live
    ensures ino < |c.inodes| && c.inodes[ino].size <= MAX_FILE_SIZE && |c.data| <= |c.dataBits|
    ensures forall s: Slot :: Serves(s, ino, NumBlocks(c.inodes[ino].size)) ==> 0 < Val(c, s) < |c.data|
  {
    assert forall s: Slot :: Serves(s, ino, NumBlocks(c.inodes[ino].size)) ==> Live(c, live, s);
  }

  lemma FreedIs(c: Image, d: Image, ino: nat)
    requires ino < |c.inodes| && d == c.(dataBits := d.dataBits) && |d.dataBits| == |c.dataBits|
    requires forall v :: 0 <= v < |d.dataBits| ==>
               (d.dataBits[v] <==> c.dataBits[v] && !ServedBy(c, ino, NumBlocks(c.inodes[ino].size), v))
    ensures Freed(c, d, ino)
  {
  }

  lemma DentryAtIs(img: Image, live: set<nat>, root: nat, n: nat)
    requires root in live && Sound(img, live) && root < |img.inodes| && n < Count(img, root)
    ensures n < DENTRY_LIMIT && EntryAt(img, root, n).inode < 0x1_0000 && |EntryAt(img, root, n).name| == NAME_LEN
  {
    DentryBlocksMapped(img, live, root, n);
    assert Leaf(root, n / PER_BLOCK) in Path(Leaf(root, n / PER_BLOCK));
  }

  lemma SoundShape(a: Image, live: set<nat>)
    requires Sound(a, live)
    ensures Shape(a) && Owned(a, live)
  {
  }

  lemma SoundGrown(a: Image, b: Image, live: set<nat>, path: set<Slot>)
    requires Sound(a, live) && Shape(b) && Owned(b, live) && Grown(a, b, live, path)
    ensures Sound(b, live)
  {
    GrownKeepsMapped(a, b, live, path);
  }

  lemma GrownSizes(a: Image, b: Image, live: set<nat>, path: set<Slot>)
    requires Grown(a, b, live, path)
    ensures |b.inodes| == |a.inodes| && forall i :: 0 <= i < |a.inodes| ==> b.inodes[i].size == a.inodes[i].size
  {
  }

  lemma ChildPath(p: Slot, j: nat)
    requires (p.Ind? || p.DindMid?) && p.InRange() && j < PTRS_PER_BLOCK
    ensures FirstBlock(p) + j < MAX_BLOCKS && Leaf(p.ino, FirstBlock(p) + j) == Child(p, j)
    ensures Child(p, j) in Path(Child(p, j)) && p in Path(Child(p, j))
  {
    LeafOfBlockNumber(Child(p, j));
  }

  lemma PathOf(leaf: Slot)
    requires leaf.IsLeaf()
    ensures leaf in Path(leaf)
    ensures InIndexBlock(leaf) ==> Parent(leaf) in Path(leaf)
    ensures leaf.DindLeaf? ==> Parent(Parent(leaf)) in Path(leaf)
  {
  }

  lemma CountBound(img: Image, live: set<nat>, root: nat)
    requires root in live && Sound(img, live)
    ensures root < |img.inodes| && Count(img, root) <= DENTRY_LIMIT
    ensures img.inodes[root].size <= MAX_FILE_SIZE
  {
  }

  lemma NoneNamedYet(img: Image, root: nat, name: seq<Byte>)
    requires root < |img.inodes|
    ensures NoneNamed(img, root, 0, name)
  {
  }

  /** The slot and the place within the block of directory entry `n`, region by region. */
  lemma DentrySlot(root: nat, n: nat, d: nat, index: nat)
    requires n / PER_BLOCK < MAX_BLOCKS
    ensures n < 128 ==> Leaf(root, n / PER_BLOCK) == Direct(root, n / PER_BLOCK)
    ensures 128 <= n < 4224 ==> Leaf(root, n / PER_BLOCK) == IndLeaf(root, (n - 128) / PER_BLOCK)
                                && n % PER_BLOCK == (n - 128) % PER_BLOCK
    ensures n == 4224 + d * 524288 + index && index < 524288 ==>
              && Leaf(root, n / PER_BLOCK) == DindLeaf(root, d, index / 4096, index % 4096 / PER_BLOCK)
              && n % PER_BLOCK == index % 4096 % PER_BLOCK
  {
    if n == 4224 + d * 524288 + index && index < 524288 {
      DentrySlotFar(root, n, d, index);
    } else if 128 <= n < 4224 {
      assert n / PER_BLOCK == 4 + (n - 128) / PER_BLOCK;
    }
  }

  lemma DentrySlotFar(root: nat, n: nat, d: nat, index: nat)
    requires n / PER_BLOCK < MAX_BLOCKS && n == 4224 + d * 524288 + index && index < 524288
    ensures Leaf(root, n / PER_BLOCK) == DindLeaf(root, d, index / 4096, index % 4096 / PER_BLOCK)
    ensures n % PER_BLOCK == index % 4096 % PER_BLOCK
  {
    hide Leaf;
    var m, rest := index / 4096, index % 4096;
    var k, e := rest / PER_BLOCK, rest % PER_BLOCK;
    assert n == 32 * (132 + d * 16384 + m * 128 + k) + e;
    Cut32(n, 132 + d * 16384 + m * 128 + k, e);
    FarLeaf(root, d, m, k);
  }

  lemma Cut32(n: nat, q: nat, e: nat)
    requires n == 32 * q + e && e < 32
    ensures n / 32 == q && n % 32 == e
  {
  }

  lemma FarLeaf(root: nat, d: nat, m: nat, k: nat)
    requires m < 128 && k < 128 && 132 + d * 16384 + m * 128 + k < MAX_BLOCKS
    ensures Leaf(root, 132 + d * 16384 + m * 128 + k) == DindLeaf(root, d, m, k)
  {
    LeafOfBlockNumber(DindLeaf(root, d, m, k));
  }

  lemma DentryIs(img: Image, root: nat, n: nat)
    requires root < |img.inodes| && n / PER_BLOCK < MAX_BLOCKS
    ensures var b := Val(img, Leaf(root, n / PER_BLOCK));
      b < |img.data| ==> EntryAt(img, root, n) == DentryAt(img.data[b], n % PER_BLOCK)
  {
  }
}
