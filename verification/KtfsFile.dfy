/** Reading, writing and resizing through one open handle. */
module KtfsFile {
  import opened Machine
  import opened Results
  import opened KtfsImage
  import opened KtfsTree
  import opened KtfsGrowth
  import opened KtfsLimits
  import opened KtfsSteps
  import opened KtfsVolume

  class File {
    const volume: Volume
    const ino: nat
    var fileSize: nat
    var pos: nat

    constructor (v: Volume, i: nat)
      requires i < |v.inodes|
      ensures volume == v && ino == i && pos == 0 && fileSize == v.inodes[i].size
    {
      volume, ino, fileSize, pos := v, i, v.inodes[i].size, 0;
    }

    /** get_or_alloc_data_block on the inode where it lies in its cached inode block. */
    method EnsureBlock(blkno: nat, ghost p: nat, ghost live: set<nat>) returns (r: Result<nat>)
      requires ino in live && Sound(volume.Img(), live) && ino < |volume.inodes| && MappedTo(volume.Img(), ino, blkno)
      modifies volume
      ensures Sound(volume.Img(), live)
      ensures Step(old(volume.Img()), volume.Img(), live, ino, p, p)
      ensures r.Ok? <==> blkno < old(BlockLimit(volume.Img(), ino))
      ensures r.Ok? ==> blkno < MAX_BLOCKS && r.value == Val(volume.Img(), Leaf(ino, blkno)) != 0
      ensures r.Ok? ==> Extends(old(volume.Img()), volume.Img(), ino, blkno)
      ensures TookWithin(old(volume.Img()), volume.Img(), ino, blkno + 1)
      ensures r.Err? ==> r.code == ENOTSUP && Exhausted(volume.Img(), ino)
    {
      hide Grown, Reached, Step, Extends, BlockLimit, Lacking, Mapped, MappedTo, TookWithin, Exhausted;
      ghost var a := volume.Img();
      assert volume.View(ino, volume.inodes[ino]) == a;
      var inode;
      r, inode := volume.GetOrAllocDataBlock(volume.inodes[ino], blkno, ino, live);
      ghost var b := volume.View(ino, inode);
      volume.inodes := volume.inodes[ino := inode];
      assert volume.Img() == b;
      LimitIs(a, ino, blkno + 1);
      if blkno < MAX_BLOCKS {
        ReachedFile(a, b, live, ino, blkno, p, r);
      } else {
        StepNothing(a, live, ino, p, p);
        TookNothing(a, b, ino, blkno + 1);
        NoMoreBlocks(a, ino, blkno);
      }
    }

    /** get_or_alloc_data_block, cache_get_block and memcpy into the block. */
    method PutBytes(blkno: nat, at: nat, chunk: seq<Byte>, ghost live: set<nat>) returns (r: Result<()>)
      requires ino in live && Sound(volume.Img(), live) && at + |chunk| <= BLKSZ
      requires ino < |volume.inodes| && MappedTo(volume.Img(), ino, blkno)
      modifies volume
      ensures Sound(volume.Img(), live)
      ensures Step(old(volume.Img()), volume.Img(), live, ino, blkno * BLKSZ + at, blkno * BLKSZ + at + |chunk|)
      ensures r.Ok? <==> blkno < old(BlockLimit(volume.Img(), ino))
      ensures r.Ok? ==> blkno < MAX_BLOCKS && forall k: nat :: blkno * BLKSZ + at <= k < blkno * BLKSZ + at + |chunk| ==>
                          ByteAt(volume.Img(), ino, k) == chunk[k - blkno * BLKSZ - at]
      ensures r.Ok? ==> Extends(old(volume.Img()), volume.Img(), ino, blkno)
      ensures TookWithin(old(volume.Img()), volume.Img(), ino, blkno + 1)
      ensures r.Err? ==> r.code == ENOTSUP && Exhausted(volume.Img(), ino)
    {
      hide BlockLimit, Step, Sound, Extends, Overwrite, TookWithin, Exhausted;
      ghost var a, lo, hi := volume.Img(), blkno * BLKSZ + at, blkno * BLKSZ + at + |chunk|;
      var idx := EnsureBlock(blkno, lo, live);
      if idx.Err? {
        StepWiden(a, volume.Img(), live, ino, lo, lo, hi);
        return Err(idx.code);
      }
      ghost var b, leaf := volume.Img(), Leaf(ino, blkno);
      LeafInRange(b, live, leaf);
      volume.data := volume.data[idx.value := Overwrite(volume.data[idx.value], at, chunk)];
      WriteLeafStep(b, volume.Img(), live, ino, blkno, at, chunk);
      SoundOwned(a, live);
      StepTransitive(a, b, volume.Img(), live, ino, lo, lo, hi);
      ExtendsFurther(a, b, volume.Img(), ino, blkno);
      TookSame(a, b, volume.Img(), ino, blkno + 1);
      r := Ok(());
    }

    // -------------------------------------------------------------- ktfs_store

    /** The copy loop of ktfs_store, block by block from offset `start`. */
    method WriteChunks(start: nat, buf: seq<Byte>, ghost live: set<nat>) returns (r: Result<()>)
      requires ino in live && Sound(volume.Img(), live)
      requires MappedTo(volume.Img(), ino, NumBlocks(Max(volume.inodes[ino].size, start)))
      modifies volume
      ensures Sound(volume.Img(), live)
      ensures Step(old(volume.Img()), volume.Img(), live, ino, start, start + |buf|)
      ensures r.Ok? ==> Written(old(volume.Img()), volume.Img(), live, ino, start, buf)
      ensures buf != [] ==> (r.Ok? <==> start + |buf| <= old(Limit(volume.Img(), ino)))
      ensures ino < |old(volume.inodes)| && TookWithin(old(volume.Img()), volume.Img(), ino, NumBlocks(start + |buf|))
      ensures r.Err? ==> r.code == ENOTSUP && Exhausted(volume.Img(), ino)
      ensures r.Err? ==> CopiedTo(volume.Img(), ino, start, old(volume.inodes[ino].size), buf)
    {
      hide Written, Step, Sound, BlockLimit, CopiedTo, TookWithin, Exhausted, NumBlocks;
      ghost var a, done := volume.Img(), [];
      MappedFile(a, live, ino);
      TookNothing(a, a, ino, NumBlocks(start + |buf|));
      WrittenNothing(a, live, ino, start);
      var pos, copied := start, 0;
      while copied < |buf|
        invariant 0 <= copied <= |buf| && pos == start + copied
        invariant Sound(volume.Img(), live) && (copied > 0 ==> pos <= Limit(a, ino))
        invariant TookWithin(a, volume.Img(), ino, NumBlocks(start + |buf|))
        invariant done == buf[..copied] && Written(a, volume.Img(), live, ino, start, done)
      {
        var remaining := |buf| - copied;
        var chunk := BLKSZ - pos % BLKSZ;
        if chunk > remaining {
          chunk := remaining;
        }
        var bytes := buf[copied..copied + chunk];
        WrittenLimit(a, volume.Img(), live, ino, start, done);
        ghost var b := volume.Img();
        r := WriteChunk(pos, bytes, a, start, done, live);
        ChunkTook(a, b, volume.Img(), live, ino, start, done, pos, start + |buf|);
        if r.Err? {
          StepWiden(a, volume.Img(), live, ino, start, pos + chunk, start + |buf|);
          SizeInLimit(a, live, ino);
          CopiedPart(volume.Img(), ino, start, a.inodes[ino].size, buf, copied);
          return;
        }
        done := done + bytes;
        pos, copied := pos + chunk, copied + chunk;
      }
      assert done == buf;
      WrittenStep(a, volume.Img(), live, ino, start, buf);
      r := Ok(());
    }

    /** One turn of the copy loop, at file offset `at`. */
    method WriteChunk(at: nat, chunk: seq<Byte>,
                      ghost a: Image, ghost start: nat, ghost done: seq<Byte>, ghost live: set<nat>)
      returns (r: Result<()>)
      requires ino in live && Sound(a, live) && Sound(volume.Img(), live) && ino < |volume.inodes|
      requires Written(a, volume.Img(), live, ino, start, done)
      requires at == start + |done| && 0 < |chunk| <= BLKSZ - at % BLKSZ
      modifies volume
      ensures Sound(volume.Img(), live)
      ensures r.Ok? <==> at / BLKSZ < old(BlockLimit(volume.Img(), ino))
      ensures r.Ok? ==> Written(a, volume.Img(), live, ino, start, done + chunk)
      ensures r.Err? ==> Step(a, volume.Img(), live, ino, start, at + |chunk|)
      ensures ino < |a.inodes| && ino < |volume.inodes|
      ensures r.Err? ==> forall k: nat :: start <= k < at && k < MAX_FILE_SIZE && k < a.inodes[ino].size ==>
                           ByteAt(volume.Img(), ino, k) == done[k - start]
      ensures TookWithin(old(volume.Img()), volume.Img(), ino, at / BLKSZ + 1)
      ensures r.Err? ==> r.code == ENOTSUP && Exhausted(volume.Img(), ino)
    {
      hide Written, Step, Sound, Extends, Owned, BlockLimit, MappedTo, TookWithin, Exhausted;
      SoundOwned(a, live);
      ghost var b := volume.Img();
      WrittenLimit(a, b, live, ino, start, done);
      assert at / BLKSZ * BLKSZ + at % BLKSZ == at;
      r := PutBytes(at / BLKSZ, at % BLKSZ, chunk, live);
      if r.Err? {
        WrittenStep(a, b, live, ino, start, done);
        StepTransitive(a, b, volume.Img(), live, ino, start, at, at + |chunk|);
        WrittenStays(a, b, volume.Img(), live, ino, start, done, at + |chunk|);
      } else {
        WrittenMore(a, b, volume.Img(), live, ino, start, done, chunk);
        WrittenLimit(a, volume.Img(), live, ino, start, done + chunk);
      }
    }
  
    /** The branch of ktfs_store for a position past the end: zero the rest of the last block, then make
        sure every block up to the position exists. */
    method FillGap(at: nat, ghost live: set<nat>) returns (r: Result<()>)
      requires ino in live && Sound(volume.Img(), live) && at > volume.inodes[ino].size
      modifies volume
      ensures Sound(volume.Img(), live)
      ensures r.Ok? <==> at <= old(Limit(volume.Img(), ino))
      ensures r.Ok? ==> GapFilled(old(volume.Img()), volume.Img(), live, ino, at)
      ensures Step(old(volume.Img()), volume.Img(), live, ino, old(volume.inodes[ino].size), at)
      ensures ino < |old(volume.inodes)| && TookWithin(old(volume.Img()), volume.Img(), ino, NumBlocks(at))
      ensures r.Err? ==> r.code == ENOTSUP && Exhausted(volume.Img(), ino)
    {
      hide Sound, Step, GapFilled, MappedTo, TrimTo, BlockLimit, TookWithin, Exhausted;
      ghost var a := volume.Img();
      MappedFile(a, live, ino);
      SizeInLimit(a, live, ino);
      var size := volume.inodes[ino].size;
      ghost var end := TailEnd(size, at);
      LimitOfSize(a, ino, at);
      var first, last := size / BLKSZ, (at - 1) / BLKSZ;
      if size % BLKSZ != 0 {
        r := ZeroTail(first, last, at, live);
        if r.Err? {
          return;
        }
        first := first + 1;
      } else {
        StepNothing(a, live, ino, size, end);
        TookNothing(a, a, ino, NumBlocks(at));
      }
      ghost var m := volume.Img();
      MappedFile(m, live, ino);
      StepLimit(a, m, live, ino, size, end);
      if size % BLKSZ != 0 {
        TookMore(a, m, ino, first, NumBlocks(at));
      }
      r := EnsureBlocks(first, last, a, size, end, live);
      StepGrew(a, m, live, ino, size, end);
      TookMore(m, volume.Img(), ino, last + 1, NumBlocks(at));
      TookTransitive(a, m, volume.Img(), ino, NumBlocks(at));
      StepWiden(a, volume.Img(), live, ino, size, end, at);
      if r.Ok? {
        GapDone(a, m, volume.Img(), live, ino, at);
      }
    }

    /** Zeroes the last block from the end of file up to `at` or to the end of the block. */
    method ZeroTail(first: nat, last: nat, at: nat, ghost live: set<nat>) returns (r: Result<()>)
      requires ino in live && Sound(volume.Img(), live) && at > volume.inodes[ino].size
      requires first == volume.inodes[ino].size / BLKSZ && last == (at - 1) / BLKSZ
      requires volume.inodes[ino].size % BLKSZ != 0
      modifies volume
      ensures Sound(volume.Img(), live)
      ensures Step(old(volume.Img()), volume.Img(), live, ino, old(volume.inodes[ino].size), TailEnd(old(volume.inodes[ino].size), at))
      ensures r.Ok?
      ensures r.Ok? ==> first < MAX_BLOCKS && MappedTo(volume.Img(), ino, first + 1)
      ensures r.Ok? && TrimTo(old(volume.Img()), ino, first + 1) ==> TrimTo(volume.Img(), ino, first + 1)
      ensures r.Ok? ==> forall k: nat :: old(volume.inodes[ino].size) <= k < at && k / BLKSZ < first + 1 ==>
                          ByteAt(volume.Img(), ino, k) == 0
      ensures ino < |old(volume.inodes)| && TookWithin(old(volume.Img()), volume.Img(), ino, first + 1)
    {
      hide Sound, Step, MappedTo, TrimTo, BlockLimit, TookWithin, Exhausted, TotalBlocks;
      ghost var a := volume.Img();
      MappedFile(a, live, ino);
      SizeInLimit(a, live, ino);
      MappedFewer(a, ino, first, NumBlocks(volume.inodes[ino].size));
      var size := volume.inodes[ino].size;
      var end := BLKSZ;
      if first == last && at % BLKSZ != 0 {
        end := at % BLKSZ;
      }
      r := PutBytes(first, size % BLKSZ, seq(end - size % BLKSZ, _ => 0), live);
      assert first * BLKSZ + size % BLKSZ == size;
      StepWiden(a, volume.Img(), live, ino, size, first * BLKSZ + end, TailEnd(size, at));
    }

    /** The block loop of the gap branch; offsets `size` to `p` were written before it. */
    method EnsureBlocks(first: nat, last: nat, ghost a: Image, ghost size: nat, ghost p: nat, ghost live: set<nat>)
      returns (r: Result<()>)
      requires ino in live && Sound(a, live) && Sound(volume.Img(), live) && size <= p
      requires first <= last + 1 && first <= MAX_BLOCKS
      requires ino < |volume.inodes| && Step(a, volume.Img(), live, ino, size, p) && MappedTo(volume.Img(), ino, first)
      modifies volume
      ensures Sound(volume.Img(), live)
      ensures Step(old(volume.Img()), volume.Img(), live, ino, p, p) && Step(a, volume.Img(), live, ino, size, p)
      ensures r.Ok? <==> last < old(BlockLimit(volume.Img(), ino))
      ensures r.Ok? ==> last < MAX_BLOCKS && MappedTo(volume.Img(), ino, last + 1)
      ensures r.Ok? && TrimTo(old(volume.Img()), ino, first) ==> TrimTo(volume.Img(), ino, last + 1)
      ensures ino < |old(volume.inodes)| && TookWithin(old(volume.Img()), volume.Img(), ino, last + 1)
      ensures r.Err? ==> r.code == ENOTSUP && Exhausted(volume.Img(), ino)
    {
      hide Step, Sound, Owned, BlockLimit, MappedTo, TrimTo, TookWithin, Exhausted;
      ghost var a0 := volume.Img();
      SoundOwned(a, live);
      SoundOwned(a0, live);
      StepNothing(a0, live, ino, p, p);
      MappedLimit(a0, ino, first);
      TookNothing(a0, a0, ino, last + 1);
      var blk := first;
      while blk <= last
        invariant first <= blk <= last + 1 && blk <= BlockLimit(a0, ino) && ino < |volume.inodes|
        invariant Sound(volume.Img(), live)
        invariant Step(a, volume.Img(), live, ino, size, p)
        invariant Step(a0, volume.Img(), live, ino, p, p)
        invariant MappedTo(volume.Img(), ino, blk) && TookWithin(a0, volume.Img(), ino, last + 1)
        invariant TrimTo(a0, ino, first) ==> TrimTo(volume.Img(), ino, blk)
        decreases last + 1 - blk
      {
        ghost var b := volume.Img();
        StepLimit(a0, b, live, ino, p, p);
        var idx := EnsureBlock(blk, p, live);
        StepGrew(a0, b, live, ino, p, p);
        TookMore(b, volume.Img(), ino, blk + 1, last + 1);
        TookTransitive(a0, b, volume.Img(), ino, last + 1);
        StepTransitive(a, b, volume.Img(), live, ino, size, p, p);
        StepTransitive(a0, b, volume.Img(), live, ino, p, p, p);
        StepLimit(a0, volume.Img(), live, ino, p, p);
        if idx.Err? {
          return Err(idx.code);
        }
        blk := blk + 1;
      }
      LimitIs(a0, ino, 0);
      r := Ok(());
    }

    method Store(buf: seq<Byte>, ghost live: set<nat>) returns (r: Result<nat>)
      requires ino in live && Sound(volume.Img(), live)
      modifies this, volume
      ensures Sound(volume.Img(), live)
      ensures Kept(old(volume.Img()), volume.Img(), live, ino)
      ensures ino < |old(volume.inodes)| && ino < |volume.inodes| && Grew(old(volume.Img()), volume.Img(), ino)
      ensures r.Ok? <==> buf == [] || old(pos) + |buf| <= old(Limit(volume.Img(), ino))
      ensures buf == [] ==> r == Ok(0) && volume.Img() == old(volume.Img()) && pos == old(pos) && fileSize == old(fileSize)
      ensures r.Ok? && buf != [] ==>
                && r.value == |buf| && old(pos) + |buf| <= MAX_FILE_SIZE
                && pos == old(pos) + |buf| && fileSize == volume.inodes[ino].size
                && Stored(old(Contents(volume.Img(), ino)), old(pos), buf, Contents(volume.Img(), ino))
                && Shows(old(volume.Img()), volume.Img(), ino, NumBlocks(old(volume.inodes[ino].size)) * BLKSZ, old(pos))
      ensures r.Ok? && Trim(old(volume.Img()), ino) ==> Trim(volume.Img(), ino)
      ensures r.Err? ==> r.code == ENOTSUP
      ensures buf != [] ==> StoreTook(old(volume.Img()), volume.Img(), ino, old(pos) + |buf|, r)
      ensures r.Err? ==> pos == old(pos) && fileSize == old(fileSize) && FailedStore(old(volume.Img()), volume.Img(), ino, pos)
      ensures r.Err? && pos <= old(volume.inodes[ino].size) ==>
                && FailureExact(old(volume.Img()), volume.Img(), live, ino)
                && Overwritten(old(Contents(volume.Img(), ino)), pos, buf, Contents(volume.Img(), ino))
    {
      hide Sound, Positioned, Written, Step, Stored, Kept, FailedStore, MappedTo, Contents, Trim, Grew, Shows,
        BlockLimit, FailureExact, CopiedTo, Overwritten, TookWithin, Exhausted, StoreTook, NumBlocks;
      ghost var a := volume.Img();
      MappedFile(a, live, ino);
      GrewNothing(a, a, ino);
      if |buf| == 0 {
        KeptNothing(a, live, ino);
        return Ok(0);
      }
      var done := ReachPosition(live);
      if done.Err? {
        SizeInLimit(a, live, ino);
        GrewSizes(a, volume.Img(), ino);
        TookEverything(a, volume.Img(), ino, NumBlocks(pos));
        FailedTook(a, volume.Img(), ino, pos + |buf|, Err(done.code));
        return Err(done.code);
      }
      ghost var b := volume.Img();
      MappedFile(b, live, ino);
      PositionedLimit(a, b, live, ino, pos);
      done := WriteChunks(pos, buf, live);
      MappedFile(volume.Img(), live, ino);
      StoreTookBoth(a, b, volume.Img(), live, ino, pos, buf);
      if done.Err? {
        StoreFailed(a, b, volume.Img(), live, ino, pos, |buf|);
        StoreOverwrites(a, b, volume.Img(), live, ino, pos, buf);
        TookEverything(a, volume.Img(), ino, NumBlocks(pos + |buf|));
        FailedTook(a, volume.Img(), ino, pos + |buf|, Err(done.code));
        return Err(done.code);
      }
      WrittenStep(b, volume.Img(), live, ino, pos, buf);
      StoredTook(a, b, volume.Img(), live, ino, pos, buf);
      StoreResult(a, b, volume.Img(), live, ino, pos, buf);
      var end := pos + |buf|;
      if end > volume.inodes[ino].size {
        volume.inodes := volume.inodes[ino := volume.inodes[ino].(size := end)];
      }
      fileSize, pos := volume.inodes[ino].size, end;
      r := Ok(|buf|);
    }

    /** The part of ktfs_store before its copy loop. */
    method ReachPosition(ghost live: set<nat>) returns (r: Result<()>)
      requires ino in live && Sound(volume.Img(), live)
      modifies volume
      ensures Sound(volume.Img(), live)
      ensures ino < |old(volume.inodes)| && (r.Ok? <==> pos <= old(Limit(volume.Img(), ino)))
      ensures r.Ok? ==> ino < |volume.inodes| && pos <= volume.inodes[ino].size
      ensures r.Ok? ==> Positioned(old(volume.Img()), volume.Img(), live, ino, pos)
      ensures TookWithin(old(volume.Img()), volume.Img(), ino, NumBlocks(pos))
      ensures r.Err? ==> r.code == ENOTSUP && Exhausted(volume.Img(), ino)
      ensures r.Err? ==> Kept(old(volume.Img()), volume.Img(), live, ino)
                         && FailedStore(old(volume.Img()), volume.Img(), ino, pos) && Grew(old(volume.Img()), volume.Img(), ino)
    {
      hide Sound, Positioned, Step, GapFilled, Kept, FailedStore, MappedTo, BlockLimit, Grew, TookWithin, Exhausted;
      ghost var a := volume.Img();
      MappedFile(a, live, ino);
      SizeInLimit(a, live, ino);
      if pos > volume.inodes[ino].size {
        r := FillGap(pos, live);
        MappedFile(volume.Img(), live, ino);
        if r.Err? {
          GapFailed(a, volume.Img(), live, ino, pos);
          return;
        }
        GapPositioned(a, volume.Img(), live, ino, pos);
        TookSame(a, volume.Img(), WithSize(volume.Img(), ino, pos), ino, NumBlocks(pos));
        volume.inodes := volume.inodes[ino := volume.inodes[ino].(size := pos)];
      } else {
        AlreadyPositioned(a, live, ino, pos);
        TookNothing(a, a, ino, NumBlocks(pos));
        r := Ok(());
      }
    }
  
    // -------------------------------------------------------------- ktfs_fetch

    /** The three-level walk of ktfs_fetch. `walked` counts the bytes of the blocks passed so far. */
    method Fetch(len: nat, ghost live: set<nat>) returns (out: seq<Byte>)
      requires ino in live && Sound(volume.Img(), live) && fileSize == volume.inodes[ino].size
      modifies this`pos
      ensures fileSize <= MAX_FILE_SIZE
      ensures old(pos) >= fileSize ==> out == [] && pos == old(pos)
      ensures old(pos) < fileSize ==>
                && out == Contents(volume.Img(), ino)[old(pos)..Min(old(pos) + len, fileSize)]
                && pos == old(pos) + |out|
    {
      hide Sound, MappedTo, Walking;
      MappedFile(volume.Img(), live, ino);
      out := [];
      if pos >= fileSize {
        return;
      }
      var at, toRead := pos, len;
      if at + toRead > fileSize {
        toRead := fileSize - at;
      }
      var inode := volume.inodes[ino];
      var start := at / BLKSZ * BLKSZ;
      var walked: nat;
      ghost var img := volume.Img();
      walked, out := CopyDirect(inode, at, start, toRead, live);
      if |out| < toRead {
        Mapped0(img, live, ino, at, toRead, walked, out, Ind(ino));
      }
      if |out| < toRead && inode.indirect != 0 {
        walked, out := CopyIndexed(inode.indirect, at, start, toRead, walked, out, Ind(ino), live);
      }
      var i := 0;
      while i < NUM_DINDIRECT && |out| < toRead
        invariant i <= NUM_DINDIRECT
        invariant |out| < toRead ==> walked == FirstBlock(Dind(ino, i)) * BLKSZ
        invariant Walking(img, ino, at, toRead, walked, out)
        decreases NUM_DINDIRECT - i
      {
        Mapped0(img, live, ino, at, toRead, walked, out, Dind(ino, i));
        walked, out := CopyDindirect(inode.dindirect[i], i, at, start, toRead, walked, out, live);
        i := i + 1;
      }
      pos := at + |out|;
      WalkDone(img, ino, at, toRead, walked, out);
    }

    method CopyDirect(inode: Inode, at: nat, start: nat, toRead: nat, ghost live: set<nat>)
      returns (walked: nat, out: seq<Byte>)
      requires ino in live && Sound(volume.Img(), live) && ino < |volume.inodes| && inode == volume.inodes[ino]
      requires at + toRead <= volume.inodes[ino].size <= MAX_FILE_SIZE && start == at / BLKSZ * BLKSZ
      ensures Walking(volume.Img(), ino, at, toRead, walked, out)
      ensures |out| < toRead ==> walked == NUM_DIRECT * BLKSZ
    {
      hide Sound, Walking;
      ghost var img := volume.Img();
      WalkStart(img, live, ino, at, toRead);
      walked, out := 0, [];
      var j := 0;
      while j < NUM_DIRECT && |out| < toRead
        invariant j <= NUM_DIRECT && (|out| < toRead ==> walked == j * BLKSZ)
        invariant Walking(img, ino, at, toRead, walked, out)
        decreases NUM_DIRECT - j
      {
        Mapped0(img, live, ino, at, toRead, walked, out, Direct(ino, j));
        WalkSkip(img, ino, at, toRead, walked, out);
        if walked >= start {
          out := CopyBlock(inode.block[j], j, at, toRead, walked, out, live);
        }
        walked, j := walked + BLKSZ, j + 1;
      }
    }

    method CopyDindirect(h: nat, i: nat, at: nat, start: nat, toRead: nat, walked0: nat, out0: seq<Byte>, ghost live: set<nat>)
      returns (walked: nat, out: seq<Byte>)
      requires ino in live && Sound(volume.Img(), live) && ino < |volume.inodes|
      requires at + toRead <= volume.inodes[ino].size && start == at / BLKSZ * BLKSZ
      requires i < NUM_DINDIRECT && h == Val(volume.Img(), Dind(ino, i)) && 0 < h < |volume.data|
      requires walked0 == FirstBlock(Dind(ino, i)) * BLKSZ
      requires Walking(volume.Img(), ino, at, toRead, walked0, out0)
      ensures Walking(volume.Img(), ino, at, toRead, walked, out)
      ensures |out| < toRead ==> walked == FirstBlock(Dind(ino, i + 1)) * BLKSZ
    {
      hide Sound, Walking;
      walked, out := walked0, out0;
      var m := 0;
      while m < PTRS_PER_BLOCK && |out| < toRead
        invariant m <= PTRS_PER_BLOCK
        invariant |out| < toRead ==> walked == FirstBlock(DindMid(ino, i, m)) * BLKSZ
        invariant Walking(volume.Img(), ino, at, toRead, walked, out)
        decreases PTRS_PER_BLOCK - m
      {
        Mapped0(volume.Img(), live, ino, at, toRead, walked, out, DindMid(ino, i, m));
        walked, out := CopyIndexed(Ptr(volume.data[h], m), at, start, toRead, walked, out, DindMid(ino, i, m), live);
        m := m + 1;
      }
    }

    /** The entries of one index block, which slot `p` refers to. */
    method CopyIndexed(h: nat, at: nat, start: nat, toRead: nat, walked0: nat, out0: seq<Byte>,
                       ghost p: Slot, ghost live: set<nat>)
      returns (walked: nat, out: seq<Byte>)
      requires ino in live && Sound(volume.Img(), live) && ino < |volume.inodes|
      requires at + toRead <= volume.inodes[ino].size
      requires start == at / BLKSZ * BLKSZ
      requires (p.Ind? || p.DindMid?) && p.ino == ino && p.InRange()
      requires h == Val(volume.Img(), p) && 0 < h < |volume.data| && walked0 == FirstBlock(p) * BLKSZ
      requires Walking(volume.Img(), ino, at, toRead, walked0, out0)
      ensures Walking(volume.Img(), ino, at, toRead, walked, out)
      ensures |out| < toRead ==> walked == (FirstBlock(p) + PTRS_PER_BLOCK) * BLKSZ
    {
      hide Sound, Walking;
      walked, out := walked0, out0;
      var k := 0;
      while k < PTRS_PER_BLOCK && |out| < toRead
        invariant k <= PTRS_PER_BLOCK && (|out| < toRead ==> walked == (FirstBlock(p) + k) * BLKSZ)
        invariant Walking(volume.Img(), ino, at, toRead, walked, out)
        decreases PTRS_PER_BLOCK - k
      {
        Mapped0(volume.Img(), live, ino, at, toRead, walked, out, Child(p, k));
        LeafOfBlockNumber(Child(p, k));
        WalkSkip(volume.Img(), ino, at, toRead, walked, out);
        if walked >= start {
          out := CopyBlock(Ptr(volume.data[h], k), FirstBlock(p) + k, at, toRead, walked, out, live);
        }
        walked, k := walked + BLKSZ, k + 1;
      }
    }

    /** cache_get_block and memcpy of one data block. */
    method CopyBlock(idx: nat, ghost b: nat, at: nat, toRead: nat, walked: nat, out0: seq<Byte>, ghost live: set<nat>)
      returns (out: seq<Byte>)
      requires ino in live && Sound(volume.Img(), live) && at + toRead <= volume.inodes[ino].size
      requires walked == b * BLKSZ >= at / BLKSZ * BLKSZ && |out0| < toRead
      requires Walking(volume.Img(), ino, at, toRead, walked, out0)
      requires b < MAX_BLOCKS && idx == Val(volume.Img(), Leaf(ino, b)) && 0 < idx < |volume.data|
      ensures |out| > 0 && Walking(volume.Img(), ino, at, toRead, walked + BLKSZ, out)
    {
      var intra := if |out0| == 0 then at % BLKSZ else 0;
      var remaining := toRead - |out0|;
      var chunk := BLKSZ - intra;
      if chunk > remaining {
        chunk := remaining;
      }
      out := out0 + volume.data[idx][intra..intra + chunk];
      forall k | |out0| <= k < |out|
        ensures out[k] == ByteAt(volume.Img(), ino, at + k)
      {
        assert (at + k) / BLKSZ == b && (at + k) % BLKSZ == intra + (k - |out0|);
      }
    }

    // -------------------------------------------------------------- ktfs_cntl

    method Cntl(cmd: Command, ghost live: set<nat>) returns (r: Result<nat>)
      requires ino in live && Sound(volume.Img(), live)
      modifies this, volume
      ensures Sound(volume.Img(), live)
      ensures cmd.GetEnd? ==> r == Ok(fileSize)
      ensures cmd.GetPos? ==> r == Ok(pos)
      ensures cmd.SetPos? ==> if cmd.value <= fileSize then r == Ok(0) && pos == cmd.value else r == Err(ENOTSUP)
      ensures !cmd.SetEnd? ==> volume.Img() == old(volume.Img()) && fileSize == old(fileSize)
      ensures !cmd.SetEnd? && (cmd.SetPos? ==> cmd.value > fileSize) ==> pos == old(pos)
      ensures cmd.Other? ==> r == Err(ENOTSUP)
      ensures cmd.SetEnd? ==> SetEndDone(old(volume.Img()), volume.Img(), live, ino, cmd.value, r)
      ensures cmd.SetEnd? && r.Ok? ==> fileSize == cmd.value && pos == Min(old(pos), cmd.value)
      ensures cmd.SetEnd? && r.Err? ==> fileSize == old(fileSize) && pos == old(pos)
    {
      if cmd.GetEnd? {
        return Ok(fileSize);
      }
      if cmd.SetPos? && cmd.value <= fileSize {
        pos := cmd.value;
        return Ok(0);
      }
      if cmd.GetPos? {
        return Ok(pos);
      }
      if cmd.SetEnd? {
        r := SetEnd(cmd.value, live);
        return;
      }
      r := Err(ENOTSUP);
    }

    /** FCNTL_SETEND works on a private copy of the inode and writes it back at the end. */
    method SetEnd(n: nat, ghost live: set<nat>) returns (r: Result<nat>)
      requires ino in live && Sound(volume.Img(), live)
      modifies this, volume
      ensures Sound(volume.Img(), live)
      ensures SetEndDone(old(volume.Img()), volume.Img(), live, ino, n, r)
      ensures r.Ok? ==> fileSize == n && pos == Min(old(pos), n)
      ensures r.Err? ==> fileSize == old(fileSize) && pos == old(pos)
    {
      hide Sound, Step, MappedTo, TrimTo, SetEndDone, BlockLimit, TookWithin;
      ghost var a := volume.Img();
      MappedFile(a, live, ino);
      SizeInLimit(a, live, ino);
      LimitOfSize(a, ino, n);
      if n > MAX_FILE_SIZE {
        SetEndTooLong(a, live, ino, n);
        return Err(ENOTSUP);
      }
      var inode := volume.inodes[ino];
      StepNothing(a, live, ino, 0, 0);
      TookNothing(a, a, ino, NumBlocks(n));
      assert volume.View(ino, inode) == a;
      var b, newBlocks := NumBlocks(inode.size), NumBlocks(n);
      ghost var m := volume.View(ino, inode);
      if n > inode.size {
        while b < newBlocks
          invariant NumBlocks(a.inodes[ino].size) <= b <= newBlocks && ino < |volume.inodes| && b <= BlockLimit(a, ino)
          invariant pos == old(pos) && fileSize == old(fileSize)
          invariant volume.inodes == a.inodes && m == volume.View(ino, inode)
          invariant Sound(m, live) && Step(a, m, live, ino, 0, 0) && MappedTo(m, ino, b) && TookWithin(a, m, ino, newBlocks)
          invariant TrimTo(a, ino, NumBlocks(a.inodes[ino].size)) ==> TrimTo(m, ino, b)
          decreases newBlocks - b
        {
          var idx;
          StepLimit(a, m, live, ino, 0, 0);
          idx, inode := GrowCopy(inode, b, a, live);
          StepGrew(a, m, live, ino, 0, 0);
          TookMore(m, volume.View(ino, inode), ino, b + 1, newBlocks);
          TookTransitive(a, m, volume.View(ino, inode), ino, newBlocks);
          m := volume.View(ino, inode);
          if idx.Err? {
            SetEndFailed(a, m, live, ino, n);
            assert volume.Img() == m.(inodes := m.inodes[ino := a.inodes[ino]]);
            return Err(idx.code);
          }
          b := b + 1;
        }
      }
      SetEndFinished(a, m, live, ino, n, b);
      volume.inodes := volume.inodes[ino := inode.(size := n)];
      assert volume.Img() == WithSize(m, ino, n);
      fileSize := n;
      if pos > n {
        pos := n;
      }
      r := Ok(0);
    }

    /** get_or_alloc_data_block on a private copy of the inode. */
    method GrowCopy(inode: Inode, b: nat, ghost a: Image, ghost live: set<nat>) returns (r: Result<nat>, inode': Inode)
      requires ino in live && Sound(a, live) && ino < |volume.inodes| && b < MAX_BLOCKS
      requires var m := volume.View(ino, inode); Sound(m, live) && Step(a, m, live, ino, 0, 0) && MappedTo(m, ino, b)
      modifies volume`dataBitmap, volume`data
      ensures var m := volume.View(ino, inode');
        Sound(m, live) && Step(a, m, live, ino, 0, 0)
      ensures r.Ok? ==> Extends(old(volume.View(ino, inode)), volume.View(ino, inode'), ino, b)
      ensures r.Ok? <==> b < old(BlockLimit(volume.View(ino, inode), ino))
      ensures TookWithin(old(volume.View(ino, inode)), volume.View(ino, inode'), ino, b + 1)
      ensures r.Err? ==> r.code == ENOTSUP && Full(volume.View(ino, inode'))
    {
      hide Step, Extends, Grown, Reached, BlockLimit, Lacking, Mapped, MappedTo, TookWithin;
      ghost var m := volume.View(ino, inode);
      r, inode' := volume.GetOrAllocDataBlock(inode, b, ino, live);
      ghost var m' := volume.View(ino, inode');
      LimitIs(m, ino, b + 1);
      ReachedFile(m, m', live, ino, b, 0, r);
      SoundOwned(a, live);
      StepTransitive(a, m, m', live, ino, 0, 0, 0);
    }
  }

  lemma LeafInRange(b: Image, live: set<nat>, leaf: Slot)
    requires Sound(b, live) && leaf.InRange() && leaf.ino in live
    ensures leaf.ino < |b.inodes| && (Val(b, leaf) != 0 ==> Val(b, leaf) < |b.data|)
  {
    assert leaf.ino < |b.inodes| ==> Live(b, live, leaf);
  }

  lemma ExtendsFurther(a: Image, b: Image, c: Image, ino: nat, blkno: nat)
    requires Extends(a, b, ino, blkno)
    requires forall n :: MappedTo(b, ino, n) ==> MappedTo(c, ino, n)
    requires forall n :: TrimTo(b, ino, n) ==> TrimTo(c, ino, n)
    ensures Extends(a, c, ino, blkno)
  {
    hide MappedTo, TrimTo;
  }

  /** What get_or_alloc_data_block does for a file that has all blocks before `blkno`. */
  lemma ReachedFile(a: Image, b: Image, live: set<nat>, ino: nat, blkno: nat, p: nat, r: Result<nat>)
    requires Sound(a, live) && ino in live && ino < |a.inodes| && blkno < MAX_BLOCKS && MappedTo(a, ino, blkno)
    requires Reached(a, b, live, Leaf(ino, blkno), r)
    ensures Sound(b, live) && Step(a, b, live, ino, p, p)
    ensures r.Ok? <==> Lacking(a, ino, blkno + 1) <= FreeCount(a.dataBits)
    ensures r.Ok? ==> Extends(a, b, ino, blkno) && 0 < r.value == Val(b, Leaf(ino, blkno)) < |b.data|
    ensures r.Err? ==> r.code == ENOTSUP && Full(b) && Exhausted(b, ino)
    ensures TookWithin(a, b, ino, blkno + 1)
  {
    hide Grown, Step, Extends, Lacking, Mapped, MappedTo, Grew;
    ReachedGrew(a, b, live, ino, blkno, r);
    ReachedTook(a, b, live, ino, blkno, r);
    hide TookWithin;
    hide Reached;
    ReachedRoom(a, b, live, Leaf(ino, blkno), r);
    ReachedGrown(a, b, live, Leaf(ino, blkno), r);
    GrownStep(a, b, live, ino, blkno, p, r);
    GrownKeepsMapped(a, b, live, Path(Leaf(ino, blkno)));
    if r.Ok? {
      GrownExtends(a, b, live, ino, blkno);
    }
  }

  lemma StepLimit(a: Image, b: Image, live: set<nat>, ino: nat, lo: nat, hi: nat)
    requires Step(a, b, live, ino, lo, hi)
    ensures ino < |a.inodes| == |b.inodes|
    ensures BlockLimit(b, ino) == BlockLimit(a, ino) && Limit(b, ino) == Limit(a, ino)
  {
    hide Grew, Inherited, BytesKept, OthersSame, NoLeaks, BlockLimit;
    GrewSizes(a, b, ino);
    GrewLimit(a, b, ino);
  }

  /** The bytes of the file from `start` to its end are those of `buf`, which is longer than that. */
  ghost predicate CopiedTo(img: Image, ino: nat, start: nat, size: nat, buf: seq<Byte>) {
    && ino < |img.inodes| && size <= start + |buf|
    && forall k: nat :: start <= k < size && k < MAX_FILE_SIZE ==> ByteAt(img, ino, k) == buf[k - start]
  }

  lemma CopiedPart(img: Image, ino: nat, start: nat, size: nat, buf: seq<Byte>, copied: nat)
    requires ino < |img.inodes| && copied <= |buf| && size <= start + copied
    requires forall k: nat :: start <= k < start + copied && k < MAX_FILE_SIZE && k < size ==> ByteAt(img, ino, k) == buf[..copied][k - start]
    ensures CopiedTo(img, ino, start, size, buf)
  {
    hide ByteAt;
  }

  lemma WrittenStays(a: Image, b: Image, c: Image, live: set<nat>, ino: nat, start: nat, done: seq<Byte>, hi: nat)
    requires Sound(b, live) && ino in live && Written(a, b, live, ino, start, done) && Step(b, c, live, ino, start + |done|, hi)
    ensures ino < |a.inodes| == |c.inodes|
    ensures forall k: nat :: start <= k < start + |done| && k < MAX_FILE_SIZE && k < a.inodes[ino].size ==> ByteAt(c, ino, k) == done[k - start]
  {
    hide Step, ByteAt, Sound;
    StepSizes(a, b, live, ino, start, start + |done|);
    StepSizes(b, c, live, ino, start + |done|, hi);
    MappedFile(b, live, ino);
    forall k: nat | start <= k < start + |done| && k < a.inodes[ino].size
      ensures k < MAX_FILE_SIZE ==> ByteAt(c, ino, k) == done[k - start]
    {
      ByteStays(b, c, live, ino, start + |done|, hi, b.inodes[ino].size, k);
    }
  }

  /** A store that fails has overwritten the file from the position to the end, and not made it longer. */
  ghost predicate Overwritten(before: seq<Byte>, at: nat, buf: seq<Byte>, after: seq<Byte>) {
    at <= |before| <= at + |buf| && after == before[..at] + buf[..|before| - at]
  }

  lemma StoreOverwrites(a: Image, b: Image, c: Image, live: set<nat>, ino: nat, at: nat, buf: seq<Byte>)
    requires Sound(a, live) && Sound(c, live) && ino in live && ino < |b.inodes|
    requires Positioned(a, b, live, ino, at) && FailedStore(a, c, ino, at) && CopiedTo(c, ino, at, b.inodes[ino].size, buf)
    ensures ino < |a.inodes| && ino < |c.inodes| && a.inodes[ino].size <= MAX_FILE_SIZE && c.inodes[ino].size <= MAX_FILE_SIZE
    ensures at <= a.inodes[ino].size ==> Overwritten(Contents(a, ino), at, buf, Contents(c, ino))
  {
    hide Sound, OthersSame, NoLeaks, Shows, Grew, PlacesKept, Trim;
  }

  /** No block is free, or the file has all the blocks it can have. */
  ghost predicate Exhausted(img: Image, ino: nat) {
    ino < |img.inodes| && (Full(img) || MappedTo(img, ino, MAX_BLOCKS))
  }

  lemma NoMoreBlocks(a: Image, ino: nat, blkno: nat)
    requires ino < |a.inodes| && blkno >= MAX_BLOCKS && MappedTo(a, ino, blkno)
    ensures Exhausted(a, ino)
  {
  }

  lemma StepGrew(a: Image, b: Image, live: set<nat>, ino: nat, lo: nat, hi: nat)
    requires Step(a, b, live, ino, lo, hi)
    ensures Grew(a, b, ino)
  {
    hide Grew, Inherited, BytesKept, OthersSame, NoLeaks;
  }

  lemma TookSame(a: Image, b: Image, c: Image, ino: nat, n: nat)
    requires TookWithin(a, b, ino, n) && c.dataBits == b.dataBits
    ensures TookWithin(a, c, ino, n)
  {
    hide Lacking;
  }

  /** One turn of the copy loop takes blocks for the bytes up to `end` only. */
  lemma ChunkTook(a: Image, b: Image, c: Image, live: set<nat>, ino: nat, start: nat, done: seq<Byte>, at: nat, end: nat)
    requires Written(a, b, live, ino, start, done) && at == start + |done| < end
    requires TookWithin(a, b, ino, NumBlocks(end)) && TookWithin(b, c, ino, at / BLKSZ + 1)
    ensures TookWithin(a, c, ino, NumBlocks(end))
  {
    hide Step, TookWithin, Written;
    WrittenStep(a, b, live, ino, start, done);
    StepGrew(a, b, live, ino, start, start + |done|);
    TookMore(b, c, ino, at / BLKSZ + 1, NumBlocks(end));
    TookTransitive(a, b, c, ino, NumBlocks(end));
  }

  /** How many blocks a store that would end at `end` took: what the file lacked for that, or, if it failed, what
      there was and the file could use. */
  ghost predicate StoreTook(a: Image, d: Image, ino: nat, end: nat, r: Result<nat>) {
    && ino < |a.inodes| && FreeCount(d.dataBits) <= FreeCount(a.dataBits)
    && (r.Ok? ==> NumBlocks(end) <= MAX_BLOCKS && FreeCount(a.dataBits) - FreeCount(d.dataBits) == Lacking(a, ino, NumBlocks(end)))
    && (r.Err? ==> FreeCount(a.dataBits) - FreeCount(d.dataBits) == Min(FreeCount(a.dataBits), Lacking(a, ino, MAX_BLOCKS)))
  }

  lemma TookEverything(a: Image, d: Image, ino: nat, n: nat)
    requires Grew(a, d, ino) && TookWithin(a, d, ino, n) && Exhausted(d, ino)
    ensures FreeCount(a.dataBits) - FreeCount(d.dataBits) == Min(FreeCount(a.dataBits), Lacking(a, ino, MAX_BLOCKS))
  {
    hide Lacking, Val, TakeFirst, NthFree, FreeCount;
    LackingMore(a, ino, Min(n, MAX_BLOCKS), MAX_BLOCKS);
    FreeCountFull(d.dataBits);
    LackingNone(d, ino, MAX_BLOCKS);
    assert Lacking(d, ino, MAX_BLOCKS) == Less(Lacking(a, ino, MAX_BLOCKS), FreeCount(a.dataBits) - FreeCount(d.dataBits));
  }

  lemma FailedTook(a: Image, d: Image, ino: nat, end: nat, r: Result<nat>)
    requires Grew(a, d, ino) && r.Err?
    requires FreeCount(a.dataBits) - FreeCount(d.dataBits) == Min(FreeCount(a.dataBits), Lacking(a, ino, MAX_BLOCKS))
    ensures StoreTook(a, d, ino, end, r)
  {
    hide Lacking, FreeCount;
  }

  lemma StoreTookBoth(a: Image, b: Image, c: Image, live: set<nat>, ino: nat, at: nat, buf: seq<Byte>)
    requires Positioned(a, b, live, ino, at) && TookWithin(a, b, ino, NumBlocks(at))
    requires TookWithin(b, c, ino, NumBlocks(at + |buf|))
    ensures TookWithin(a, c, ino, NumBlocks(at + |buf|))
  {
    hide OthersSame, NoLeaks, Shows, Grew, PlacesKept, Trim, TookWithin;
    TookMore(a, b, ino, NumBlocks(at), NumBlocks(at + |buf|));
    TookTransitive(a, b, c, ino, NumBlocks(at + |buf|));
  }

  lemma StoredTook(a: Image, b: Image, c: Image, live: set<nat>, ino: nat, at: nat, buf: seq<Byte>)
    requires Positioned(a, b, live, ino, at) && Written(b, c, live, ino, at, buf) && buf != []
    requires TookWithin(a, c, ino, NumBlocks(at + |buf|))
    ensures forall d: Image :: d.dataBits == c.dataBits ==> StoreTook(a, d, ino, at + |buf|, Ok(|buf|))
  {
    hide OthersSame, NoLeaks, Shows, PlacesKept, Trim, TookWithin, Inherited, BytesKept, ByteAt, Val, Lacking, FreeCount;
    StoreGrew(a, b, c, live, ino, at, at + |buf|);
    MappedFewer(c, ino, NumBlocks(at + |buf|), NumBlocks(Max(b.inodes[ino].size, at + |buf|)));
    TookAll(a, c, ino, NumBlocks(at + |buf|));
  }

  /** The blocks a file has are within its limit. */
  lemma MappedLimit(a: Image, ino: nat, n: nat)
    requires ino < |a.inodes| && n <= MAX_BLOCKS && MappedTo(a, ino, n)
    ensures n <= BlockLimit(a, ino)
  {
    LackingNone(a, ino, n);
    LimitIs(a, ino, n);
  }

  lemma SizeInLimit(a: Image, live: set<nat>, ino: nat)
    requires Sound(a, live) && ino in live
    ensures ino < |a.inodes| && a.inodes[ino].size <= Limit(a, ino) && NumBlocks(a.inodes[ino].size) <= BlockLimit(a, ino)
    ensures BlockLimit(a, ino) <= MAX_BLOCKS
  {
    hide BlockLimit;
    MappedFile(a, live, ino);
    MappedLimit(a, ino, NumBlocks(a.inodes[ino].size));
    LimitIs(a, ino, 0);
  }

  lemma MappedFewer(a: Image, ino: nat, m: nat, n: nat)
    requires MappedTo(a, ino, n) && m <= n
    ensures MappedTo(a, ino, m)
  {
  }

  lemma WrittenLimit(a: Image, b: Image, live: set<nat>, ino: nat, start: nat, bytes: seq<Byte>)
    requires Written(a, b, live, ino, start, bytes)
    ensures ino < |a.inodes| == |b.inodes| && BlockLimit(b, ino) == BlockLimit(a, ino)
    ensures MappedTo(b, ino, (start + |bytes|) / BLKSZ)
  {
    hide Step, BlockLimit;
    WrittenStep(a, b, live, ino, start, bytes);
    StepLimit(a, b, live, ino, start, start + |bytes|);
  }

  lemma PositionedLimit(a: Image, b: Image, live: set<nat>, ino: nat, at: nat)
    requires Positioned(a, b, live, ino, at)
    ensures ino < |a.inodes| == |b.inodes| && Limit(b, ino) == Limit(a, ino)
  {
    hide Grew, OthersSame, NoLeaks, Shows, BlockLimit;
    GrewSizes(a, b, ino);
    GrewLimit(a, b, ino);
  }

  datatype Command = GetEnd | SetEnd(value: nat) | GetPos | SetPos(value: nat) | Other

  /** What FCNTL_SETEND did to the volume: it succeeds exactly within the limit, shows in the new bytes what the
      blocks held before, and then leaves the limit alone. A call that fails leaves the file alone, though blocks
      it had already taken may stay marked. */
  ghost predicate SetEndDone(a: Image, d: Image, live: set<nat>, ino: nat, n: nat, r: Result<nat>) {
    && ino < |a.inodes| == |d.inodes| && a.inodes[ino].size <= MAX_FILE_SIZE && d.inodes[ino].size <= MAX_FILE_SIZE
    && OthersSame(a, d, live, ino) && d.inodeBits == a.inodeBits
    && (r.Ok? <==> n <= Limit(a, ino))
    && (r.Ok? ==> r == Ok(0) && Kept(a, d, live, ino) && Resized(Contents(a, ino), n, Contents(d, ino))
                  && Shows(a, d, ino, a.inodes[ino].size, n) && Grew(a, d, ino) && n <= MAX_FILE_SIZE
                  && FreeCount(a.dataBits) - FreeCount(d.dataBits) == Lacking(a, ino, NumBlocks(n))
                  && (n <= a.inodes[ino].size ==> d == WithSize(a, ino, n))
                  && (Trim(a, ino) && n >= a.inodes[ino].size ==> Trim(d, ino)))
    && (r.Err? ==> r.code == ENOTSUP && (if n > MAX_FILE_SIZE then d == a else FreeCount(d.dataBits) == 0)
                   && Contents(d, ino) == Contents(a, ino)
                   && Limit(d, ino) <= Limit(a, ino) && FailureExact(a, d, live, ino))
  }

  lemma SetEndTooLong(a: Image, live: set<nat>, ino: nat, n: nat)
    requires Sound(a, live) && ino in live && n > MAX_FILE_SIZE
    ensures SetEndDone(a, a, live, ino, n, Err(ENOTSUP))
  {
    hide BlockLimit;
    LimitOfSize(a, ino, n);
    assert FailureExact(a, a, live, ino);
  }

  lemma SetEndFailed(a: Image, m: Image, live: set<nat>, ino: nat, n: nat)
    requires Sound(a, live) && Sound(m, live) && ino in live && Step(a, m, live, ino, 0, 0) && Full(m)
    requires ino < |a.inodes| && n > Limit(a, ino) && n <= MAX_FILE_SIZE
    ensures ino < |a.inodes| == |m.inodes|
    ensures Sound(m.(inodes := m.inodes[ino := a.inodes[ino]]), live)
    ensures SetEndDone(a, m.(inodes := m.inodes[ino := a.inodes[ino]]), live, ino, n, Err(ENOTSUP))
  {
    hide BlockLimit, Step, Sound, OthersSame, ByteAt, FailureExact;
    MappedFile(a, live, ino);
    FreeCountFull(m.dataBits);
    DiscardInode(a, m, live, ino, 0);
    DiscardIsExact(a, m, live, ino, 0);
  }

  lemma SetEndFinished(a: Image, m: Image, live: set<nat>, ino: nat, n: nat, b: nat)
    requires Sound(a, live) && Sound(m, live) && ino in live && Step(a, m, live, ino, 0, 0)
    requires n <= MAX_FILE_SIZE && NumBlocks(n) <= b && MappedTo(m, ino, b)
    requires n > a.inodes[ino].size ==> b == NumBlocks(n)
    requires n <= a.inodes[ino].size ==> m == a
    requires TookWithin(a, m, ino, NumBlocks(n))
    requires TrimTo(a, ino, NumBlocks(a.inodes[ino].size)) ==> TrimTo(m, ino, b)
    ensures ino < |m.inodes| && Sound(WithSize(m, ino, n), live)
    ensures SetEndDone(a, WithSize(m, ino, n), live, ino, n, Ok(0))
  {
    hide BlockLimit, Grew, Inherited, BytesKept, Shows, ByteAt, OthersSame, NoLeaks, Val;
    MappedFewer(m, ino, NumBlocks(n), b);
    SetEndResult(a, m, live, ino, n, 0);
    MappedFile(a, live, ino);
    StepLimit(a, m, live, ino, 0, 0);
    MappedLimit(m, ino, NumBlocks(n));
    LimitOfSize(a, ino, n);
    StepGrew(a, m, live, ino, 0, 0);
    TookAll(a, m, ino, NumBlocks(n));
  }

  /** `out` holds the bytes from `at` on; unless all of them are there, the walk stands at the block of
      the next one, or, before the first copy, at or below it. */
  ghost predicate Walking(img: Image, ino: nat, at: nat, toRead: nat, walked: nat, out: seq<Byte>) {
    && ino < |img.inodes| && at + |out| <= MAX_FILE_SIZE && |out| <= toRead
    && (|out| == toRead || (|out| == 0 && walked <= at / BLKSZ * BLKSZ) || (|out| > 0 && at + |out| == walked))
    && (forall k :: 0 <= k < |out| ==> out[k] == ByteAt(img, ino, at + k))
  }

  lemma WalkStart(img: Image, live: set<nat>, ino: nat, at: nat, toRead: nat)
    requires Sound(img, live) && ino in live && at <= MAX_FILE_SIZE
    ensures Walking(img, ino, at, toRead, 0, [])
  {
  }

  /** A block below the position is passed without copying. */
  lemma WalkSkip(img: Image, ino: nat, at: nat, toRead: nat, walked: nat, out: seq<Byte>)
    requires Walking(img, ino, at, toRead, walked, out) && walked % BLKSZ == 0
    ensures walked < at / BLKSZ * BLKSZ ==> Walking(img, ino, at, toRead, walked + BLKSZ, out)
  {
  }

  lemma WalkDone(img: Image, ino: nat, at: nat, toRead: nat, walked: nat, out: seq<Byte>)
    requires Walking(img, ino, at, toRead, walked, out)
    requires |out| < toRead ==> walked == MAX_FILE_SIZE
    requires ino < |img.inodes| && at + toRead <= img.inodes[ino].size <= MAX_FILE_SIZE && at < img.inodes[ino].size
    ensures out == Contents(img, ino)[at..at + toRead]
  {
  }

  /** While bytes are missing, the slots the walk passes are present. */
  lemma Mapped0(img: Image, live: set<nat>, ino: nat, at: nat, toRead: nat, walked: nat, out: seq<Byte>, s: Slot)
    requires Sound(img, live) && ino in live && at + toRead <= img.inodes[ino].size
    requires Walking(img, ino, at, toRead, walked, out) && |out| < toRead
    requires s.ino == ino && s.InRange() && walked == FirstBlock(s) * BLKSZ
    ensures 0 < Val(img, s) < |img.data|
  {
    assert Live(img, live, s);
  }
}
