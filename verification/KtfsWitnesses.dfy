/** Small images on which the file system falls short of what it says, each one that a mounted volume can be in. */
module KtfsWitnesses {
  import opened Machine
  import opened Results
  import opened KtfsImage
  import opened KtfsTree
  import opened KtfsGrowth
  import opened KtfsLimits
  import opened KtfsSteps
  import opened KtfsFile
  import opened KtfsEntries
  import opened KtfsFiles
  import opened KtfsDirectory
  import opened KtfsSystem

  // ---------------------------------------------------------------- a create without room

  /** An empty directory and one free inode, and no free block. */
  function FullImage(): Image {
    Image(seq(4096, i => i != 1), seq(4096, _ => true), [EMPTY_INODE, EMPTY_INODE], [ZeroBlock()])
  }

  lemma FullSlots()
    ensures forall t: Slot :: Live(FullImage(), {0}, t) ==> Val(FullImage(), t) == 0
    ensures Sound(FullImage(), {0})
  {
    hide ZeroBlock;
    assert forall t: Slot :: Live(FullImage(), {0}, t) ==> Val(FullImage(), t) == 0;
    assert Shape(FullImage());
  }

  lemma FullDirOk()
    ensures DirOk(FullImage(), {0}, 0) && Entries(FullImage(), 0) == []
    ensures IndexReady(FullImage(), 0) && !HasRoom(FullImage(), 0) && HasFreeInode(FullImage())
  {
    hide ZeroBlock, Sound, Val, EntryAt;
    var a := FullImage();
    FullSlots();
    assert !a.inodeBits[1];
    FreeCountFull(a.dataBits);
    assert Leaf(0, 0) == Direct(0, 0) && Live(a, {0}, Direct(0, 0));
  }

  /** The create is accepted and reports success; there is no such file afterwards, and the inode is taken. */
  lemma CreatedNowhere(name: seq<Byte>, reply: OpReply, s': Snapshot)
    requires |name| < NAME_LEN
    ensures DirOk(FullImage(), {0}, 0) && IndexReady(FullImage(), 0)
    ensures OpBehaves(Snap(FullImage(), {0}, 0), Op.Create(name), reply, s') ==>
              reply == Status(true) && name !in s'.files && s'.freeInodes == Snap(FullImage(), {0}, 0).freeInodes - 1
  {
    hide DirOk, IndexReady, HasRoom, FreeCount, Entries, Snap;
    FullDirOk();
    FreeInodes(FullImage());
    SnapParts(FullImage(), {0}, 0);
    EntryCostIs(FullImage(), {0}, 0);
    FilesKeys(FullImage(), {0}, 0);
    assert name !in Names(Entries(FullImage(), 0));
  }

  // ---------------------------------------------------------------- bytes that growth exposes

  /** A directory with one file, named "A", inode 1, that is empty; block 2 is free and holds sevens. */
  function UsedImage(size: nat, block: Uint32): Image
    requires block <= 2
  {
    Image(seq(4096, i => i != 2), seq(4096, v => v != 2 || block == 2),
          [Inode(16, [1, 0, 0, 0], 0, [0, 0]), Inode(size, [block, 0, 0, 0], 0, [0, 0]), EMPTY_INODE],
          [ZeroBlock(), OneEntry(), Sevens()])
  }

  function OneEntry(): Block {
    seq(512, k => if k == 0 then 1 else if k == 2 then 65 else 0)
  }

  function Sevens(): Block {
    seq(512, _ => 7)
  }

  predicate UsedAs(size: nat, block: Uint32) {
    (size == 0 && (block == 0 || block == 2)) || (size == 512 && block == 2)
  }

  lemma UsedSlots(size: nat, block: Uint32)
    requires UsedAs(size, block)
    ensures var a := UsedImage(size, block);
      && (forall t: Slot :: Live(a, {0, 1}, t) && Val(a, t) != 0 ==>
            (t == Direct(0, 0) && Val(a, t) == 1) || (t == Direct(1, 0) && Val(a, t) == block))
      && Live(a, {0, 1}, Direct(0, 0)) && Val(a, Direct(0, 0)) == 1 && Live(a, {0, 1}, Direct(1, 0)) && Val(a, Direct(1, 0)) == block
  {
    hide OneEntry, Sevens, ZeroBlock;
  }

  lemma UsedSound(size: nat, block: Uint32)
    requires UsedAs(size, block)
    ensures Sound(UsedImage(size, block), {0, 1}) && NoLeaks(UsedImage(size, block), {0, 1})
  {
    hide OneEntry, Sevens, ZeroBlock, Val;
    var a := UsedImage(size, block);
    UsedSlots(size, block);
    assert Shape(a);
    assert Refers(a, {0, 1}, Direct(0, 0), 1) && (block == 2 ==> Refers(a, {0, 1}, Direct(1, 0), 2));
    forall s: Slot | Live(a, {0, 1}, s) && FirstBlock(s) < NumBlocks(a.inodes[s.ino].size)
      ensures Val(a, s) != 0
    {
      assert s == Direct(s.ino, 0);
    }
  }

  lemma UsedEntry(size: nat, block: Uint32)
    requires UsedAs(size, block)
    ensures EntryAt(UsedImage(size, block), 0, 0).inode == 1 && |EntryAt(UsedImage(size, block), 0, 0).name| == NAME_LEN
    ensures 0 in EntryAt(UsedImage(size, block), 0, 0).name && NameOf(EntryAt(UsedImage(size, block), 0, 0)) == [65]
  {
    var d := DentryAt(OneEntry(), 0);
    assert EntryAt(UsedImage(size, block), 0, 0) == d;
    assert d.name[0] == 65 && d.name[1] == 0 && CString(d.name[1..]) == [];
  }

  lemma UsedDirOk(size: nat, block: Uint32)
    requires UsedAs(size, block)
    ensures var a := UsedImage(size, block);
      DirOk(a, {0, 1}, 0) && NoLeaks(a, {0, 1}) && Count(a, 0) == 1 && Entries(a, 0)[0].inode == 1
  {
    hide OneEntry, Sevens, ZeroBlock, Val, EntryAt, CString;
    UsedSound(size, block);
    UsedEntry(size, block);
    EntriesLength(UsedImage(size, block), 0);
  }

  /** The empty file lacks one block, and the lowest free one is block 2. */
  lemma UsedLacks()
    ensures Lacking(UsedImage(0, 0), 1, 1) == 1 && Val(UsedImage(0, 0), Leaf(1, 0)) == 0
  {
    hide OneEntry, Sevens, ZeroBlock, AbsentSlots;
    assert Leaf(1, 0) == Direct(1, 0);
    LackingNext(UsedImage(0, 0), 1, 0);
  }

  lemma UsedExposes()
    ensures Exposed(UsedImage(0, 0), 1, 0) == 7 && Limit(UsedImage(0, 0), 1) >= 512
  {
    hide OneEntry, ZeroBlock, FirstFree, FreeCount, Lacking, BlockLimit, Val;
    var a := UsedImage(0, 0);
    UsedLacks();
    FirstFreeFound(a.dataBits, 2);
    FreeCountTake(a.dataBits, 2);
    LimitIs(a, 1, 1);
    assert NthFree(a.dataBits, 0) == 2;
  }

  /** SETEND gives the empty file a byte, and the byte is a 7. */
  lemma GrownByteIsOld(d: Image, r: Result<nat>)
    requires SetEndDone(UsedImage(0, 0), d, {0, 1}, 1, 1, r)
    ensures DirOk(UsedImage(0, 0), {0, 1}, 0) && r.Ok? && Contents(d, 1) == [7]
  {
    hide Exposed, BlockLimit, DirOk, OthersSame, Kept, Grew;
    UsedDirOk(0, 0);
    UsedExposes();
    ByteOfContents(d, 1, 0);
  }

  lemma ByteOfContents(d: Image, ino: nat, k: nat)
    requires ino < |d.inodes| && k < d.inodes[ino].size <= MAX_FILE_SIZE
    ensures Contents(d, ino)[k] == ByteAt(d, ino, k)
  {
  }

  /** A gap past the last old block reads as zero exactly when the blocks it takes, the lowest free ones, held zeros
      there before. */
  lemma GapReadsZero(a: Image, d: Image, ino: nat, at: nat)
    requires ino < |a.inodes| && at <= MAX_FILE_SIZE && Shows(a, d, ino, NumBlocks(a.inodes[ino].size) * BLKSZ, at)
    ensures (forall k: nat :: NumBlocks(a.inodes[ino].size) * BLKSZ <= k < at ==> ByteAt(d, ino, k) == 0) <==>
            (forall k: nat :: NumBlocks(a.inodes[ino].size) * BLKSZ <= k < at ==> Exposed(a, ino, k) == 0)
  {
    hide Exposed, ByteAt;
  }

  /** A store at position 1 of the empty file, by a handle from before another one cut the file, leaves a gap of one
      byte, and the byte is a 7. */
  lemma GapByteIsOld(d: Image, buf: seq<Byte>)
    requires 1 < |d.inodes| && d.inodes[1].size <= MAX_FILE_SIZE && buf != []
    requires Stored(Contents(UsedImage(0, 0), 1), 1, buf, Contents(d, 1)) && Shows(UsedImage(0, 0), d, 1, 0, 1)
    ensures Sound(UsedImage(0, 0), {0, 1}) && Contents(d, 1)[0] == 7
  {
    hide Exposed, ByteAt, BlockLimit;
    UsedSound(0, 0);
    UsedExposes();
    ByteOfContents(d, 1, 0);
  }

  // ---------------------------------------------------------------- a delete that leaks

  /** A file of one block, cut to nothing by SETEND and then deleted, leaves its block marked for good. */
  lemma CutFileLeaks(c: Image, d: Image, r: Result<nat>)
    requires SetEndDone(UsedImage(512, 2), c, {0, 1}, 1, 0, r) && r.Ok?
    requires Deleted(c, d, {0, 1}, 0, 0)
    ensures DirOk(UsedImage(512, 2), {0, 1}, 0) && Tidy(UsedImage(512, 2), {0, 1}, 1)
    ensures c == UsedImage(0, 2) && DirOk(c, {0, 1}, 0) && !NoneBeyond(c, 1)
    ensures !NoLeaks(d, {0}) && 2 < |d.dataBits| && d.dataBits[2]
  {
    hide OneEntry, Sevens, ZeroBlock, Shows, Grew, OthersSame, BlockLimit, Entries, DirOk, Resized;
    UsedDirOk(512, 2);
    UsedDirOk(0, 2);
    UsedTrim();
    assert c == WithSize(UsedImage(512, 2), 1, 0) == UsedImage(0, 2);
    assert {0, 1} - {1} == {0};
    assert Val(c, Direct(1, 0)) == 2;
    SameSizes(c, d, {0, 1} - {1}, 0);
  }

  lemma SameSizes(a: Image, d: Image, live: set<nat>, ino: nat)
    requires OthersSame(a, d, live, ino)
    ensures |d.dataBits| == |a.dataBits|
  {
  }

  lemma UsedTrim()
    ensures Tidy(UsedImage(512, 2), {0, 1}, 1)
  {
    hide OneEntry, Sevens, ZeroBlock, Val;
    UsedSlots(512, 2);
    UsedSound(512, 2);
    var a := UsedImage(512, 2);
    assert forall s: Slot :: s.ino == 1 && s.InRange() ==> Live(a, {0, 1}, s);
  }
}
