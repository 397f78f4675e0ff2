/** The contents of a mounted KTFS image: bitmaps, inode table and data region, and the block trees
    that hang from the inodes. Everything here is a pure description; `KtfsVolume` updates it. */
module KtfsImage {
  import opened Machine

  const BLKSZ := 512
  const NUM_DIRECT := 4
  const NUM_DINDIRECT := 2
  const PTRS_PER_BLOCK := 128
  const BITS_PER_BLOCK := 4096
  // Number of blocks whose position is below 2^32
  const ADDRESSABLE := 0x80_0000

  /** Number of file blocks an inode can address. */
  const MAX_BLOCKS := NUM_DIRECT + PTRS_PER_BLOCK + NUM_DINDIRECT * PTRS_PER_BLOCK * PTRS_PER_BLOCK
  const MAX_FILE_SIZE := MAX_BLOCKS * BLKSZ

  type Uint32 = x: int | 0 <= x < 0x1_0000_0000
  type Block = b: seq<Byte> | |b| == 512 witness seq(512, _ => 0)

  function Min(a: nat, b: nat): nat {
    if a < b then a else b
  }

  function Max(a: nat, b: nat): nat {
    if a < b then b else a
  }

  // ---------------------------------------------------------------- little-endian pointers

  /** The `i`-th little-endian 32-bit word of an index block. */
  function Ptr(b: Block, i: nat): Uint32
    requires i < PTRS_PER_BLOCK
  {
    b[4 * i] as int + 0x100 * (b[4 * i + 1] as int) + 0x1_0000 * (b[4 * i + 2] as int)
    + 0x100_0000 * (b[4 * i + 3] as int)
  }

  function SetPtr(b: Block, i: nat, v: Uint32): Block
    requires i < PTRS_PER_BLOCK
  {
    b[4 * i := v % 0x100][4 * i + 1 := v / 0x100 % 0x100]
     [4 * i + 2 := v / 0x1_0000 % 0x100][4 * i + 3 := v / 0x100_0000]
  }

  /** The word is the number that its four bytes encode. */
  lemma PtrIsNumber(b: Block, i: nat)
    requires i < PTRS_PER_BLOCK
    ensures Ptr(b, i) == LittleEndian(b[4 * i..4 * i + 4])
  {
    LittleEndian4(b[4 * i..4 * i + 4]);
  }

  function ZeroBlock(): Block {
    seq(512, _ => 0)
  }

  lemma PtrOfSetPtr(b: Block, i: nat, v: Uint32, j: nat)
    requires i < PTRS_PER_BLOCK && j < PTRS_PER_BLOCK
    ensures Ptr(SetPtr(b, i, v), j) == if i == j then v else Ptr(b, j)
  {
    WordBytes(v);
  }

  lemma WordBytes(v: Uint32)
    ensures v == v % 0x100 + 0x100 * (v / 0x100 % 0x100) + 0x1_0000 * (v / 0x1_0000 % 0x100)
                 + 0x100_0000 * (v / 0x100_0000)
  {
    var q1: int := v / 0x100;
    var q2 := q1 / 0x100;
    var q3 := q2 / 0x100;
    Divided(v, 0x1_0000, q2, 0x100 * (q1 % 0x100) + v % 0x100);
    Divided(v, 0x100_0000, q3, 0x1_0000 * (q2 % 0x100) + 0x100 * (q1 % 0x100) + v % 0x100);
  }

  lemma Divided(x: int, m: int, d: int, r: int)
    requires m == 0x1_0000 || m == 0x100_0000
    requires x == m * d + r && 0 <= r < m
    ensures x / m == d
  {
  }

  // ---------------------------------------------------------------- images and slots

  type DirectBlocks = s: seq<Uint32> | |s| == 4 witness [0, 0, 0, 0]
  type DindirectBlocks = s: seq<Uint32> | |s| == 2 witness [0, 0]

  datatype Inode = Inode(size: nat, block: DirectBlocks, indirect: Uint32, dindirect: DindirectBlocks)

  const EMPTY_INODE := Inode(0, [0, 0, 0, 0], 0, [0, 0])

  datatype Image = Image(inodeBits: seq<bool>, dataBits: seq<bool>, inodes: seq<Inode>, data: seq<Block>)

  /** How many blocks an image takes on the device: superblock, bitmaps, sixteen inodes a block, and data. */
  function TotalBlocks(inodeBits: nat, dataBits: nat, inodes: nat, data: nat): nat {
    1 + inodeBits / BITS_PER_BLOCK + dataBits / BITS_PER_BLOCK + (inodes + 15) / 16 + data
  }

  /** A mountable image. Data block 0 is never handed out, since index 0 means "no block", bits past the end of each
      region are set, since the two searches for a clear bit have no other bound, and the image is no longer than
      positions of 32 bits can address. */
  ghost predicate Shape(img: Image) {
    && TotalBlocks(|img.inodeBits|, |img.dataBits|, |img.inodes|, |img.data|) <= ADDRESSABLE
    && 0 < |img.data| <= |img.dataBits| <= 0x8000_0000
    && |img.inodes| <= |img.inodeBits| <= 0x1_0000
    && |img.dataBits| % BITS_PER_BLOCK == 0
    && |img.inodeBits| % BITS_PER_BLOCK == 0
    && img.dataBits[0]
    && (forall v :: |img.data| <= v < |img.dataBits| ==> img.dataBits[v])
    && (forall v :: |img.inodes| <= v < |img.inodeBits| ==> img.inodeBits[v])
  }

  /** Every place in the file system that can hold a data block index. */
  datatype Slot =
    | Direct(ino: nat, k: nat)
    | Ind(ino: nat)
    | IndLeaf(ino: nat, k: nat)
    | Dind(ino: nat, d: nat)
    | DindMid(ino: nat, d: nat, m: nat)
    | DindLeaf(ino: nat, d: nat, m: nat, k: nat)
  {
    predicate InRange() {
      match this
      case Direct(_, k) => k < NUM_DIRECT
      case Ind(_) => true
      case IndLeaf(_, k) => k < PTRS_PER_BLOCK
      case Dind(_, d) => d < NUM_DINDIRECT
      case DindMid(_, d, m) => d < NUM_DINDIRECT && m < PTRS_PER_BLOCK
      case DindLeaf(_, d, m, k) => d < NUM_DINDIRECT && m < PTRS_PER_BLOCK && k < PTRS_PER_BLOCK
    }

    predicate IsLeaf() {
      Direct? || IndLeaf? || DindLeaf?
    }
  }

  /** The slot of file block `b`: direct blocks first, then the indirect, then the doubly-indirect trees. */
  function Leaf(ino: nat, b: nat): (s: Slot)
    requires b < MAX_BLOCKS
    ensures s.IsLeaf() && s.InRange() && s.ino == ino && BlockNumber(s) == b
  {
    if b < NUM_DIRECT then Direct(ino, b)
    else if b < NUM_DIRECT + PTRS_PER_BLOCK then IndLeaf(ino, b - NUM_DIRECT)
    else
      var r := b - NUM_DIRECT - PTRS_PER_BLOCK;
      DindLeaf(ino, r / 16384, r % 16384 / 128, r % 128)
  }

  /** The file block number a leaf slot stands for. */
  function BlockNumber(s: Slot): nat
    requires s.IsLeaf()
  {
    match s
    case Direct(_, k) => k
    case IndLeaf(_, k) => NUM_DIRECT + k
    case DindLeaf(_, d, m, k) => NUM_DIRECT + PTRS_PER_BLOCK + d * 16384 + m * 128 + k
  }

  lemma LeafOfBlockNumber(s: Slot)
    requires s.IsLeaf() && s.InRange()
    ensures BlockNumber(s) < MAX_BLOCKS && Leaf(s.ino, BlockNumber(s)) == s
  {
  }

  /** The file block after one in a leaf slot is in the next entry, and after the last entry of a table in the first
      entry of the next table. */
  lemma LeafNext(ino: nat, b: nat)
    requires b + 1 < MAX_BLOCKS
    ensures Leaf(ino, 0) == Direct(ino, 0)
    ensures Leaf(ino, b + 1) == match Leaf(ino, b)
      case Direct(_, k) => if k + 1 < NUM_DIRECT then Direct(ino, k + 1) else IndLeaf(ino, 0)
      case IndLeaf(_, k) => if k + 1 < PTRS_PER_BLOCK then IndLeaf(ino, k + 1) else DindLeaf(ino, 0, 0, 0)
      case DindLeaf(_, d, m, k) =>
        if k + 1 < PTRS_PER_BLOCK then DindLeaf(ino, d, m, k + 1)
        else if m + 1 < PTRS_PER_BLOCK then DindLeaf(ino, d, m + 1, 0)
        else DindLeaf(ino, d + 1, 0, 0)
      case _ => Leaf(ino, b + 1)
  {
    if b >= NUM_DIRECT + PTRS_PER_BLOCK {
      var s := Leaf(ino, b);
      var next := if s.k + 1 < PTRS_PER_BLOCK then DindLeaf(ino, s.d, s.m, s.k + 1)
                  else if s.m + 1 < PTRS_PER_BLOCK then DindLeaf(ino, s.d, s.m + 1, 0)
                  else DindLeaf(ino, s.d + 1, 0, 0);
      assert BlockNumber(next) == b + 1 && next.InRange();
      LeafOfBlockNumber(next);
    }
  }

  function PtrAt(data: seq<Block>, b: Uint32, k: nat): Uint32
    requires k < PTRS_PER_BLOCK
  {
    if b == 0 || b >= |data| then 0 else Ptr(data[b], k)
  }

  /** What a slot holds; 0 when it, or an index block above it, is absent. */
  function Val(img: Image, s: Slot): Uint32
    requires s.InRange() && s.ino < |img.inodes|
  {
    var n := img.inodes[s.ino];
    match s
    case Direct(_, k) => n.block[k]
    case Ind(_) => n.indirect
    case IndLeaf(_, k) => PtrAt(img.data, n.indirect, k)
    case Dind(_, d) => n.dindirect[d]
    case DindMid(_, d, m) => PtrAt(img.data, n.dindirect[d], m)
    case DindLeaf(_, d, m, k) => PtrAt(img.data, PtrAt(img.data, n.dindirect[d], m), k)
  }

  // ---------------------------------------------------------------- ownership

  ghost predicate Live(img: Image, live: set<nat>, s: Slot) {
    s.ino in live && s.ino < |img.inodes| && s.InRange()
  }

  /** Slot `s` of a live inode refers to block `v`. */
  ghost predicate Refers(img: Image, live: set<nat>, s: Slot, v: nat) {
    Live(img, live, s) && Val(img, s) == v && v != 0
  }

  /** No two slots of live inodes refer to the same block, and every referenced block is marked in use. */
  ghost predicate Owned(img: Image, live: set<nat>) {
    && (forall i :: i in live ==> i < |img.inodes|)
    && (forall s: Slot :: Live(img, live, s) && Val(img, s) != 0 ==>
          Val(img, s) < |img.data| && Val(img, s) < |img.dataBits| && img.dataBits[Val(img, s)])
    && (forall s: Slot, t: Slot :: Live(img, live, s) && Live(img, live, t) ==>
          Val(img, s) == Val(img, t) != 0 ==> s == t)
  }

  // ---------------------------------------------------------------- files

  /** Number of blocks a file of `size` bytes occupies, not counting index blocks. */
  function NumBlocks(size: nat): nat {
    (size + BLKSZ - 1) / BLKSZ
  }

  /** The first file block that hangs below slot `s`. */
  function FirstBlock(s: Slot): nat {
    match s
    case Direct(_, k) => k
    case Ind(_) => NUM_DIRECT
    case IndLeaf(_, k) => NUM_DIRECT + k
    case Dind(_, d) => NUM_DIRECT + PTRS_PER_BLOCK + d * 16384
    case DindMid(_, d, m) => NUM_DIRECT + PTRS_PER_BLOCK + d * 16384 + m * 128
    case DindLeaf(_, d, m, k) => NUM_DIRECT + PTRS_PER_BLOCK + d * 16384 + m * 128 + k
  }

  /** Slot `s` serves one of the first `n` blocks of file `ino`. */
  predicate Serves(s: Slot, ino: nat, n: nat) {
    s.ino == ino && s.InRange() && FirstBlock(s) < n
  }

  /** Every block of every live file is present, and no file is longer than an inode can address. */
  ghost predicate Mapped(img: Image, live: set<nat>) {
    && (forall i :: i in live ==> i < |img.inodes| && img.inodes[i].size <= MAX_FILE_SIZE)
    && (forall s: Slot :: Live(img, live, s) && FirstBlock(s) < NumBlocks(img.inodes[s.ino].size) ==> Val(img, s) != 0)
  }

  /** Exactly the referenced blocks are marked: nothing has leaked. */
  ghost predicate NoLeaks(img: Image, live: set<nat>) {
    forall v :: 0 < v < |img.data| && v < |img.dataBits| ==> (img.dataBits[v] <==> Used(img, live, v))
  }

  ghost predicate Used(img: Image, live: set<nat>, v: nat) {
    exists s: Slot :: Refers(img, live, s, v)
  }

  /** File `ino` has the blocks its size calls for and no others. */
  ghost predicate Trim(img: Image, ino: nat) {
    && ino < |img.inodes|
    && (forall s: Slot :: s.ino == ino && s.InRange() ==>
          (Val(img, s) != 0 <==> FirstBlock(s) < NumBlocks(img.inodes[ino].size)))
  }

  /** Byte `k` of the tree of inode `ino`. */
  function ByteAt(img: Image, ino: nat, k: nat): Byte
    requires ino < |img.inodes| && k < MAX_FILE_SIZE
  {
    var b := Val(img, Leaf(ino, k / BLKSZ));
    if b < |img.data| then img.data[b][k % BLKSZ] else 0
  }

  /** The file as a byte sequence. */
  function Contents(img: Image, ino: nat): seq<Byte>
    requires ino < |img.inodes| && img.inodes[ino].size <= MAX_FILE_SIZE
  {
    seq(img.inodes[ino].size, k requires 0 <= k < img.inodes[ino].size => ByteAt(img, ino, k))
  }
}
