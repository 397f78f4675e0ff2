/** Where the regions of an image lie on the device, at the positions handed to cache_get_block, and how the disk that
    the cache shows its clients holds them. */
module KtfsLayout {
  import opened Machine
  import opened Results
  import opened KtfsImage
  import opened KtfsBitmaps
  import opened CacheSpec
  import opened CacheRuns

  const INODES_PER_BLOCK := 16

  /** `k` inode bitmap blocks, `b` data bitmap blocks and `n` inode blocks follow the superblock. */
  datatype Superblock = Superblock(k: nat, b: nat, n: nat)

  datatype Item = Super | InodeBit(i: nat) | DataBit(v: nat) | InodeOf(i: nat) | Data(v: nat)

  /** Items of an image with `d` data blocks. */
  predicate Fits(sb: Superblock, d: nat, it: Item) {
    match it
    case Super => true
    case InodeBit(i) => i < sb.k * BITS_PER_BLOCK
    case DataBit(v) => v < sb.b * BITS_PER_BLOCK
    case InodeOf(i) => i < sb.n * INODES_PER_BLOCK
    case Data(v) => v < d
  }

  /** A product computed in 32 bits. */
  function Wrapped(x: nat): nat {
    x % 0x1_0000_0000
  }

  /** The position that cache_get_block is asked for. Only the block of an inode is added in 64 bits. */
  function Position(sb: Superblock, it: Item): nat {
    match it
    case Super => 0
    case InodeBit(i) => Wrapped((1 + i / BITS_PER_BLOCK) * BLKSZ)
    case DataBit(v) => Wrapped((1 + v / BITS_PER_BLOCK + sb.k) * BLKSZ)
    case InodeOf(i) => Wrapped((1 + sb.k + sb.b) * BLKSZ) + i / INODES_PER_BLOCK * BLKSZ
    case Data(v) => Wrapped((1 + sb.k + sb.b + sb.n + v) * BLKSZ)
  }

  /** The position that free_data_blocks asks for to read an index block: computed in 64 bits. */
  function WidePosition(sb: Superblock, v: nat): nat {
    (1 + sb.k + sb.b + sb.n + v) * BLKSZ
  }

  /** The place of an item within its 512-byte block, in bits for the bitmaps and in records otherwise. */
  function Within(it: Item): nat {
    match it
    case Super => 0
    case InodeBit(i) => i % BITS_PER_BLOCK
    case DataBit(v) => v % BITS_PER_BLOCK
    case InodeOf(i) => i % INODES_PER_BLOCK
    case Data(_) => 0
  }

  /** The image ends where positions of 32 bits end, or before. */
  predicate Addressable(sb: Superblock, d: nat) {
    1 + sb.k + sb.b + sb.n + d <= ADDRESSABLE
  }

  ghost predicate SamePlace(sb: Superblock, x: Item, y: Item) {
    Position(sb, x) == Position(sb, y) && Within(x) == Within(y)
  }

  /** Distinct items of an addressable image never share a place, so bitmaps, inodes and data blocks can be kept apart. */
  lemma RegionsAreDisjoint(sb: Superblock, d: nat, x: Item, y: Item)
    requires Addressable(sb, d) && Fits(sb, d, x) && Fits(sb, d, y) && SamePlace(sb, x, y)
    ensures x == y
    ensures Position(sb, x) % BLKSZ == 0
  {
    hide Position, Fits, Within, BlockOf;
    PlaceOf(sb, d, x);
    PlaceOf(sb, d, y);
    SameBlock(sb, d, x, y);
  }

  lemma SameBlock(sb: Superblock, d: nat, x: Item, y: Item)
    requires Fits(sb, d, x) && Fits(sb, d, y) && BlockOf(sb, x) == BlockOf(sb, y) && Within(x) == Within(y)
    ensures x == y
  {
    BlockIndex(sb, d, x);
    BlockIndex(sb, d, y);
  }

  /** An image beyond that has a data block that lies on the superblock, a bitmap block or an inode block. */
  lemma Collision(sb: Superblock, d: nat) returns (v: nat, it: Item)
    requires d > 0 && !Addressable(sb, d)
    ensures Fits(sb, d, Data(v)) && Fits(sb, d, it) && !it.Data? && SamePlace(sb, Data(v), it)
  {
    var start := 1 + sb.k + sb.b + sb.n;
    if start <= ADDRESSABLE {
      v, it := ADDRESSABLE - start, Super;
      assert (start + v) * BLKSZ == 0x1_0000_0000;
    } else {
      var w := start % ADDRESSABLE;
      v, it := 0, FirstOf(sb, w);
      BlocksWrap(start);
      FirstPlace(sb, w);
    }
  }

  lemma BlocksWrap(b: nat)
    ensures Wrapped(b * BLKSZ) == b % ADDRESSABLE * BLKSZ
  {
  }

  /** The first item of block `w`, which lies before the data region. */
  function FirstOf(sb: Superblock, w: nat): Item {
    if w == 0 then Super
    else if w < 1 + sb.k then InodeBit((w - 1) * BITS_PER_BLOCK)
    else if w < 1 + sb.k + sb.b then DataBit((w - 1 - sb.k) * BITS_PER_BLOCK)
    else InodeOf((w - 1 - sb.k - sb.b) * INODES_PER_BLOCK)
  }

  lemma FirstPlace(sb: Superblock, w: nat)
    requires w < 1 + sb.k + sb.b + sb.n && w < ADDRESSABLE
    ensures Position(sb, FirstOf(sb, w)) == w * BLKSZ && Within(FirstOf(sb, w)) == 0 && !FirstOf(sb, w).Data?
    ensures forall d :: Fits(sb, d, FirstOf(sb, w))
  {
  }

  /** No two items share a place exactly when the image is addressable. */
  lemma DisjointExactly(sb: Superblock, d: nat)
    requires d > 0
    ensures (forall x, y :: Fits(sb, d, x) && Fits(sb, d, y) && SamePlace(sb, x, y) ==> x == y) <==> Addressable(sb, d)
  {
    if Addressable(sb, d) {
      forall x, y | Fits(sb, d, x) && Fits(sb, d, y) && SamePlace(sb, x, y)
        ensures x == y
      {
        RegionsAreDisjoint(sb, d, x, y);
      }
    } else {
      var v, it := Collision(sb, d);
    }
  }

  /** In an image of 4 GiB and a block, the last data block lies on the superblock, except for the reads of
      free_data_blocks. */
  lemma LastBlockOnSuper()
    ensures var sb, d := Superblock(1, 2048, 1), 0x7F_F7FE;
      && 1 + sb.k + sb.b + sb.n + d == ADDRESSABLE + 1 && d <= sb.b * BITS_PER_BLOCK
      && Fits(sb, d, Data(d - 1)) && SamePlace(sb, Data(d - 1), Super) && WidePosition(sb, d - 1) == 0x1_0000_0000
  {
  }

  function Region(it: Item): nat {
    match it
    case Super => 0
    case InodeBit(_) => 1
    case DataBit(_) => 2
    case InodeOf(_) => 3
    case Data(_) => 4
  }

  /** First block of a region. */
  function Start(sb: Superblock, region: nat): nat {
    if region == 0 then 0
    else if region == 1 then 1
    else if region == 2 then 1 + sb.k
    else if region == 3 then 1 + sb.k + sb.b
    else 1 + sb.k + sb.b + sb.n
  }

  /** The block of an item, counted from the superblock. */
  function BlockOf(sb: Superblock, it: Item): nat {
    match it
    case Super => 0
    case InodeBit(i) => 1 + i / BITS_PER_BLOCK
    case DataBit(v) => 1 + sb.k + v / BITS_PER_BLOCK
    case InodeOf(i) => 1 + sb.k + sb.b + i / INODES_PER_BLOCK
    case Data(v) => 1 + sb.k + sb.b + sb.n + v
  }

  lemma BlockIndex(sb: Superblock, d: nat, it: Item)
    requires Fits(sb, d, it)
    ensures Start(sb, Region(it)) <= BlockOf(sb, it) && (Region(it) < 4 ==> BlockOf(sb, it) < Start(sb, Region(it) + 1))
    ensures it.InodeBit? ==> it.i == (BlockOf(sb, it) - 1) * BITS_PER_BLOCK + Within(it)
    ensures it.DataBit? ==> it.v == (BlockOf(sb, it) - 1 - sb.k) * BITS_PER_BLOCK + Within(it)
    ensures it.InodeOf? ==> it.i == (BlockOf(sb, it) - 1 - sb.k - sb.b) * INODES_PER_BLOCK + Within(it)
  {
  }

  lemma WithinImage(sb: Superblock, d: nat, it: Item)
    requires Fits(sb, d, it)
    ensures BlockOf(sb, it) < 1 + sb.k + sb.b + sb.n + d
  {
  }

  lemma PlaceOf(sb: Superblock, d: nat, it: Item)
    requires Addressable(sb, d) && Fits(sb, d, it)
    ensures BlockOf(sb, it) < ADDRESSABLE && Position(sb, it) == BLKSZ * BlockOf(sb, it)
  {
    WithinImage(sb, d, it);
    BlocksWrap(BlockOf(sb, it));
    BlocksWrap(1 + sb.k + sb.b);
  }

  // ---------------------------------------------------------------- what the disk holds

  /** The fields of a volume. */
  datatype Parts = Parts(inodeBitmap: seq<BitmapBlock>, dataBitmap: seq<BitmapBlock>, inodes: seq<Inode>, data: seq<Block>)

  /** A bitmap block as bytes. */
  function Plain(b: BitmapBlock): Block {
    seq(512, i requires 0 <= i < 512 => b[i] as int)
  }

  /** The inode with index `s` in a block: eight little-endian words, the size first. */
  function InodeAt(b: Block, s: nat): Inode
    requires s < INODES_PER_BLOCK
  {
    Inode(Ptr(b, 8 * s), [Ptr(b, 8 * s + 1), Ptr(b, 8 * s + 2), Ptr(b, 8 * s + 3), Ptr(b, 8 * s + 4)], Ptr(b, 8 * s + 5),
          [Ptr(b, 8 * s + 6), Ptr(b, 8 * s + 7)])
  }

  /** The fields of an inode are the numbers that its bytes encode: size, four direct blocks, the indirect one and two
      doubly-indirect ones, four bytes each. */
  lemma InodeIsNumbers(b: Block, s: nat)
    requires s < INODES_PER_BLOCK
    ensures var (n, at) := (InodeAt(b, s), 32 * s);
      && n.size == LittleEndian(b[at..at + 4]) && n.indirect == LittleEndian(b[at + 20..at + 24])
      && (forall j :: 0 <= j < 4 ==> n.block[j] == LittleEndian(b[at + 4 + 4 * j..at + 8 + 4 * j]))
      && (forall j :: 0 <= j < 2 ==> n.dindirect[j] == LittleEndian(b[at + 24 + 4 * j..at + 28 + 4 * j]))
  {
    hide Ptr;
    WordIs(b, s, 0);
    WordIs(b, s, 1);
    WordIs(b, s, 2);
    WordIs(b, s, 3);
    WordIs(b, s, 4);
    WordIs(b, s, 5);
    WordIs(b, s, 6);
    WordIs(b, s, 7);
  }

  lemma WordIs(b: Block, s: nat, j: nat)
    requires s < INODES_PER_BLOCK && j < 8
    ensures Ptr(b, 8 * s + j) == LittleEndian(b[32 * s + 4 * j..32 * s + 4 * j + 4])
  {
    PtrIsNumber(b, 8 * s + j);
  }

  function WithInode(b: Block, s: nat, n: Inode): Block
    requires s < INODES_PER_BLOCK && n.size < 0x1_0000_0000
  {
    var c := SetPtr(SetPtr(SetPtr(SetPtr(b, 8 * s, n.size), 8 * s + 1, n.block[0]), 8 * s + 2, n.block[1]), 8 * s + 3, n.block[2]);
    SetPtr(SetPtr(SetPtr(SetPtr(c, 8 * s + 4, n.block[3]), 8 * s + 5, n.indirect), 8 * s + 6, n.dindirect[0]), 8 * s + 7, n.dindirect[1])
  }

  /** The words of the block after one inode was written. */
  function WordOf(n: Inode, k: nat): Uint32
    requires k < 8 && n.size < 0x1_0000_0000
  {
    if k == 0 then n.size else if k < 5 then n.block[k - 1] else if k == 5 then n.indirect else n.dindirect[k - 6]
  }

  lemma WordsOfInode(b: Block, s: nat, n: Inode, j: nat)
    requires s < INODES_PER_BLOCK && n.size < 0x1_0000_0000 && j < PTRS_PER_BLOCK
    ensures Ptr(WithInode(b, s, n), j) == if 8 * s <= j < 8 * s + 8 then WordOf(n, j - 8 * s) else Ptr(b, j)
  {
    hide Ptr, SetPtr;
    var b1 := SetPtr(b, 8 * s, n.size);
    var b2 := SetPtr(b1, 8 * s + 1, n.block[0]);
    var b3 := SetPtr(b2, 8 * s + 2, n.block[1]);
    var b4 := SetPtr(b3, 8 * s + 3, n.block[2]);
    var b5 := SetPtr(b4, 8 * s + 4, n.block[3]);
    var b6 := SetPtr(b5, 8 * s + 5, n.indirect);
    var b7 := SetPtr(b6, 8 * s + 6, n.dindirect[0]);
    PtrOfSetPtr(b, 8 * s, n.size, j);
    PtrOfSetPtr(b1, 8 * s + 1, n.block[0], j);
    PtrOfSetPtr(b2, 8 * s + 2, n.block[1], j);
    PtrOfSetPtr(b3, 8 * s + 3, n.block[2], j);
    PtrOfSetPtr(b4, 8 * s + 4, n.block[3], j);
    PtrOfSetPtr(b5, 8 * s + 5, n.indirect, j);
    PtrOfSetPtr(b6, 8 * s + 6, n.dindirect[0], j);
    PtrOfSetPtr(b7, 8 * s + 7, n.dindirect[1], j);
  }

  /** An inode written into its block is read back, and the other fifteen stay. */
  lemma InodeRoundTrip(b: Block, s: nat, n: Inode, s': nat)
    requires s < INODES_PER_BLOCK && s' < INODES_PER_BLOCK && n.size < 0x1_0000_0000
    ensures InodeAt(WithInode(b, s, n), s') == if s' == s then n else InodeAt(b, s')
  {
    hide Ptr, WithInode;
    var c, w := WithInode(b, s, n), 8 * s';
    forall j: nat | w <= j < w + 8
      ensures Ptr(c, j) == if s' == s then WordOf(n, j - w) else Ptr(b, j)
    {
      WordsOfInode(b, s, n, j);
    }
    if s' == s {
      assert n.block == [WordOf(n, 1), WordOf(n, 2), WordOf(n, 3), WordOf(n, 4)];
      assert n.dindirect == [WordOf(n, 6), WordOf(n, 7)];
    }
  }

  predicate IsBlock(d: Data) {
    |d| == 512 && forall i :: 0 <= i < 512 ==> 0 <= d[i] < 256
  }

  /** The disk holds the volume, each part in its region. */
  ghost predicate Holds(sb: Superblock, disk: seq<Data>, p: Parts) {
    && |p.inodeBitmap| == sb.k && |p.dataBitmap| == sb.b && |p.inodes| == INODES_PER_BLOCK * sb.n
    && |disk| == 1 + sb.k + sb.b + sb.n + |p.data| <= ADDRESSABLE
    && (forall i :: 0 <= i < |disk| ==> IsBlock(disk[i]))
    && (forall i :: 0 <= i < sb.k ==> disk[1 + i] == Plain(p.inodeBitmap[i]))
    && (forall i :: 0 <= i < sb.b ==> disk[1 + sb.k + i] == Plain(p.dataBitmap[i]))
    && (forall i :: 0 <= i < |p.inodes| ==> InodeAt(disk[1 + sb.k + sb.b + i / INODES_PER_BLOCK], i % INODES_PER_BLOCK) == p.inodes[i])
    && (forall v :: 0 <= v < |p.data| ==> disk[1 + sb.k + sb.b + sb.n + v] == p.data[v])
  }

  /** The volume, as an image, takes the whole disk. */
  lemma HeldImage(sb: Superblock, disk: seq<Data>, p: Parts)
    requires Holds(sb, disk, p)
    ensures TotalBlocks(|Bits(p.inodeBitmap)|, |Bits(p.dataBitmap)|, |p.inodes|, |p.data|) == |disk| <= ADDRESSABLE
    ensures Addressable(sb, |p.data|)
  {
    hide Plain, InodeAt;
  }

  /** The stores that the file system makes through the buffers it holds. */
  datatype Update =
    | PutInodeBit(i: nat, status: bool)
    | PutDataBit(v: nat, status: bool)
    | PutInode(i: nat, inode: Inode)
    | PutData(v: nat, block: Block)

  predicate Possible(sb: Superblock, p: Parts, u: Update) {
    match u
    case PutInodeBit(i, _) => i < |p.inodeBitmap| * BITS_PER_BLOCK
    case PutDataBit(v, _) => v < |p.dataBitmap| * BITS_PER_BLOCK
    case PutInode(i, n) => i < |p.inodes| && n.size < 0x1_0000_0000
    case PutData(v, _) => v < |p.data|
  }

  /** What a store means for the volume. */
  function Applied(sb: Superblock, p: Parts, u: Update): Parts
    requires Possible(sb, p, u)
  {
    match u
    case PutInodeBit(i, status) => p.(inodeBitmap := WithStatus(p.inodeBitmap, i, status))
    case PutDataBit(v, status) => p.(dataBitmap := WithStatus(p.dataBitmap, v, status))
    case PutInode(i, n) => p.(inodes := p.inodes[i := n])
    case PutData(v, block) => p.(data := p.data[v := block])
  }

  function Target(u: Update): Item {
    match u
    case PutInodeBit(i, _) => InodeBit(i)
    case PutDataBit(v, _) => DataBit(v)
    case PutInode(i, _) => InodeOf(i)
    case PutData(v, _) => Item.Data(v)
  }

  /** What it makes of the block it goes to. */
  function Rewritten(sb: Superblock, p: Parts, u: Update, was: Block): Block
    requires Possible(sb, p, u)
  {
    match u
    case PutInodeBit(i, status) => Plain(WithStatus(p.inodeBitmap, i, status)[i / BITS_PER_BLOCK])
    case PutDataBit(v, status) => Plain(WithStatus(p.dataBitmap, v, status)[v / BITS_PER_BLOCK])
    case PutInode(i, n) => WithInode(was, i % INODES_PER_BLOCK, n)
    case PutData(v, block) => block
  }

  lemma BlockOfTarget(sb: Superblock, p: Parts, u: Update)
    requires Possible(sb, p, u) && |p.inodeBitmap| == sb.k && |p.dataBitmap| == sb.b && |p.inodes| == INODES_PER_BLOCK * sb.n
    requires Addressable(sb, |p.data|)
    ensures Position(sb, Target(u)) % BLKSZ == 0 && Position(sb, Target(u)) / BLKSZ == BlockOf(sb, Target(u))
  {
    hide Position, BlockOf;
    PlaceOf(sb, |p.data|, Target(u));
  }

  /** A store into the block at the position of its target updates that part of the volume, and no other. */
  lemma StoreUpdates(sb: Superblock, disk: seq<Data>, p: Parts, u: Update)
    requires Holds(sb, disk, p) && Possible(sb, p, u)
    ensures var b := Position(sb, Target(u)) / BLKSZ;
      b < |disk| && IsBlock(disk[b]) && Holds(sb, disk[b := Rewritten(sb, p, u, disk[b])], Applied(sb, p, u))
  {
    hide Plain, WithStatus, InodeAt, WithInode, Position;
    BlockOfTarget(sb, p, u);
    if u.PutInode? {
      InodeStored(sb, disk, p, u);
    } else {
      BlockStored(sb, disk, p, u);
    }
  }

  lemma InodeStored(sb: Superblock, disk: seq<Data>, p: Parts, u: Update)
    requires Holds(sb, disk, p) && Possible(sb, p, u) && u.PutInode?
    ensures var b := BlockOf(sb, Target(u));
      b < |disk| && IsBlock(disk[b]) && Holds(sb, disk[b := Rewritten(sb, p, u, disk[b])], Applied(sb, p, u))
  {
    hide Plain, InodeAt, WithInode;
    var b := BlockOf(sb, Target(u));
    forall i: nat | i < |p.inodes| && i / INODES_PER_BLOCK == u.i / INODES_PER_BLOCK
      ensures InodeAt(WithInode(disk[b], u.i % INODES_PER_BLOCK, u.inode), i % INODES_PER_BLOCK) ==
              if i == u.i then u.inode else p.inodes[i]
    {
      InodeRoundTrip(disk[b], u.i % INODES_PER_BLOCK, u.inode, i % INODES_PER_BLOCK);
    }
  }

  lemma BlockStored(sb: Superblock, disk: seq<Data>, p: Parts, u: Update)
    requires Holds(sb, disk, p) && Possible(sb, p, u) && !u.PutInode?
    ensures var b := BlockOf(sb, Target(u));
      b < |disk| && IsBlock(disk[b]) && Holds(sb, disk[b := Rewritten(sb, p, u, disk[b])], Applied(sb, p, u))
  {
    hide Plain, WithStatus, InodeAt, WithInode;
    OtherBlocks(sb, p, u);
  }

  lemma OtherBlocks(sb: Superblock, p: Parts, u: Update)
    requires Possible(sb, p, u)
    ensures u.PutInodeBit? ==> OthersStay(p.inodeBitmap, WithStatus(p.inodeBitmap, u.i, u.status), u.i / BITS_PER_BLOCK)
    ensures u.PutDataBit? ==> OthersStay(p.dataBitmap, WithStatus(p.dataBitmap, u.v, u.status), u.v / BITS_PER_BLOCK)
  {
  }

  predicate OthersStay(before: seq<BitmapBlock>, after: seq<BitmapBlock>, i: nat) {
    |after| == |before| && forall j :: 0 <= j < |before| && j != i ==> after[j] == before[j]
  }

  /** Through the cache: a client that holds the block of its target and stores there changes that part of the volume
      that clients see, and no other, whatever the cache has written back so far. */
  lemma CacheUpdates(sb: Superblock, s: State, p: Parts, u: Update)
    requires Coherent(s) && Holds(sb, Logical(s), p) && Possible(sb, p, u)
    requires var pos := Position(sb, Target(u));
      && pos / BLKSZ < |Logical(s)| && IsBlock(Logical(s)[pos / BLKSZ])
      && Allowed(s, Write(pos, Rewritten(sb, p, u, Logical(s)[pos / BLKSZ])))
    ensures var pos := Position(sb, Target(u));
      var t := Step(s, Write(pos, Rewritten(sb, p, u, Logical(s)[pos / BLKSZ]))).0;
      Coherent(t) && Holds(sb, Logical(t), Applied(sb, p, u))
  {
    hide Agrees, Table, Positions, Logical, Allowed, Step, Holds, Rewritten, Applied, Position;
    var pos := Position(sb, Target(u));
    StoreUpdates(sb, Logical(s), p, u);
    WriteIsSeen(s, pos, Rewritten(sb, p, u, Logical(s)[pos / BLKSZ]));
  }

  /** And a successful get of any position hands out the block there, so the fields of the volume are what the file
      system reads. */
  lemma CacheShows(sb: Superblock, s: State, p: Parts, u: Update)
    requires Coherent(s) && Holds(sb, Logical(s), p) && Possible(sb, p, u) && Got(s, Position(sb, Target(u))).1.Ok?
    ensures var t := Got(s, Position(sb, Target(u))).0;
      && t.entries != [] && IsBlock(Handed(t).buf)
      && match u
         case PutInodeBit(i, _) => Handed(t).buf == Plain(p.inodeBitmap[i / BITS_PER_BLOCK])
         case PutDataBit(v, _) => Handed(t).buf == Plain(p.dataBitmap[v / BITS_PER_BLOCK])
         case PutInode(i, _) => InodeAt(Handed(t).buf, i % INODES_PER_BLOCK) == p.inodes[i]
         case PutData(v, _) => Handed(t).buf == p.data[v]
  {
    hide Agrees, Table, Positions, Logical, Got, Plain, InodeAt, Position;
    BlockOfTarget(sb, p, u);
    GetIsTransparent(s, Position(sb, Target(u)));
  }
}
