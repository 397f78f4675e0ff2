/** A mounted KTFS volume: the block cache seen as its logical contents, and the allocation routines. */
module KtfsVolume {
  import opened Results
  import opened KtfsImage
  import opened KtfsBitmaps
  import opened KtfsTree

  class Volume {
    var inodeBitmap: seq<BitmapBlock>
    var dataBitmap: seq<BitmapBlock>
    var inodes: seq<Inode>
    var data: seq<Block>

    constructor (inodeBitmap: seq<BitmapBlock>, dataBitmap: seq<BitmapBlock>, inodes: seq<Inode>, data: seq<Block>)
      ensures Img() == Image(Bits(inodeBitmap), Bits(dataBitmap), inodes, data)
    {
      this.inodeBitmap, this.dataBitmap, this.inodes, this.data := inodeBitmap, dataBitmap, inodes, data;
    }

    ghost function InodeBits(): seq<bool>
      reads this`inodeBitmap
    {
      Bits(inodeBitmap)
    }

    ghost function DataBits(): seq<bool>
      reads this`dataBitmap
    {
      Bits(dataBitmap)
    }

    ghost function Img(): Image
      reads this
    {
      Image(InodeBits(), DataBits(), inodes, data)
    }

    /** The image a caller sees that holds `n` as its own, possibly newer, copy of inode `ino`. */
    ghost function View(ino: nat, n: Inode): Image
      reads this
      requires ino < |inodes|
    {
      Image(InodeBits(), DataBits(), inodes[ino := n], data)
    }

    // -------------------------------------------------------------- bitmaps

    /** `pins` counts the bitmap blocks that stay pinned: every one that was found full, since only the block
        with the clear bit is released. */
    method FindFreeInode() returns (r: Result<nat>, pins: nat)
      ensures r.Ok? ==> r.value < |InodeBits()| && !InodeBits()[r.value] && forall u :: 0 <= u < r.value ==> InodeBits()[u]
      ensures r.Err? ==> r.code == ENOTSUP && forall u :: 0 <= u < |InodeBits()| ==> InodeBits()[u]
      ensures r.Ok? ==> r.value < |inodeBitmap| * BITS_PER_BLOCK && !InUse(inodeBitmap, r.value) && forall u: nat :: u < r.value ==> InUse(inodeBitmap, u)
      ensures r.Err? ==> forall u: nat :: u < |inodeBitmap| * BITS_PER_BLOCK ==> InUse(inodeBitmap, u)
      ensures pins == (if r.Ok? then r.value else |InodeBits()|) / BITS_PER_BLOCK
    {
      BitsAreInUse(inodeBitmap);
      hide Bits, InUse;
      pins := 0;
      for i := 0 to |inodeBitmap|
        invariant pins == i && forall u :: 0 <= u < i * BITS_PER_BLOCK ==> Bits(inodeBitmap)[u]
      {
        pins := pins + 1;
        var found := FindInBlock(inodeBitmap, i);
        if found.Some? {
          return Ok(found.value), pins - 1;
        }
      }
      r := Err(ENOTSUP);
    }

    /** As for inodes, but a bitmap block that was found full is released as well. */
    method FindFreeDataBlock() returns (r: Result<nat>, pins: nat)
      ensures r.Ok? ==> r.value < |DataBits()| && !DataBits()[r.value] && forall u :: 0 <= u < r.value ==> DataBits()[u]
      ensures r.Err? ==> r.code == ENOTSUP && forall u :: 0 <= u < |DataBits()| ==> DataBits()[u]
      ensures r.Ok? ==> r.value < |dataBitmap| * BITS_PER_BLOCK && !InUse(dataBitmap, r.value) && forall u: nat :: u < r.value ==> InUse(dataBitmap, u)
      ensures r.Err? ==> forall u: nat :: u < |dataBitmap| * BITS_PER_BLOCK ==> InUse(dataBitmap, u)
      ensures pins == 0
    {
      BitsAreInUse(dataBitmap);
      hide Bits, InUse;
      pins := 0;
      for i := 0 to |dataBitmap|
        invariant pins == 0 && forall u :: 0 <= u < i * BITS_PER_BLOCK ==> Bits(dataBitmap)[u]
      {
        pins := pins + 1;
        var found := FindInBlock(dataBitmap, i);
        pins := pins - 1;
        if found.Some? {
          return Ok(found.value), pins;
        }
      }
      r := Err(ENOTSUP);
    }

    /** One byte of one bitmap block is rewritten; in the bitmap as a whole, bit `v` takes the status and every
        other bit stays. */
    method SetDataBlockStatus(v: nat, status: bool)
      requires v < |DataBits()|
      modifies this`dataBitmap
      ensures DataBits() == old(DataBits())[v := status] && ByteChanged(old(dataBitmap), dataBitmap, v, status)
    {
      WithStatusChanges(dataBitmap, v, status);
      BitsWithStatus(dataBitmap, v, status);
      dataBitmap := WithStatus(dataBitmap, v, status);
    }

    method SetInodeStatus(ino: nat, status: bool)
      requires ino < |InodeBits()|
      modifies this`inodeBitmap
      ensures InodeBits() == old(InodeBits())[ino := status] && ByteChanged(old(inodeBitmap), inodeBitmap, ino, status)
    {
      WithStatusChanges(inodeBitmap, ino, status);
      BitsWithStatus(inodeBitmap, ino, status);
      inodeBitmap := WithStatus(inodeBitmap, ino, status);
    }

    /** find_free_data_block, set_data_block_status and, for a block that will hold pointers, memset. */
    method TakeBlock(clear: bool) returns (r: Result<nat>)
      requires Shape(Img())
      modifies this`dataBitmap, this`data
      ensures Shape(Img())
      ensures r.Err? <==> old(FirstFree(DataBits())) == |old(DataBits())|
      ensures r.Err? ==> r.code == ENOTSUP && Img() == old(Img())
      ensures r.Ok? ==> 0 < r.value == FirstFree(old(DataBits())) < old(|data|) && Img() == Taken(old(Img()), r.value, clear)
    {
      hide Bits;
      var pins;
      r, pins := FindFreeDataBlock();
      FirstFreeIs(DataBits());
      if r.Ok? {
        FirstFreeFound(DataBits(), r.value);
        SetDataBlockStatus(r.value, true);
        if clear {
          data := data[r.value := ZeroBlock()];
        }
      }
    }

    // -------------------------------------------------------------- block trees

    method GetOrAllocDataBlock(inode: Inode, blkno: nat, ghost ino: nat, ghost live: set<nat>)
      returns (r: Result<nat>, inode': Inode)
      requires ino < |inodes| && ino in live
      requires Shape(View(ino, inode)) && Owned(View(ino, inode), live)
      modifies this`dataBitmap, this`data
      ensures blkno < MAX_BLOCKS ==> Reached(old(View(ino, inode)), View(ino, inode'), live, Leaf(ino, blkno), r)
      ensures blkno >= MAX_BLOCKS ==> r == Err(ENOTSUP) && View(ino, inode') == old(View(ino, inode))
      ensures Shape(View(ino, inode')) && Owned(View(ino, inode'), live)
    {
      hide Owned, Reached, Located;
      inode' := inode;
      if blkno < MAX_BLOCKS {
        LocatedReached(View(ino, inode), live, Leaf(ino, blkno), true);
      }
      if blkno < NUM_DIRECT {
        LocatedDirect(View(ino, inode), Leaf(ino, blkno));
        r, inode' := DirectBlock(inode, Leaf(ino, blkno), blkno);
        ReachedGrown(old(View(ino, inode)), View(ino, inode'), live, Leaf(ino, blkno), r);
        return;
      }
      var rest := blkno - NUM_DIRECT;
      if rest < PTRS_PER_BLOCK {
        r, inode' := IndirectBlock(inode, rest, true, Leaf(ino, blkno));
        ReachedGrown(old(View(ino, inode)), View(ino, inode'), live, Leaf(ino, blkno), r);
        return;
      }
      rest := rest - PTRS_PER_BLOCK;
      var outer, inner := rest / (PTRS_PER_BLOCK * PTRS_PER_BLOCK), rest % (PTRS_PER_BLOCK * PTRS_PER_BLOCK);
      if outer >= NUM_DINDIRECT {
        return Err(ENOTSUP), inode;
      }
      var second, idxInSecond := inner / PTRS_PER_BLOCK, inner % PTRS_PER_BLOCK;
      r, inode' := DoublyIndirectBlock(inode, outer, second, idxInSecond, true, Leaf(ino, blkno));
      ReachedGrown(old(View(ino, inode)), View(ino, inode'), live, Leaf(ino, blkno), r);
    }

    method DirectBlock(inode: Inode, ghost leaf: Slot, k: nat) returns (r: Result<nat>, inode': Inode)
      requires leaf.Direct? && leaf.k == k && leaf.InRange() && leaf.ino < |inodes| && Shape(View(leaf.ino, inode))
      modifies this`dataBitmap, this`data
      ensures (View(leaf.ino, inode'), r) == Located(old(View(leaf.ino, inode)), leaf, false)
    {
      r, inode' := InodeEntry(inode, Direct(0, k), false, leaf);
    }

    /** Entry `k` of the file's indirect block. A fresh index block is cleared if `clear` is set. */
    method IndirectBlock(inode: Inode, k: nat, clear: bool, ghost leaf: Slot) returns (r: Result<nat>, inode': Inode)
      requires leaf.IndLeaf? && leaf.k == k && leaf.InRange() && leaf.ino < |inodes| && Shape(View(leaf.ino, inode))
      modifies this`dataBitmap, this`data
      ensures (View(leaf.ino, inode'), r) == Located(old(View(leaf.ino, inode)), leaf, clear)
    {
      hide Fill, Bits;
      r, inode' := InodeEntry(inode, Ind(0), clear, Ind(leaf.ino));
      if r.Ok? {
        r := EntryOf(inode', r.value, k, false, leaf);
      }
    }

    method DoublyIndirectBlock(inode: Inode, d: nat, m: nat, k: nat, clear: bool, ghost leaf: Slot)
      returns (r: Result<nat>, inode': Inode)
      requires leaf.DindLeaf? && leaf.d == d && leaf.m == m && leaf.k == k
      requires leaf.InRange() && leaf.ino < |inodes| && Shape(View(leaf.ino, inode))
      modifies this`dataBitmap, this`data
      ensures (View(leaf.ino, inode'), r) == Located(old(View(leaf.ino, inode)), leaf, clear)
    {
      hide Fill, Bits;
      ghost var top, mid := Dind(leaf.ino, d), DindMid(leaf.ino, d, m);
      r, inode' := InodeEntry(inode, Dind(0, d), clear, top);
      if r.Ok? {
        r := EntryOf(inode', r.value, m, clear, mid);
        if r.Ok? {
          r := EntryOf(inode', r.value, k, false, leaf);
        }
      }
    }

    /** A pointer field of the inode (`field` names it), filled if it is still absent. */
    method InodeEntry(inode: Inode, field: Slot, clear: bool, ghost s: Slot) returns (r: Result<nat>, inode': Inode)
      requires !InIndexBlock(s) && s.ino < |inodes| && s.InRange()
      requires !InIndexBlock(field) && field.InRange() && InodePtr(inode, field) == InodePtr(inode, s)
      requires forall v :: PutInode(inode, field, v) == PutInode(inode, s, v)
      requires Shape(View(s.ino, inode))
      modifies this`dataBitmap, this`data
      ensures Shape(View(s.ino, inode')) && (View(s.ino, inode'), r) == Fill(old(View(s.ino, inode)), s, clear)
      ensures r.Ok? ==> 0 < r.value == Val(View(s.ino, inode'), s)
    {
      hide Bits, TotalBlocks, FirstFree, SetPtr, Ptr, ZeroBlock;
      inode' := inode;
      ghost var a := View(s.ino, inode);
      assert Val(a, s) == InodePtr(inode, s);
      if InodePtr(inode, field) == 0 {
        r := TakeBlock(clear);
        if r.Ok? {
          inode' := PutInode(inode, field, r.value);
          assert View(s.ino, inode') == AllocSlot(a, s, r.value, clear);
        }
      } else {
        r := Ok(InodePtr(inode, field));
      }
    }

    /** Entry `k` of index block `h`, filled if it is still absent. */
    method EntryOf(inode: Inode, h: nat, k: nat, clear: bool, ghost s: Slot) returns (r: Result<nat>)
      requires InIndexBlock(s) && s.ino < |inodes| && s.InRange() && k == Entry(s) && (clear ==> !s.IsLeaf())
      requires Shape(View(s.ino, inode)) && 0 < h == Holder(View(s.ino, inode), s)
      modifies this`dataBitmap, this`data
      ensures Shape(View(s.ino, inode)) && (View(s.ino, inode), r) == Fill(old(View(s.ino, inode)), s, clear)
      ensures r.Ok? ==> 0 < r.value && (!s.IsLeaf() ==> r.value == Val(View(s.ino, inode), s))
    {
      hide Bits, TotalBlocks, FirstFree, SetPtr, Ptr, ZeroBlock;
      ghost var a := View(s.ino, inode);
      if h >= |data| {
        return Err(EIO);
      }
      assert Val(a, s) == Ptr(data[h], k);
      if Ptr(data[h], k) == 0 {
        r := TakeBlock(clear);
        if r.Ok? {
          assert CanHold(a, s, r.value, clear);
          PtrOfSetPtr(data[h], k, r.value, k);
          data := data[h := SetPtr(data[h], k, r.value)];
          assert View(s.ino, inode) == AllocSlot(a, s, r.value, clear);
        }
      } else {
        r := Ok(Ptr(data[h], k));
      }
    }

    // -------------------------------------------------------------- freeing a file

    /** free_data_blocks: clears the bits of the file's blocks and of the index blocks above them. */
    method FreeDataBlocks(size: nat, inode: Inode, ghost ino: nat)
      requires ino < |inodes| && inodes[ino] == inode && size <= MAX_FILE_SIZE
      requires |data| <= |DataBits()|
      requires forall s: Slot :: Serves(s, ino, NumBlocks(size)) ==> 0 < Val(Img(), s) < |data|
      modifies this`dataBitmap
      ensures |DataBits()| == |old(DataBits())|
      ensures forall v :: 0 <= v < |DataBits()| ==>
                (DataBits()[v] <==> old(DataBits())[v] && !ServedBy(old(Img()), ino, NumBlocks(size), v))
    {
      hide Cleared, Bits, Ptr, PtrAt;
      var n := (size + BLKSZ - 1) / BLKSZ;
      ClearedNothing(Img(), DataBits());
      ghost var img, freed := Img(), {};
      assert forall s: Slot :: Serves(s, ino, n) ==> 0 < Val(img, s) < |img.data|;
      var x := 0;
      var j := 0;
      while j < NUM_DIRECT && x < n
        invariant j == x <= NUM_DIRECT && x <= n
        invariant Cleared(img, old(DataBits()), DataBits(), freed)
        invariant forall s :: s in freed <==> Serves(s, ino, x)
        decreases n - x
      {
        assert Serves(Direct(ino, j), ino, n);
        freed := ClearSlot(inode.block[j], Direct(ino, j), img, old(DataBits()), freed);
        x, j := x + 1, j + 1;
      }
      if x == n {
        ClearedServed(img, old(DataBits()), DataBits(), ino, n, freed);
        return;
      }
      assert Serves(Ind(ino), ino, n);
      freed := ClearSlot(inode.indirect, Ind(ino), img, old(DataBits()), freed);
      x, freed := FreeIndexBlock(inode.indirect, x, n, Ind(ino), ino, img, old(DataBits()), freed);
      if x == n {
        ClearedServed(img, old(DataBits()), DataBits(), ino, n, freed);
        return;
      }
      var i := 0;
      while i < NUM_DINDIRECT && x < n
        invariant i <= NUM_DINDIRECT && x == Min(n, FirstBlock(Dind(ino, i)))
        invariant Cleared(img, old(DataBits()), DataBits(), freed)
        invariant forall s :: s in freed <==> Serves(s, ino, x)
        decreases NUM_DINDIRECT - i
      {
        assert Serves(Dind(ino, i), ino, n);
        freed := ClearSlot(inode.dindirect[i], Dind(ino, i), img, old(DataBits()), freed);
        x, freed := FreeDindirect(inode.dindirect[i], i, x, n, ino, img, old(DataBits()), freed);
        i := i + 1;
      }
      ClearedServed(img, old(DataBits()), DataBits(), ino, n, freed);
    }

    method FreeDindirect(h: nat, i: nat, x0: nat, n: nat,
                         ghost ino: nat, ghost img: Image, ghost before: seq<bool>, ghost freed0: set<Slot>)
      returns (x: nat, ghost freed: set<Slot>)
      requires img == Img().(dataBits := before) && ino < |inodes| && |data| <= |before|
      requires i < NUM_DINDIRECT && x0 == FirstBlock(Dind(ino, i)) < n <= MAX_BLOCKS
      requires h == Val(img, Dind(ino, i)) && 0 < h < |data|
      requires forall s: Slot :: Serves(s, ino, n) ==> 0 < Val(img, s) < |data|
      requires Cleared(img, before, DataBits(), freed0)
      requires forall s :: s in freed0 <==> Serves(s, ino, x0) || s == Dind(ino, i)
      modifies this`dataBitmap
      ensures x == Min(n, FirstBlock(Dind(ino, i + 1)))
      ensures Cleared(img, before, DataBits(), freed)
      ensures forall s :: s in freed <==> Serves(s, ino, x)
    {
      hide Cleared;
      x, freed := x0, freed0;
      var j := 0;
      while j < PTRS_PER_BLOCK && x < n
        invariant j <= PTRS_PER_BLOCK && x == Min(n, FirstBlock(DindMid(ino, i, j)))
        invariant Cleared(img, before, DataBits(), freed)
        invariant forall s :: s in freed <==> Serves(s, ino, x) || s == Dind(ino, i)
        decreases PTRS_PER_BLOCK - j
      {
        var mid := Ptr(data[h], j);
        assert Serves(DindMid(ino, i, j), ino, n);
        freed := ClearSlot(mid, DindMid(ino, i, j), img, before, freed);
        x, freed := FreeIndexBlock(mid, x, n, DindMid(ino, i, j), ino, img, before, freed);
        j := j + 1;
      }
    }

    /** Frees the file blocks listed in index block `h`, which slot `p` refers to. */
    method FreeIndexBlock(h: nat, x0: nat, n: nat, ghost p: Slot,
                          ghost ino: nat, ghost img: Image, ghost before: seq<bool>, ghost freed0: set<Slot>)
      returns (x: nat, ghost freed: set<Slot>)
      requires img == Img().(dataBits := before) && ino < |inodes| && |data| <= |before|
      requires (p.Ind? || p.DindMid?) && p.ino == ino && p.InRange() && x0 == FirstBlock(p) < n <= MAX_BLOCKS
      requires h == Val(img, p) && 0 < h < |data|
      requires forall s: Slot :: Serves(s, ino, n) ==> 0 < Val(img, s) < |data|
      requires Cleared(img, before, DataBits(), freed0)
      requires forall s :: s in freed0 <==> Serves(s, ino, x0) || s in Above(p)
      modifies this`dataBitmap
      ensures x == Min(n, x0 + PTRS_PER_BLOCK)
      ensures Cleared(img, before, DataBits(), freed)
      ensures forall s :: s in freed <==> Serves(s, ino, x)
    {
      hide Cleared;
      x, freed := x0, freed0;
      var k := 0;
      while k < PTRS_PER_BLOCK && x < n
        invariant k <= PTRS_PER_BLOCK && x == x0 + k <= n
        invariant Cleared(img, before, DataBits(), freed)
        invariant forall s :: s in freed <==> Serves(s, ino, x) || s in Above(p)
        decreases PTRS_PER_BLOCK - k
      {
        assert Serves(Child(p, k), ino, n);
        ServedNext(p, k);
        freed := ClearSlot(Ptr(data[h], k), Child(p, k), img, before, freed);
        x, k := x + 1, k + 1;
      }
    }

    /** One set_data_block_status call of free_data_blocks. */
    method ClearSlot(v: nat, ghost s: Slot, ghost img: Image, ghost before: seq<bool>, ghost freed0: set<Slot>)
      returns (ghost freed: set<Slot>)
      requires v < |before| && s.InRange() && s.ino < |img.inodes| && Val(img, s) == v
      requires Cleared(img, before, DataBits(), freed0)
      modifies this`dataBitmap
      ensures freed == freed0 + {s} && Cleared(img, before, DataBits(), freed)
    {
      SetDataBlockStatus(v, false);
      freed := freed0 + {s};
    }
  }

  lemma LocatedDirect(img: Image, leaf: Slot)
    requires leaf.Direct? && leaf.InRange() && leaf.ino < |img.inodes| && |img.dataBits| <= 0x8000_0000
    ensures Located(img, leaf, true) == Located(img, leaf, false)
  {
  }

  /** Some slot serving the first `n` blocks of file `ino` refers to block `v`. */
  ghost predicate ServedBy(img: Image, ino: nat, n: nat, v: nat)
    requires ino < |img.inodes|
  {
    exists s: Slot :: Serves(s, ino, n) && Val(img, s) == v
  }

  /** `after` is `before` with the bits of the blocks in `slots` cleared. */
  ghost predicate Cleared(img: Image, before: seq<bool>, after: seq<bool>, slots: set<Slot>) {
    && |after| == |before|
    && (forall s :: s in slots ==> s.InRange() && s.ino < |img.inodes|)
    && (forall v :: 0 <= v < |after| ==> (after[v] <==> before[v] && forall s :: s in slots ==> Val(img, s) != v))
  }

  /** The index slots freed before the entries of the index block that `p` refers to. */
  function Above(p: Slot): set<Slot>
    requires p.Ind? || p.DindMid?
  {
    if p.Ind? then {p} else {p, Dind(p.ino, p.d)}
  }

  /** Serving one more block takes no more than the next entry of the index block and the slots above it. */
  lemma ServedNext(p: Slot, k: nat)
    requires (p.Ind? || p.DindMid?) && p.InRange() && k < PTRS_PER_BLOCK
    ensures forall s :: Serves(s, p.ino, FirstBlock(p) + k + 1) || s in Above(p) <==>
                        Serves(s, p.ino, FirstBlock(p) + k) || s in Above(p) || s == Child(p, k)
    ensures forall s :: s in Above(p) ==> Serves(s, p.ino, FirstBlock(p) + 1)
  {
  }

  lemma ClearedNothing(img: Image, before: seq<bool>)
    ensures Cleared(img, before, before, {})
  {
  }

  lemma ClearedServed(img: Image, before: seq<bool>, after: seq<bool>, ino: nat, n: nat, slots: set<Slot>)
    requires Cleared(img, before, after, slots) && ino < |img.inodes|
    requires forall s :: s in slots <==> Serves(s, ino, n)
    ensures |after| == |before|
    ensures forall v :: 0 <= v < |after| ==> (after[v] <==> before[v] && !ServedBy(img, ino, n, v))
  {
  }

  function Child(p: Slot, k: nat): Slot
    requires p.Ind? || p.DindMid?
  {
    if p.Ind? then IndLeaf(p.ino, k) else DindLeaf(p.ino, p.d, p.m, k)
  }
}
