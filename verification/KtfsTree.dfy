/** How one allocation changes the block trees: exactly one slot changes, from absent to a fresh block. */
module KtfsTree {
  import opened Results
  import opened KtfsImage

  /** Slots that live in an index block rather than in the inode itself. */
  predicate InIndexBlock(s: Slot) {
    s.IndLeaf? || s.DindMid? || s.DindLeaf?
  }

  /** The slot that refers to the index block holding `s`. */
  function Parent(s: Slot): Slot
    requires InIndexBlock(s)
  {
    match s
    case IndLeaf(i, _) => Ind(i)
    case DindMid(i, d, _) => Dind(i, d)
    case DindLeaf(i, d, m, _) => DindMid(i, d, m)
  }

  /** The entry of `s` within its index block. */
  function Entry(s: Slot): nat
    requires InIndexBlock(s)
  {
    if s.DindMid? then s.m else s.k
  }

  function Holder(img: Image, s: Slot): Uint32
    requires InIndexBlock(s) && s.InRange() && s.ino < |img.inodes|
  {
    Val(img, Parent(s))
  }

  ghost predicate Reachable(img: Image, s: Slot)
    requires s.InRange() && s.ino < |img.inodes|
  {
    InIndexBlock(s) ==> 0 < Holder(img, s) < |img.data|
  }

  function PutInode(n: Inode, s: Slot, v: Uint32): Inode
    requires s.InRange()
  {
    match s
    case Direct(_, k) => n.(block := n.block[k := v])
    case Ind(_) => n.(indirect := v)
    case Dind(_, d) => n.(dindirect := n.dindirect[d := v])
    case _ => n
  }

  /** A pointer field of an inode. */
  function InodePtr(n: Inode, s: Slot): Uint32
    requires s.InRange() && !InIndexBlock(s)
  {
    match s
    case Direct(_, k) => n.block[k]
    case Ind(_) => n.indirect
    case Dind(_, d) => n.dindirect[d]
  }

  /** Writes `v` in slot `s`. */
  function PutSlot(img: Image, s: Slot, v: Uint32): Image
    requires s.InRange() && s.ino < |img.inodes| && Reachable(img, s)
  {
    if InIndexBlock(s) then
      var h := Holder(img, s);
      Image(img.inodeBits, img.dataBits, img.inodes, img.data[h := SetPtr(img.data[h], Entry(s), v)])
    else
      Image(img.inodeBits, img.dataBits, img.inodes[s.ino := PutInode(img.inodes[s.ino], s, v)], img.data)
  }

  ghost predicate Unreferenced(img: Image, live: set<nat>, v: nat) {
    forall t: Slot :: Live(img, live, t) ==> Val(img, t) != v
  }

  predicate NoPointers(b: Block) {
    forall k :: 0 <= k < PTRS_PER_BLOCK ==> Ptr(b, k) == 0
  }

  /** Two live index slots never share a block, so a block written as the holder of `s` is read back
      only by slots with the same holder. */
  lemma SetPtrAt(data: seq<Block>, h: nat, k: nat, v: Uint32, b: Uint32, j: nat)
    requires 0 < h < |data| && k < PTRS_PER_BLOCK && j < PTRS_PER_BLOCK
    ensures PtrAt(data[h := SetPtr(data[h], k, v)], b, j) == if b == h && j == k then v else PtrAt(data, b, j)
  {
    PtrOfSetPtr(data[h], k, v, j);
  }

  lemma PutSlotVal(img: Image, live: set<nat>, s: Slot, v: Uint32, t: Slot)
    requires Owned(img, live) && Live(img, live, s) && Live(img, live, t)
    requires Reachable(img, s) && Val(img, s) == 0
    requires 0 < v < |img.data| && Unreferenced(img, live, v)
    requires s.IsLeaf() || NoPointers(img.data[v])
    ensures Live(PutSlot(img, s, v), live, t)
    ensures Val(PutSlot(img, s, v), t) == if s == t then v else Val(img, t)
  {
    if InIndexBlock(s) {
      PutChildVal(img, live, s, v, t);
    } else {
      PutRootVal(img, live, s, v, t);
    }
  }

  lemma PutRootVal(img: Image, live: set<nat>, s: Slot, v: Uint32, t: Slot)
    requires Live(img, live, s) && Live(img, live, t)
    requires !InIndexBlock(s) && Val(img, s) == 0
    requires 0 < v < |img.data|
    requires s.IsLeaf() || NoPointers(img.data[v])
    ensures Val(PutSlot(img, s, v), t) == if s == t then v else Val(img, t)
  {
  }

  lemma PutChildVal(img: Image, live: set<nat>, s: Slot, v: Uint32, t: Slot)
    requires Owned(img, live) && Live(img, live, s) && Live(img, live, t)
    requires InIndexBlock(s) && Reachable(img, s) && Val(img, s) == 0
    requires 0 < v < |img.data| && Unreferenced(img, live, v)
    requires s.IsLeaf() || NoPointers(img.data[v])
    ensures Val(PutSlot(img, s, v), t) == if s == t then v else Val(img, t)
  {
    var h, k := Holder(img, s), Entry(s);
    assert Live(img, live, Parent(s));
    match t {
      case Direct(_, _) =>
      case Ind(_) =>
      case Dind(_, _) =>
      case IndLeaf(i, j) =>
        assert Live(img, live, Ind(i));
        SetPtrAt(img.data, h, k, v, Val(img, Ind(i)), j);
      case DindMid(i, d, m) =>
        assert Live(img, live, Dind(i, d));
        SetPtrAt(img.data, h, k, v, Val(img, Dind(i, d)), m);
      case DindLeaf(i, d, m, j) =>
        var mid := DindMid(i, d, m);
        assert Live(img, live, Dind(i, d)) && Live(img, live, mid);
        SetPtrAt(img.data, h, k, v, Val(img, Dind(i, d)), m);
        SetPtrAt(img.data, h, k, v, Val(img, mid), j);
        SetPtrAt(img.data, h, k, v, v, j);
        assert v != h;
    }
  }

  /** Marks block `v` as used and, if asked, fills it with zero bytes. */
  function Taken(img: Image, v: Uint32, clear: bool): Image
    requires v < |img.data| && v < |img.dataBits|
  {
    Image(img.inodeBits, img.dataBits[v := true], img.inodes,
          if clear then img.data[v := ZeroBlock()] else img.data)
  }

  /** Blocks that no index slot refers to can change without changing any tree. */
  lemma DataFrame(img: Image, data': seq<Block>, live: set<nat>, t: Slot)
    requires Owned(img, live) && Live(img, live, t) && |data'| == |img.data|
    requires forall p: Slot :: Live(img, live, p) && !p.IsLeaf() && Val(img, p) != 0 ==>
               data'[Val(img, p)] == img.data[Val(img, p)]
    ensures Val(img.(data := data'), t) == Val(img, t)
  {
    if t.IndLeaf? {
      assert Live(img, live, Ind(t.ino));
    }
    if t.DindMid? || t.DindLeaf? {
      assert Live(img, live, Dind(t.ino, t.d));
    }
    if t.DindLeaf? {
      assert Live(img, live, DindMid(t.ino, t.d, t.m));
    }
  }

  lemma TakenVal(img: Image, live: set<nat>, v: Uint32, clear: bool, t: Slot)
    requires Owned(img, live) && Live(img, live, t)
    requires 0 < v < |img.data| <= |img.dataBits| && Unreferenced(img, live, v)
    ensures Val(Taken(img, v, clear), t) == Val(img, t)
  {
    var data' := Taken(img, v, clear).data;
    DataFrame(img, data', live, t);
    assert Val(Taken(img, v, clear), t) == Val(img.(data := data'), t);
  }

  lemma ZeroBlockHasNoPointers()
    ensures NoPointers(ZeroBlock())
  {
  }

  /** Takes block `v` and stores it in slot `s`. */
  function AllocSlot(img: Image, s: Slot, v: Uint32, clear: bool): Image
    requires s.InRange() && s.ino < |img.inodes| && v < |img.data| && v < |img.dataBits|
    requires Reachable(Taken(img, v, clear), s)
  {
    PutSlot(Taken(img, v, clear), s, v)
  }

  lemma TakenReachable(img: Image, live: set<nat>, s: Slot, v: Uint32, clear: bool)
    requires Owned(img, live) && Live(img, live, s) && Reachable(img, s)
    requires 0 < v < |img.data| <= |img.dataBits| && Unreferenced(img, live, v)
    ensures Reachable(Taken(img, v, clear), s)
    ensures InIndexBlock(s) ==> Holder(Taken(img, v, clear), s) == Holder(img, s)
  {
    if InIndexBlock(s) {
      TakenVal(img, live, v, clear, Parent(s));
    }
  }

  /** One allocation: only slot `s` changes, from absent to the fresh block `v`. */
  lemma AllocSlotVal(img: Image, live: set<nat>, s: Slot, v: Uint32, clear: bool, t: Slot)
    requires Owned(img, live) && Live(img, live, s) && Live(img, live, t)
    requires Reachable(img, s) && Val(img, s) == 0
    requires 0 < v < |img.data| <= |img.dataBits| && !img.dataBits[v]
    requires s.IsLeaf() || clear || NoPointers(img.data[v])
    ensures Unreferenced(img, live, v) && Reachable(Taken(img, v, clear), s)
    ensures Val(AllocSlot(img, s, v, clear), t) == if s == t then v else Val(img, t)
  {
    TakenReachable(img, live, s, v, clear);
    TakenOwned(img, live, v, clear);
    TakenVal(img, live, v, clear, s);
    TakenVal(img, live, v, clear, t);
    ZeroBlockHasNoPointers();
    PutSlotVal(Taken(img, v, clear), live, s, v, t);
  }

  lemma TakenOwned(img: Image, live: set<nat>, v: Uint32, clear: bool)
    requires Owned(img, live)
    requires 0 < v < |img.data| <= |img.dataBits| && !img.dataBits[v]
    ensures Owned(Taken(img, v, clear), live) && Unreferenced(Taken(img, v, clear), live, v)
  {
    forall t: Slot | Live(img, live, t)
      ensures Val(Taken(img, v, clear), t) == Val(img, t)
    {
      TakenVal(img, live, v, clear, t);
    }
  }

  /** The slots a file block hangs from: its own and those of the index blocks above it. */
  function Path(leaf: Slot): set<Slot>
    requires leaf.IsLeaf()
  {
    match leaf
    case Direct(_, _) => {leaf}
    case IndLeaf(i, _) => {leaf, Ind(i)}
    case DindLeaf(i, d, m, _) => {leaf, Dind(i, d), DindMid(i, d, m)}
  }

  ghost predicate NewRef(a: Image, b: Image, live: set<nat>, path: set<Slot>, v: nat) {
    exists t: Slot :: t in path && Live(a, live, t) && Live(b, live, t) && Val(a, t) == 0 && Val(b, t) == v && v != 0
  }

  /** Blocks that are still free hold what they held, and so does every block that is a file block now. */
  ghost predicate BytesStay(a: Image, b: Image, live: set<nat>) {
    && |b.data| == |a.data| && |b.inodes| == |a.inodes|
    && (forall v :: 0 <= v < |a.data| && v < |b.dataBits| && !b.dataBits[v] ==> b.data[v] == a.data[v])
    && (forall t: Slot :: Live(b, live, t) && t.IsLeaf() && 0 < Val(b, t) < |a.data| ==>
          b.data[Val(b, t)] == a.data[Val(b, t)])
  }

  /** `b` differs from `a` only by fresh blocks stored in so far absent slots of `path`: every block
      that was in some tree keeps its place, every file block keeps its contents, and exactly the new
      blocks become marked. */
  ghost predicate Grown(a: Image, b: Image, live: set<nat>, path: set<Slot>) {
    && |b.data| == |a.data| && |b.dataBits| == |a.dataBits| && |b.inodes| == |a.inodes|
    && b.inodeBits == a.inodeBits
    && (forall i :: 0 <= i < |a.inodes| ==> b.inodes[i].size == a.inodes[i].size)
    && (forall i :: 0 <= i < |a.inodes| && (forall t :: t in path ==> t.ino != i) ==> b.inodes[i] == a.inodes[i])
    && (forall t: Slot :: Live(a, live, t) ==>
          && Live(b, live, t)
          && (Val(a, t) != 0 ==> Val(b, t) == Val(a, t))
          && (Val(a, t) == 0 && Val(b, t) != 0 ==>
                t in path && Val(b, t) < |a.dataBits| && !a.dataBits[Val(b, t)]))
    && (forall v :: 0 <= v < |a.dataBits| ==> (b.dataBits[v] <==> a.dataBits[v] || NewRef(a, b, live, path, v)))
    && BytesStay(a, b, live)
  }

  lemma ValInRange(img: Image, live: set<nat>, s: Slot)
    requires Owned(img, live) && Live(img, live, s) && Val(img, s) != 0
    ensures Val(img, s) < |img.data| && Val(img, s) < |img.dataBits| && img.dataBits[Val(img, s)]
  {
  }

  lemma GrownReflexive(a: Image, live: set<nat>, path: set<Slot>)
    ensures Grown(a, a, live, path)
  {
  }

  lemma GrownTransitive(a: Image, b: Image, c: Image, live: set<nat>, path: set<Slot>)
    requires Grown(a, b, live, path) && Grown(b, c, live, path)
    ensures Grown(a, c, live, path)
  {
    BytesStayTransitive(a, b, c, live, path);
    hide BytesStay;
    forall v | 0 <= v < |a.dataBits|
      ensures c.dataBits[v] <==> a.dataBits[v] || NewRef(a, c, live, path, v)
    {
      if NewRef(a, b, live, path, v) {
        var t: Slot :| t in path && Live(a, live, t) && Live(b, live, t) && Val(a, t) == 0 && Val(b, t) == v && v != 0;
        assert Val(c, t) == v;
      }
      if NewRef(b, c, live, path, v) {
        var t: Slot :| t in path && Live(b, live, t) && Live(c, live, t) && Val(b, t) == 0 && Val(c, t) == v && v != 0;
        assert Val(a, t) == 0;
      }
      if NewRef(a, c, live, path, v) {
        var t: Slot :| t in path && Live(a, live, t) && Live(c, live, t) && Val(a, t) == 0 && Val(c, t) == v && v != 0;
        assert Val(b, t) == 0 || Val(b, t) == v;
      }
    }
  }

  lemma BytesStayTransitive(a: Image, b: Image, c: Image, live: set<nat>, path: set<Slot>)
    requires Grown(a, b, live, path) && Grown(b, c, live, path)
    ensures BytesStay(a, c, live)
  {
    hide Val;
    forall t: Slot | Live(c, live, t) && t.IsLeaf() && 0 < Val(c, t) < |a.data|
      ensures c.data[Val(c, t)] == a.data[Val(c, t)]
    {
      assert Live(b, live, t);
    }
  }

  lemma AllocSlotGrown(img: Image, live: set<nat>, s: Slot, v: Uint32, clear: bool, path: set<Slot>)
    requires Shape(img) && Owned(img, live) && Live(img, live, s) && s in path
    requires Reachable(img, s) && Val(img, s) == 0
    requires v < |img.data| && !img.dataBits[v]
    requires if s.IsLeaf() then !clear else clear || NoPointers(img.data[v])
    ensures Reachable(Taken(img, v, clear), s)
    ensures InIndexBlock(s) ==> Holder(Taken(img, v, clear), s) == Holder(img, s)
    ensures var img' := AllocSlot(img, s, v, clear);
      && Shape(img') && Owned(img', live) && Grown(img, img', live, path) && Val(img', s) == v
  {
    hide BytesStay;
    TakenReachable(img, live, s, v, clear);
    var img' := AllocSlot(img, s, v, clear);
    forall t: Slot | Live(img, live, t)
      ensures Live(img', live, t) && Val(img', t) == if s == t then v else Val(img, t)
    {
      AllocSlotVal(img, live, s, v, clear, t);
    }
    AllocSlotData(img, live, s, v, clear);
    AllocBytesStay(img, live, s, v, clear);
    AllocOwned(img, img', live, s, v);
    AllocMarks(img, img', live, s, v, path);
  }

  lemma AllocOwned(img: Image, img': Image, live: set<nat>, s: Slot, v: Uint32)
    requires Owned(img, live) && Live(img, live, s) && 0 < v < |img.data| <= |img.dataBits| && !img.dataBits[v]
    requires |img'.data| == |img.data| && |img'.inodes| == |img.inodes| && img'.dataBits == img.dataBits[v := true]
    requires forall t: Slot :: Live(img, live, t) ==> Live(img', live, t) && Val(img', t) == if s == t then v else Val(img, t)
    ensures Owned(img', live)
  {
    hide Val;
    assert forall t: Slot :: Live(img', live, t) ==> Live(img, live, t);
  }

  lemma AllocMarks(img: Image, img': Image, live: set<nat>, s: Slot, v: Uint32, path: set<Slot>)
    requires Live(img, live, s) && s in path && Val(img, s) == 0 && v != 0 && v < |img.dataBits|
    requires |img'.inodes| == |img.inodes| && img'.dataBits == img.dataBits[v := true]
    requires forall t: Slot :: Live(img, live, t) ==> Live(img', live, t) && Val(img', t) == if s == t then v else Val(img, t)
    ensures forall w :: 0 <= w < |img.dataBits| ==> (img'.dataBits[w] <==> img.dataBits[w] || NewRef(img, img', live, path, w))
  {
    hide Val;
    forall w | 0 <= w < |img.dataBits|
      ensures img'.dataBits[w] <==> img.dataBits[w] || NewRef(img, img', live, path, w)
    {
      if w == v {
        assert s in path && Val(img, s) == 0 && Val(img', s) == v;
      }
    }
  }

  lemma AllocBytesStay(img: Image, live: set<nat>, s: Slot, v: Uint32, clear: bool)
    requires Shape(img) && Owned(img, live) && Live(img, live, s)
    requires Reachable(img, s) && Val(img, s) == 0
    requires v < |img.data| && !img.dataBits[v] && Reachable(Taken(img, v, clear), s) && (s.IsLeaf() ==> !clear)
    requires var img' := AllocSlot(img, s, v, clear);
      forall t: Slot :: Live(img, live, t) ==> Live(img', live, t) && Val(img', t) == if s == t then v else Val(img, t)
    ensures BytesStay(img, AllocSlot(img, s, v, clear), live)
  {
    var img' := AllocSlot(img, s, v, clear);
    AllocSlotData(img, live, s, v, clear);
    forall t: Slot | Live(img', live, t) && t.IsLeaf() && 0 < Val(img', t) < |img.data|
      ensures img'.data[Val(img', t)] == img.data[Val(img', t)]
    {
      assert Live(img, live, t);
    }
  }

  lemma AllocSlotData(img: Image, live: set<nat>, s: Slot, v: Uint32, clear: bool)
    requires Shape(img) && Owned(img, live) && Live(img, live, s)
    requires Reachable(img, s) && Val(img, s) == 0
    requires v < |img.data| && !img.dataBits[v]
    requires Reachable(Taken(img, v, clear), s)
    ensures var img' := AllocSlot(img, s, v, clear);
      && |img'.data| == |img.data|
      && img'.dataBits == img.dataBits[v := true]
      && (!clear ==> img'.data[v] == img.data[v])
      && (forall w :: 0 <= w < |img.data| && !img.dataBits[w] && w != v ==> img'.data[w] == img.data[w])
      && (forall t: Slot :: Live(img, live, t) && t.IsLeaf() && 0 < Val(img, t) < |img.data| ==>
            img'.data[Val(img, t)] == img.data[Val(img, t)])
  {
    var img' := AllocSlot(img, s, v, clear);
    TakenVal(img, live, v, clear, s);
    if InIndexBlock(s) {
      assert Live(img, live, Parent(s));
      TakenVal(img, live, v, clear, Parent(s));
    }
  }

  // ---------------------------------------------------------------- free blocks in order

  function FreeCount(bits: seq<bool>): nat {
    if bits == [] then 0 else (if bits[0] then 0 else 1) + FreeCount(bits[1..])
  }

  lemma {:induction false} FreeCountTake(bits: seq<bool>, v: nat)
    requires v < |bits| && !bits[v]
    ensures FreeCount(bits) == FreeCount(bits[v := true]) + 1
  {
    if v > 0 {
      FreeCountTake(bits[1..], v - 1);
      assert bits[v := true][1..] == bits[1..][v - 1 := true];
    } else {
      assert bits[v := true][1..] == bits[1..];
    }
  }

  lemma {:induction false} FreeCountFull(bits: seq<bool>)
    ensures FreeCount(bits) == 0 <==> forall u :: 0 <= u < |bits| ==> bits[u]
  {
    if bits != [] {
      FreeCountFull(bits[1..]);
      assert forall u :: 0 < u < |bits| ==> bits[u] == bits[1..][u - 1];
    }
  }

  /** The lowest clear bit; the length when there is none. */
  function FirstFree(bits: seq<bool>): nat {
    if bits == [] || !bits[0] then 0 else 1 + FirstFree(bits[1..])
  }

  lemma {:induction false} FirstFreeIs(bits: seq<bool>)
    ensures FirstFree(bits) <= |bits| && forall u :: 0 <= u < FirstFree(bits) ==> bits[u]
    ensures FirstFree(bits) < |bits| ==> !bits[FirstFree(bits)]
    ensures FirstFree(bits) < |bits| <==> FreeCount(bits) > 0
  {
    if bits != [] && bits[0] {
      FirstFreeIs(bits[1..]);
      assert forall u :: 0 < u < |bits| ==> bits[u] == bits[1..][u - 1];
    }
  }

  /** The bitmap after the lowest `n` clear bits were set, or all of them if there are fewer. */
  function TakeFirst(bits: seq<bool>, n: nat): (r: seq<bool>)
    ensures |r| == |bits|
    decreases n
  {
    if n == 0 || FirstFree(bits) >= |bits| then bits else TakeFirst(bits[FirstFree(bits) := true], n - 1)
  }

  /** The clear bit with `n` clear bits below it. */
  function NthFree(bits: seq<bool>, n: nat): nat {
    FirstFree(TakeFirst(bits, n))
  }

  lemma {:induction false} TakeFirstFull(bits: seq<bool>, n: nat)
    requires FirstFree(bits) >= |bits|
    ensures TakeFirst(bits, n) == bits
  {
  }

  lemma {:induction false} TakeFirstTwice(bits: seq<bool>, m: nat, n: nat)
    ensures TakeFirst(TakeFirst(bits, m), n) == TakeFirst(bits, m + n)
    ensures NthFree(TakeFirst(bits, m), n) == NthFree(bits, m + n)
    decreases m
  {
    if m > 0 {
      if FirstFree(bits) < |bits| {
        TakeFirstTwice(bits[FirstFree(bits) := true], m - 1, n);
      } else {
        TakeFirstFull(bits, n);
        TakeFirstFull(bits, m + n);
      }
    }
  }

  lemma {:induction false} TakeFirstCount(bits: seq<bool>, n: nat)
    requires n <= FreeCount(bits)
    ensures FreeCount(TakeFirst(bits, n)) == FreeCount(bits) - n
    decreases n
  {
    if n > 0 {
      FirstFreeIs(bits);
      FreeCountTake(bits, FirstFree(bits));
      TakeFirstCount(bits[FirstFree(bits) := true], n - 1);
    }
  }

  lemma TakeOne(bits: seq<bool>)
    requires FirstFree(bits) < |bits|
    ensures TakeFirst(bits, 1) == bits[FirstFree(bits) := true] && NthFree(bits, 0) == FirstFree(bits)
  {
    assert TakeFirst(bits, 1) == TakeFirst(bits[FirstFree(bits) := true], 0);
  }

  /** No bit below the one found is clear. */
  lemma FirstFreeFound(bits: seq<bool>, v: nat)
    requires v < |bits| && !bits[v] && forall u :: 0 <= u < v ==> bits[u]
    ensures FirstFree(bits) == v
  {
    FirstFreeIs(bits);
  }

  function Absent(img: Image, s: Slot): nat
    requires s.InRange() && s.ino < |img.inodes|
  {
    if Val(img, s) == 0 then 1 else 0
  }

  /** How many blocks a file block still lacks: its own and the index blocks above it. */
  function Missing(img: Image, leaf: Slot): nat
    requires leaf.IsLeaf() && leaf.InRange() && leaf.ino < |img.inodes|
  {
    Absent(img, leaf) + MissingAbove(img, leaf)
  }

  /** How many of them are index blocks. */
  function MissingAbove(img: Image, leaf: Slot): nat
    requires leaf.IsLeaf() && leaf.InRange() && leaf.ino < |img.inodes|
  {
    match leaf
    case Direct(_, _) => 0
    case IndLeaf(i, _) => Absent(img, Ind(i))
    case DindLeaf(i, d, m, _) => Absent(img, Dind(i, d)) + Absent(img, DindMid(i, d, m))
  }

  // ---------------------------------------------------------------- filling one slot

  /** The value of slot `s`, which takes the lowest free block if it was absent. An index block that lies outside
      the data region cannot be fetched. */
  function Fill(img: Image, s: Slot, clear: bool): (r: (Image, Result<nat>))
    requires s.InRange() && s.ino < |img.inodes| && |img.dataBits| <= 0x8000_0000
    ensures |r.0.inodes| == |img.inodes| && |r.0.data| == |img.data| && |r.0.dataBits| == |img.dataBits|
  {
    var v := FirstFree(img.dataBits);
    if InIndexBlock(s) && Holder(img, s) >= |img.data| then (img, Err(EIO))
    else if Val(img, s) != 0 then (img, Ok(Val(img, s)))
    else if v >= |img.dataBits| then (img, Err(ENOTSUP))
    else if v >= |img.data| || !CanHold(img, s, v, clear) then (img, Err(EIO))
    else (AllocSlot(img, s, v, clear), Ok(v))
  }

  predicate CanHold(img: Image, s: Slot, v: Uint32, clear: bool)
    requires s.InRange() && s.ino < |img.inodes| && v < |img.data| && v < |img.dataBits|
  {
    InIndexBlock(s) ==> 0 < Holder(Taken(img, v, clear), s) == Holder(img, s) < |img.data|
  }

  /** The outcome of looking at slot `s` and filling it if it is absent. */
  ghost predicate Entered(a: Image, b: Image, live: set<nat>, path: set<Slot>, s: Slot, r: Result<nat>) {
    && Shape(b) && Owned(b, live) && Grown(a, b, live, path) && Live(a, live, s) && Live(b, live, s)
    && (r.Ok? ==> r.value == Val(b, s) != 0 && r.value < |b.data|)
    && (r.Err? ==> r.code == ENOTSUP && Val(b, s) == 0 && FreeCount(b.dataBits) == 0)
    && (forall t: Slot :: Live(a, live, t) && t != s ==> Live(b, live, t) && Val(b, t) == Val(a, t))
    && Absent(b, s) <= Absent(a, s)
    && FreeCount(b.dataBits) + Absent(a, s) == FreeCount(a.dataBits) + Absent(b, s)
    && b.dataBits == TakeFirst(a.dataBits, Absent(a, s) - Absent(b, s))
    && (r.Ok? && Val(a, s) == 0 ==> r.value == NthFree(a.dataBits, 0))
  }

  lemma EnteredSound(a: Image, b: Image, live: set<nat>, path: set<Slot>, s: Slot, r: Result<nat>)
    requires Entered(a, b, live, path, s, r)
    ensures Shape(b) && Owned(b, live) && Live(b, live, s)
    ensures r.Ok? ==> 0 < r.value == Val(b, s) < |b.data|
    ensures forall t: Slot :: Live(a, live, t) && t != s ==> Val(b, t) == Val(a, t)
  {
  }

  /** A slot may be filled: it is there, no block is free, or the lowest free one may hold what it will hold. */
  predicate Ready(img: Image, s: Slot, clear: bool)
    requires s.InRange() && s.ino < |img.inodes|
  {
    s.IsLeaf() || clear || Val(img, s) != 0 || FreeCount(img.dataBits) == 0
    || (FirstFree(img.dataBits) < |img.data| ==> NoPointers(img.data[FirstFree(img.dataBits)]))
  }

  lemma FillEntered(a: Image, live: set<nat>, path: set<Slot>, s: Slot, clear: bool)
    requires Shape(a) && Owned(a, live) && Live(a, live, s) && s in path && Reachable(a, s)
    requires (s.IsLeaf() ==> !clear) && Ready(a, s, clear)
    ensures Entered(a, Fill(a, s, clear).0, live, path, s, Fill(a, s, clear).1)
  {
    hide Grown;
    GrownReflexive(a, live, path);
    FirstFreeIs(a.dataBits);
    FreeCountFull(a.dataBits);
    var v := FirstFree(a.dataBits);
    if Val(a, s) != 0 {
      ValInRange(a, live, s);
    } else if v < |a.dataBits| {
      AllocSlotGrown(a, live, s, v, clear, path);
      AllocSlotData(a, live, s, v, clear);
      FreeCountTake(a.dataBits, v);
      TakeOne(a.dataBits);
      var b := AllocSlot(a, s, v, clear);
      forall t: Slot | Live(a, live, t) && t != s
        ensures Live(b, live, t) && Val(b, t) == Val(a, t)
      {
        AllocSlotVal(a, live, s, v, clear, t);
      }
    }
  }

  // ---------------------------------------------------------------- filling the path of a file block

  /** Looks up file block `leaf`, filling what is absent from the inode downwards. */
  function Located(img: Image, leaf: Slot, clear: bool): (r: (Image, Result<nat>))
    requires leaf.IsLeaf() && leaf.InRange() && leaf.ino < |img.inodes| && |img.dataBits| <= 0x8000_0000
    ensures |r.0.inodes| == |img.inodes| && |r.0.data| == |img.data| && |r.0.dataBits| == |img.dataBits|
  {
    match leaf
    case Direct(_, _) => Fill(img, leaf, false)
    case IndLeaf(i, _) =>
      var f := Fill(img, Ind(i), clear);
      if f.1.Err? then f else Fill(f.0, leaf, false)
    case DindLeaf(i, d, m, _) =>
      var f := Fill(img, Dind(i, d), clear);
      if f.1.Err? then f
      else
        var g := Fill(f.0, DindMid(i, d, m), clear);
        if g.1.Err? then g else Fill(g.0, leaf, false)
  }

  /** The outcome of get_or_alloc_data_block for file block `leaf`: it succeeds exactly when enough blocks are free,
      and takes exactly the missing ones, lowest first. */
  ghost predicate Reached(a: Image, b: Image, live: set<nat>, leaf: Slot, r: Result<nat>) {
    && Shape(b) && Owned(b, live) && leaf.IsLeaf() && Live(a, live, leaf) && Live(b, live, leaf)
    && Grown(a, b, live, Path(leaf))
    && (r.Ok? <==> Missing(a, leaf) <= FreeCount(a.dataBits))
    && (r.Ok? ==> r.value == Val(b, leaf) != 0 && r.value < |b.data|)
    && (r.Err? ==> r.code == ENOTSUP && FreeCount(b.dataBits) == 0)
    && Missing(b, leaf) <= Missing(a, leaf)
    && FreeCount(b.dataBits) + Missing(a, leaf) == FreeCount(a.dataBits) + Missing(b, leaf)
    && b.dataBits == TakeFirst(a.dataBits, Missing(a, leaf) - Missing(b, leaf))
    && (r.Ok? && Val(a, leaf) == 0 ==> Val(b, leaf) == NthFree(a.dataBits, Missing(a, leaf) - 1))
  }

  lemma ReachedGrown(a: Image, b: Image, live: set<nat>, leaf: Slot, r: Result<nat>)
    requires Reached(a, b, live, leaf, r)
    ensures Shape(b) && Owned(b, live) && Grown(a, b, live, Path(leaf)) && Live(b, live, leaf)
    ensures r.Ok? ==> 0 < r.value == Val(b, leaf) < |b.data|
    ensures r.Err? ==> r.code == ENOTSUP && forall u :: 0 <= u < |b.dataBits| ==> b.dataBits[u]
  {
    FreeCountFull(b.dataBits);
  }

  lemma ReachedRoom(a: Image, b: Image, live: set<nat>, leaf: Slot, r: Result<nat>)
    requires Reached(a, b, live, leaf, r)
    ensures r.Ok? <==> Missing(a, leaf) <= FreeCount(a.dataBits)
  {
  }

  lemma DirectReached(a: Image, b: Image, live: set<nat>, leaf: Slot, r: Result<nat>)
    requires leaf.Direct? && Entered(a, b, live, Path(leaf), leaf, r)
    ensures Reached(a, b, live, leaf, r)
  {
    hide Grown, Owned, Shape;
  }

  lemma IndirectReached(a: Image, b: Image, c: Image, live: set<nat>, leaf: Slot, r: Result<nat>, r': Result<nat>)
    requires leaf.IndLeaf? && Live(a, live, leaf) && Entered(a, b, live, Path(leaf), Ind(leaf.ino), r)
    requires if r.Ok? then Entered(b, c, live, Path(leaf), leaf, r') else c == b && r' == r
    ensures Reached(a, c, live, leaf, r')
  {
    hide Grown, Owned, Shape, FirstFree, NthFree, TakeFirst, FreeCount;
    GrownReflexive(b, live, Path(leaf));
    GrownTransitive(a, b, c, live, Path(leaf));
    TakeFirstTwice(a.dataBits, Absent(a, Ind(leaf.ino)) - Absent(b, Ind(leaf.ino)), 0);
    if r.Ok? {
      TakeFirstTwice(a.dataBits, Absent(a, Ind(leaf.ino)), Absent(b, leaf) - Absent(c, leaf));
      TakeFirstTwice(a.dataBits, Absent(a, Ind(leaf.ino)), 0);
    }
  }

  lemma DoublyIndirectReached(a: Image, b: Image, c: Image, d: Image, live: set<nat>, leaf: Slot,
                              r: Result<nat>, r': Result<nat>, r'': Result<nat>)
    requires leaf.DindLeaf? && Live(a, live, leaf) && Entered(a, b, live, Path(leaf), Dind(leaf.ino, leaf.d), r)
    requires if r.Ok? then Entered(b, c, live, Path(leaf), DindMid(leaf.ino, leaf.d, leaf.m), r') else c == b && r' == r
    requires if r'.Ok? then Entered(c, d, live, Path(leaf), leaf, r'') else d == c && r'' == r'
    ensures Reached(a, d, live, leaf, r'')
  {
    hide Grown, Owned, Shape, FirstFree, NthFree, TakeFirst, FreeCount;
    GrownReflexive(b, live, Path(leaf));
    GrownReflexive(c, live, Path(leaf));
    GrownTransitive(a, b, c, live, Path(leaf));
    GrownTransitive(a, c, d, live, Path(leaf));
    var top, mid := Dind(leaf.ino, leaf.d), DindMid(leaf.ino, leaf.d, leaf.m);
    if r.Ok? {
      TakeFirstTwice(a.dataBits, Absent(a, top), Absent(b, mid) - Absent(c, mid));
      if r'.Ok? {
        TakeFirstTwice(a.dataBits, Absent(a, top) + Absent(b, mid), Absent(c, leaf) - Absent(d, leaf));
        TakeFirstTwice(a.dataBits, Absent(a, top) + Absent(b, mid), 0);
      }
    }
  }

  /** The free blocks that file block `leaf` takes as index blocks, the lowest ones, hold no non-zero word. */
  predicate IndexBlocksBlank(img: Image, leaf: Slot)
    requires leaf.IsLeaf() && leaf.InRange() && leaf.ino < |img.inodes|
  {
    forall i :: 0 <= i < MissingAbove(img, leaf) && i < FreeCount(img.dataBits) ==> Blank(img, NthFree(img.dataBits, i))
  }

  predicate Blank(img: Image, v: nat) {
    v < |img.data| ==> NoPointers(img.data[v])
  }

  lemma LocatedReached(a: Image, live: set<nat>, leaf: Slot, clear: bool)
    requires Shape(a) && Owned(a, live) && leaf.IsLeaf() && Live(a, live, leaf)
    requires clear || IndexBlocksBlank(a, leaf)
    ensures Reached(a, Located(a, leaf, clear).0, live, leaf, Located(a, leaf, clear).1)
  {
    hide Grown, Fill, Entered, Reached, Owned, Shape;
    SizesOf(a);
    match leaf
    case Direct(_, _) =>
      FillEntered(a, live, Path(leaf), leaf, false);
      DirectReached(a, Fill(a, leaf, false).0, live, leaf, Fill(a, leaf, false).1);
    case IndLeaf(i, _) =>
      var f := TopFilled(a, live, leaf, Ind(i), clear);
      if f.1.Ok? {
        FillEntered(f.0, live, Path(leaf), leaf, false);
        IndirectReached(a, f.0, Fill(f.0, leaf, false).0, live, leaf, f.1, Fill(f.0, leaf, false).1);
      } else {
        IndirectReached(a, f.0, f.0, live, leaf, f.1, f.1);
      }
    case DindLeaf(i, d, m, _) =>
      var f := TopFilled(a, live, leaf, Dind(i, d), clear);
      var mid := DindMid(i, d, m);
      if f.1.Ok? {
        MidReady(a, f.0, live, leaf, clear, f.1);
        FillEntered(f.0, live, Path(leaf), mid, clear);
        var g := Fill(f.0, mid, clear);
        EnteredSound(f.0, g.0, live, Path(leaf), mid, g.1);
        if g.1.Ok? {
          FillEntered(g.0, live, Path(leaf), leaf, false);
          DoublyIndirectReached(a, f.0, g.0, Fill(g.0, leaf, false).0, live, leaf, f.1, g.1, Fill(g.0, leaf, false).1);
        } else {
          DoublyIndirectReached(a, f.0, g.0, g.0, live, leaf, f.1, g.1, g.1);
        }
      } else {
        DoublyIndirectReached(a, f.0, f.0, f.0, live, leaf, f.1, f.1, f.1);
      }
  }

  lemma SizesOf(a: Image)
    requires Shape(a)
    ensures |a.dataBits| <= 0x8000_0000
  {
  }

  /** The first step: the index block that the inode refers to. */
  lemma TopFilled(a: Image, live: set<nat>, leaf: Slot, top: Slot, clear: bool) returns (f: (Image, Result<nat>))
    requires Shape(a) && Owned(a, live) && leaf.IsLeaf() && Live(a, live, leaf)
    requires top == (if leaf.IndLeaf? then Ind(leaf.ino) else if leaf.DindLeaf? then Dind(leaf.ino, leaf.d) else leaf)
    requires !leaf.Direct? && (clear || IndexBlocksBlank(a, leaf))
    ensures f == Fill(a, top, clear) && Entered(a, f.0, live, Path(leaf), top, f.1)
    ensures Shape(f.0) && Owned(f.0, live) && Live(f.0, live, leaf) && (f.1.Ok? ==> 0 < f.1.value == Val(f.0, top) < |f.0.data|)
    ensures f.1.Ok? && leaf.DindLeaf? ==> Live(f.0, live, DindMid(leaf.ino, leaf.d, leaf.m))
  {
    assert Ready(a, top, clear) by {
      if !clear && Val(a, top) == 0 && FreeCount(a.dataBits) > 0 {
        assert NthFree(a.dataBits, 0) == FirstFree(a.dataBits);
        assert Blank(a, NthFree(a.dataBits, 0));
      }
    }
    hide Grown, Fill;
    FillEntered(a, live, Path(leaf), top, clear);
    f := Fill(a, top, clear);
  }

  lemma MidReady(a: Image, b: Image, live: set<nat>, leaf: Slot, clear: bool, r: Result<nat>)
    requires Shape(a) && leaf.DindLeaf? && Live(a, live, leaf) && (clear || IndexBlocksBlank(a, leaf))
    requires Entered(a, b, live, Path(leaf), Dind(leaf.ino, leaf.d), r) && r.Ok?
    ensures Ready(b, DindMid(leaf.ino, leaf.d, leaf.m), clear)
  {
    hide Owned;
    var top, mid := Dind(leaf.ino, leaf.d), DindMid(leaf.ino, leaf.d, leaf.m);
    if !clear && Val(b, mid) == 0 && FreeCount(b.dataBits) > 0 {
      var i := Absent(a, top);
      TakeFirstTwice(a.dataBits, i, 0);
      FirstFreeIs(b.dataBits);
      assert Live(a, live, mid);
      assert NthFree(a.dataBits, i) == FirstFree(b.dataBits) && Blank(a, NthFree(a.dataBits, i));
      assert BytesStay(a, b, live);
    }
  }
}
