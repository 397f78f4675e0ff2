/** Steps of a file operation: block allocations and block writes on one file, and what they keep. */
module KtfsSteps {
  import opened Machine
  import opened KtfsImage
  import opened KtfsTree
  import opened KtfsGrowth
  import opened KtfsLimits
  import opened Results

  /** What every call relies on and keeps: no block has two owners and no live file has a hole. */
  ghost predicate Sound(img: Image, live: set<nat>) {
    Shape(img) && Owned(img, live) && Mapped(img, live)
  }

  function Splice(s: seq<Byte>, at: nat, t: seq<Byte>): seq<Byte>
    requires at <= |s|
  {
    s[..at] + t + if at + |t| <= |s| then s[at + |t|..] else []
  }

  function Overwrite(b: Block, at: nat, t: seq<Byte>): Block
    requires at + |t| <= BLKSZ
  {
    b[..at] + t + b[at + |t|..]
  }

  lemma WriteLeaf(img: Image, live: set<nat>, s: Slot, at: nat, t: seq<Byte>)
    requires Owned(img, live) && Live(img, live, s) && s.IsLeaf() && Val(img, s) != 0
    requires at + |t| <= BLKSZ
    ensures Val(img, s) < |img.data|
    ensures
      var v := Val(img, s);
      var img' := img.(data := img.data[v := Overwrite(img.data[v], at, t)]);
      && OthersSame(img, img', live, s.ino)
      && Owned(img', live)
      && (forall u: Slot :: Live(img, live, u) ==> Live(img', live, u) && Val(img', u) == Val(img, u))
      && (forall u: Slot :: Live(img, live, u) && u.IsLeaf() && u != s && Val(img, u) != 0 ==>
            Val(img, u) < |img.data| && img'.data[Val(img, u)] == img.data[Val(img, u)])
  {
    var v := Val(img, s);
    var img' := img.(data := img.data[v := Overwrite(img.data[v], at, t)]);
    forall u: Slot | Live(img, live, u)
      ensures Val(img', u) == Val(img, u)
    {
      DataFrame(img, img'.data, live, u);
    }
    assert forall u: Slot :: Live(img', live, u) ==> Live(img, live, u);
  }

  /** From `a` to `b`, bytes of the blocks file `ino` had, outside offsets `lo` to `hi`, are the same. */
  ghost predicate BytesKept(a: Image, b: Image, ino: nat, lo: nat, hi: nat) {
    && ino < |a.inodes| && |b.inodes| == |a.inodes| && |b.data| == |a.data|
    && (forall t: Slot :: t.ino == ino && t.InRange() && Val(a, t) != 0 ==> Val(b, t) == Val(a, t))
    && (forall j: nat :: j < MAX_FILE_SIZE && !(lo <= j < hi) && Val(a, Leaf(ino, j / BLKSZ)) != 0 ==>
          ByteAt(b, ino, j) == ByteAt(a, ino, j))
  }

  /** From `a` to `b`, blocks that are still free, and outside offsets `lo` to `hi` those of the file, the new
      ones included, hold what they held. */
  ghost predicate Inherited(a: Image, b: Image, ino: nat, lo: nat, hi: nat) {
    && ino < |a.inodes| == |b.inodes| && |b.data| == |a.data| && |b.dataBits| == |a.dataBits|
    && (forall v :: 0 <= v < |a.dataBits| && a.dataBits[v] ==> b.dataBits[v])
    && (forall v :: 0 <= v < |a.data| && v < |b.dataBits| && !b.dataBits[v] ==> b.data[v] == a.data[v])
    && (forall t: Slot :: t.ino == ino && t.InRange() && Val(a, t) == 0 != Val(b, t) ==>
          Val(b, t) < |a.dataBits| && !a.dataBits[Val(b, t)])
    && (forall j: nat :: j < MAX_FILE_SIZE && !(lo <= j < hi) && 0 < Val(b, Leaf(ino, j / BLKSZ)) < |a.data| ==>
          ByteAt(b, ino, j) == a.data[Val(b, Leaf(ino, j / BLKSZ))][j % BLKSZ])
  }

  /** A run of allocations and block writes on file `ino` that overwrote at most offsets `lo` to `hi`. */
  ghost predicate Step(a: Image, b: Image, live: set<nat>, ino: nat, lo: nat, hi: nat) {
    && BytesKept(a, b, ino, lo, hi) && Inherited(a, b, ino, lo, hi) && Grew(a, b, ino)
    && OthersSame(a, b, live, ino)
    && b.inodeBits == a.inodeBits
    && b.inodes[ino].size == a.inodes[ino].size
    && (NoLeaks(a, live) ==> NoLeaks(b, live))
  }

  /** From `a` to `b`, other files and the inode bitmap are untouched and no block has leaked. */
  ghost predicate Kept(a: Image, b: Image, live: set<nat>, ino: nat) {
    OthersSame(a, b, live, ino) && b.inodeBits == a.inodeBits && (NoLeaks(a, live) ==> NoLeaks(b, live))
  }

  lemma SoundOwned(a: Image, live: set<nat>)
    requires Sound(a, live)
    ensures Owned(a, live)
  {
  }

  lemma KeptNothing(a: Image, live: set<nat>, ino: nat)
    ensures Kept(a, a, live, ino)
  {
  }

  lemma StepNothing(a: Image, live: set<nat>, ino: nat, lo: nat, hi: nat)
    requires ino < |a.inodes|
    ensures Step(a, a, live, ino, lo, hi)
  {
    GrewNothing(a, a, ino);
  }

  lemma StepTransitive(a: Image, b: Image, c: Image, live: set<nat>, ino: nat, lo: nat, mid: nat, hi: nat)
    requires ino in live && Owned(a, live)
    requires Step(a, b, live, ino, lo, mid) && Step(b, c, live, ino, mid, hi) && lo <= mid <= hi
    ensures Step(a, c, live, ino, lo, hi)
  {
    hide Grew;
    GrewTransitive(a, b, c, ino);
    InheritedTransitive(a, b, c, ino, lo, mid, hi);
    hide Inherited;
    forall j: nat | j < MAX_FILE_SIZE && !(lo <= j < hi) && Val(a, Leaf(ino, j / BLKSZ)) != 0
      ensures ByteAt(c, ino, j) == ByteAt(a, ino, j)
    {
      assert Val(b, Leaf(ino, j / BLKSZ)) != 0;
      assert ByteAt(b, ino, j) == ByteAt(a, ino, j);
    }
    OthersSameTransitive(a, b, c, live, ino);
  }

  lemma InheritedTransitive(a: Image, b: Image, c: Image, ino: nat, lo: nat, mid: nat, hi: nat)
    requires Inherited(a, b, ino, lo, mid) && Inherited(b, c, ino, mid, hi) && lo <= mid <= hi
    requires forall t: Slot :: t.ino == ino && t.InRange() && Val(a, t) != 0 ==> Val(b, t) == Val(a, t)
    requires forall t: Slot :: t.ino == ino && t.InRange() && Val(b, t) != 0 ==> Val(c, t) == Val(b, t)
    ensures Inherited(a, c, ino, lo, hi)
  {
    hide Val, ByteAt;
    forall j: nat | j < MAX_FILE_SIZE && !(lo <= j < hi) && 0 < Val(c, Leaf(ino, j / BLKSZ)) < |a.data|
      ensures ByteAt(c, ino, j) == a.data[Val(c, Leaf(ino, j / BLKSZ))][j % BLKSZ]
    {
      ByteIs(b, ino, j);
    }
  }

  lemma ByteIs(b: Image, ino: nat, j: nat)
    requires ino < |b.inodes| && j < MAX_FILE_SIZE
    ensures var v := Val(b, Leaf(ino, j / BLKSZ)); v < |b.data| ==> ByteAt(b, ino, j) == b.data[v][j % BLKSZ]
  {
  }

  /** Once block `blkno` is present, a file that had its first `n >= blkno` blocks has block `blkno` too. */
  ghost predicate Extends(a: Image, b: Image, ino: nat, blkno: nat) {
    && (forall n :: blkno <= n && MappedTo(a, ino, n) ==> MappedTo(b, ino, if n == blkno then n + 1 else n))
    && (forall n :: blkno <= n && TrimTo(a, ino, n) ==> TrimTo(b, ino, if n == blkno then n + 1 else n))
  }

  lemma GrownExtends(a: Image, b: Image, live: set<nat>, ino: nat, blkno: nat)
    requires blkno < MAX_BLOCKS && ino in live && Owned(a, live)
    requires Grown(a, b, live, Path(Leaf(ino, blkno))) && Val(b, Leaf(ino, blkno)) != 0
    ensures Extends(a, b, ino, blkno)
  {
    forall n | blkno <= n && MappedTo(a, ino, n)
      ensures MappedTo(b, ino, if n == blkno then n + 1 else n)
    {
      GrownMapped(a, b, live, ino, blkno, n);
    }
    forall n | blkno <= n && TrimTo(a, ino, n)
      ensures TrimTo(b, ino, if n == blkno then n + 1 else n)
    {
      GrownTrim(a, b, live, ino, blkno, n);
    }
  }

  lemma GrownStep(a: Image, b: Image, live: set<nat>, ino: nat, blkno: nat, p: nat, r: Result<nat>)
    requires blkno < MAX_BLOCKS && ino in live && Owned(a, live) && MappedTo(a, ino, blkno)
    requires Reached(a, b, live, Leaf(ino, blkno), r)
    ensures Step(a, b, live, ino, p, p)
  {
    hide Grew, Reached, Grown;
    ReachedGrown(a, b, live, Leaf(ino, blkno), r);
    ReachedGrew(a, b, live, ino, blkno, r);
    GrownBytes(a, b, live, ino, blkno, p);
    GrownOthers(a, b, live, ino, Path(Leaf(ino, blkno)));
    GrownSame(a, b, live, ino, Path(Leaf(ino, blkno)));
    if NoLeaks(a, live) {
      GrownNoLeaks(a, b, live, Path(Leaf(ino, blkno)));
    }
  }

  lemma GrownSame(a: Image, b: Image, live: set<nat>, ino: nat, path: set<Slot>)
    requires ino in live && Owned(a, live) && Grown(a, b, live, path)
    ensures ino < |a.inodes| && b.inodeBits == a.inodeBits && b.inodes[ino].size == a.inodes[ino].size
  {
  }

  lemma GrownBytes(a: Image, b: Image, live: set<nat>, ino: nat, blkno: nat, p: nat)
    requires blkno < MAX_BLOCKS && ino in live && Owned(a, live) && Owned(b, live)
    requires Grown(a, b, live, Path(Leaf(ino, blkno)))
    ensures BytesKept(a, b, ino, p, p) && Inherited(a, b, ino, p, p)
  {
    hide Val, Path, NewRef;
    assert forall t: Slot :: t.ino == ino && t.InRange() ==> Live(a, live, t) && Live(b, live, t);
    forall j: nat | j < MAX_FILE_SIZE && 0 < Val(b, Leaf(ino, j / BLKSZ)) < |a.data|
      ensures ByteAt(b, ino, j) == a.data[Val(b, Leaf(ino, j / BLKSZ))][j % BLKSZ]
    {
      assert Live(b, live, Leaf(ino, j / BLKSZ));
    }
    forall j: nat | j < MAX_FILE_SIZE && Val(a, Leaf(ino, j / BLKSZ)) != 0
      ensures ByteAt(b, ino, j) == ByteAt(a, ino, j)
    {
      assert Live(a, live, Leaf(ino, j / BLKSZ));
    }
  }

  lemma StepWiden(a: Image, b: Image, live: set<nat>, ino: nat, lo: nat, hi: nat, hi': nat)
    requires Step(a, b, live, ino, lo, hi) && hi <= hi'
    ensures Step(a, b, live, ino, lo, hi')
  {
  }

  lemma OthersSameTransitive(a: Image, b: Image, c: Image, live: set<nat>, ino: nat)
    requires Owned(a, live) && OthersSame(a, b, live, ino) && OthersSame(b, c, live, ino)
    ensures OthersSame(a, c, live, ino)
  {
    assert forall t: Slot :: Live(a, live, t) ==> Live(b, live, t);
  }

  lemma OthersSameContents(a: Image, b: Image, live: set<nat>, ino: nat, i: nat)
    requires Sound(a, live) && OthersSame(a, b, live, ino) && i in live && i != ino
    ensures b.inodes[i].size == a.inodes[i].size <= MAX_FILE_SIZE && Contents(b, i) == Contents(a, i)
  {
    forall k: nat | k < a.inodes[i].size
      ensures ByteAt(b, i, k) == ByteAt(a, i, k)
    {
      assert Live(a, live, Leaf(i, k / BLKSZ));
    }
  }

  lemma WriteLeafStep(b: Image, c: Image, live: set<nat>, ino: nat, blkno: nat, at: nat, t: seq<Byte>)
    requires Sound(b, live) && ino in live && blkno < MAX_BLOCKS && at + |t| <= BLKSZ
    requires 0 < Val(b, Leaf(ino, blkno)) < |b.data|
    requires var v := Val(b, Leaf(ino, blkno)); c == b.(data := b.data[v := Overwrite(b.data[v], at, t)])
    ensures Sound(c, live)
    ensures Step(b, c, live, ino, blkno * BLKSZ + at, blkno * BLKSZ + at + |t|)
    ensures forall k: nat :: blkno * BLKSZ + at <= k < blkno * BLKSZ + at + |t| ==>
              ByteAt(c, ino, k) == t[k - blkno * BLKSZ - at]
    ensures forall n :: MappedTo(b, ino, n) ==> MappedTo(c, ino, n)
    ensures forall n :: TrimTo(b, ino, n) ==> TrimTo(c, ino, n)
  {
    var s := Leaf(ino, blkno);
    assert Live(b, live, s);
    WriteLeaf(b, live, s, at, t);
    assert forall u: Slot :: Live(c, live, u) ==> Live(b, live, u);
    assert forall u: Slot :: u.ino == ino && u.InRange() ==> Live(b, live, u);
    SameValsNoLeaks(b, c, live);
    WriteLeafBytes(b, c, live, ino, blkno, at, t);
    GrewNothing(b, c, ino);
    WriteLeafInherited(b, c, live, ino, blkno, at, t);
  }

  lemma WriteLeafInherited(b: Image, c: Image, live: set<nat>, ino: nat, blkno: nat, at: nat, t: seq<Byte>)
    requires Sound(b, live) && ino in live && blkno < MAX_BLOCKS && at + |t| <= BLKSZ
    requires 0 < Val(b, Leaf(ino, blkno)) < |b.data|
    requires var v := Val(b, Leaf(ino, blkno)); c == b.(data := b.data[v := Overwrite(b.data[v], at, t)])
    requires forall u: Slot :: Live(b, live, u) ==> Val(c, u) == Val(b, u)
    requires forall j: nat :: j < MAX_FILE_SIZE && !(blkno * BLKSZ + at <= j < blkno * BLKSZ + at + |t|) ==>
               Val(b, Leaf(ino, j / BLKSZ)) != 0 ==> ByteAt(c, ino, j) == ByteAt(b, ino, j)
    ensures Inherited(b, c, ino, blkno * BLKSZ + at, blkno * BLKSZ + at + |t|)
  {
    hide Overwrite;
    assert Live(b, live, Leaf(ino, blkno));
    assert forall u: Slot :: u.ino == ino && u.InRange() ==> Live(b, live, u);
  }

  lemma SameValsNoLeaks(b: Image, c: Image, live: set<nat>)
    requires |c.inodes| == |b.inodes| && |c.data| == |b.data| && c.dataBits == b.dataBits
    requires forall u: Slot :: Live(b, live, u) ==> Val(c, u) == Val(b, u)
    ensures NoLeaks(b, live) ==> NoLeaks(c, live)
  {
    assert forall u: Slot :: Live(c, live, u) ==> Live(b, live, u);
    assert forall u: Slot, v :: Refers(b, live, u, v) ==> Refers(c, live, u, v);
    assert forall u: Slot, v :: Refers(c, live, u, v) ==> Refers(b, live, u, v);
  }

  lemma WriteLeafBytes(b: Image, c: Image, live: set<nat>, ino: nat, blkno: nat, at: nat, t: seq<Byte>)
    requires Sound(b, live) && ino in live && blkno < MAX_BLOCKS && at + |t| <= BLKSZ
    requires 0 < Val(b, Leaf(ino, blkno)) < |b.data|
    requires var v := Val(b, Leaf(ino, blkno)); c == b.(data := b.data[v := Overwrite(b.data[v], at, t)])
    requires forall u: Slot :: Live(b, live, u) ==> Val(c, u) == Val(b, u)
    ensures forall k: nat :: blkno * BLKSZ + at <= k < blkno * BLKSZ + at + |t| ==>
              ByteAt(c, ino, k) == t[k - blkno * BLKSZ - at]
    ensures forall j: nat :: j < MAX_FILE_SIZE && !(blkno * BLKSZ + at <= j < blkno * BLKSZ + at + |t|) ==>
              Val(b, Leaf(ino, j / BLKSZ)) != 0 ==> ByteAt(c, ino, j) == ByteAt(b, ino, j)
  {
    var s := Leaf(ino, blkno);
    assert Live(b, live, s);
    forall k: nat | blkno * BLKSZ + at <= k < blkno * BLKSZ + at + |t|
      ensures ByteAt(c, ino, k) == t[k - blkno * BLKSZ - at]
    {
      assert k / BLKSZ == blkno && k % BLKSZ == k - blkno * BLKSZ;
    }
    forall j: nat | j < MAX_FILE_SIZE && !(blkno * BLKSZ + at <= j < blkno * BLKSZ + at + |t|)
                    && Val(b, Leaf(ino, j / BLKSZ)) != 0
      ensures ByteAt(c, ino, j) == ByteAt(b, ino, j)
    {
      var u := Leaf(ino, j / BLKSZ);
      assert Live(b, live, u);
      if j / BLKSZ == blkno {
        assert j % BLKSZ == j - blkno * BLKSZ;
      } else {
        assert u != s;
        assert Val(b, u) != Val(b, s);
      }
    }
  }

  ghost predicate Full(img: Image) {
    forall u :: 0 <= u < |img.dataBits| ==> img.dataBits[u]
  }

  lemma GrownKeepsMapped(a: Image, b: Image, live: set<nat>, path: set<Slot>)
    requires Mapped(a, live) && Grown(a, b, live, path)
    ensures Mapped(b, live)
  {
    forall s: Slot | Live(b, live, s) && FirstBlock(s) < NumBlocks(b.inodes[s.ino].size)
      ensures Val(b, s) != 0
    {
      assert Live(a, live, s);
    }
  }

  /** From `a` to `b`, `bytes` was written to file `ino` at offset `start`, and nothing else changed. */
  ghost predicate Written(a: Image, b: Image, live: set<nat>, ino: nat, start: nat, bytes: seq<Byte>) {
    && Step(a, b, live, ino, start, start + |bytes|)
    && MappedTo(b, ino, NumBlocks(Max(a.inodes[ino].size, start + |bytes|)))
    && (bytes != [] ==> start + |bytes| <= MAX_FILE_SIZE)
    && (forall k: nat :: start <= k < start + |bytes| ==> ByteAt(b, ino, k) == bytes[k - start])
    && (start <= a.inodes[ino].size && TrimTo(a, ino, NumBlocks(a.inodes[ino].size)) ==>
          TrimTo(b, ino, NumBlocks(Max(a.inodes[ino].size, start + |bytes|))))
  }

  /** One turn of the copy loop. */
  lemma WrittenMore(a: Image, b: Image, c: Image, live: set<nat>, ino: nat, start: nat, done: seq<Byte>, chunk: seq<Byte>)
    requires Owned(a, live) && Sound(b, live) && ino in live
    requires Written(a, b, live, ino, start, done)
    requires var pos := start + |done|;
      && 0 < |chunk| <= BLKSZ - pos % BLKSZ && pos + |chunk| <= MAX_FILE_SIZE
      && Step(b, c, live, ino, pos, pos + |chunk|)
      && Extends(b, c, ino, pos / BLKSZ)
      && (forall k: nat :: pos <= k < pos + |chunk| ==> ByteAt(c, ino, k) == chunk[k - pos])
    ensures Written(a, c, live, ino, start, done + chunk)
  {
    hide Owned, Sound, Step, Extends, MappedTo, TrimTo, ByteAt;
    StepSizes(a, b, live, ino, start, start + |done|);
    StepSizes(b, c, live, ino, start + |done|, start + |done| + |chunk|);
    MappedFile(b, live, ino);
    var size, pos := a.inodes[ino].size, start + |done|;
    StepTransitive(a, b, c, live, ino, start, pos, pos + |chunk|);
    forall k: nat | start <= k < pos
      ensures ByteAt(c, ino, k) == done[k - start]
    {
      ByteStays(b, c, live, ino, pos, pos + |chunk|, Max(size, pos), k);
    }
    NumBlocksStep(Max(size, pos), Max(size, pos + |chunk|), pos, |chunk|);
    ExtendsTo(b, c, ino, pos / BLKSZ, NumBlocks(Max(size, pos)));
  }

  lemma StepSizes(a: Image, b: Image, live: set<nat>, ino: nat, lo: nat, hi: nat)
    requires Step(a, b, live, ino, lo, hi)
    ensures ino < |a.inodes| == |b.inodes| && b.inodes[ino].size == a.inodes[ino].size
  {
    hide Inherited, Grew, OthersSame, NoLeaks;
  }

  lemma ByteStays(b: Image, c: Image, live: set<nat>, ino: nat, lo: nat, hi: nat, size: nat, k: nat)
    requires Step(b, c, live, ino, lo, hi) && MappedTo(b, ino, NumBlocks(size)) && size <= MAX_FILE_SIZE
    requires k < size && !(lo <= k < hi)
    ensures ByteAt(c, ino, k) == ByteAt(b, ino, k)
  {
    hide Inherited, Grew, OthersSame, NoLeaks, ByteAt, Val;
    assert Serves(Leaf(ino, k / BLKSZ), ino, NumBlocks(size));
  }

  lemma ExtendsTo(b: Image, c: Image, ino: nat, blkno: nat, n: nat)
    requires Extends(b, c, ino, blkno) && blkno <= n
    ensures var m := if n == blkno then n + 1 else n;
      (MappedTo(b, ino, n) ==> MappedTo(c, ino, m)) && (TrimTo(b, ino, n) ==> TrimTo(c, ino, m))
  {
    hide MappedTo, TrimTo;
  }

  lemma WrittenNothing(a: Image, live: set<nat>, ino: nat, start: nat)
    requires ino < |a.inodes| && MappedTo(a, ino, NumBlocks(Max(a.inodes[ino].size, start)))
    ensures Written(a, a, live, ino, start, [])
  {
  }

  lemma WrittenStep(a: Image, b: Image, live: set<nat>, ino: nat, start: nat, bytes: seq<Byte>)
    requires Written(a, b, live, ino, start, bytes)
    ensures Step(a, b, live, ino, start, start + |bytes|)
    ensures bytes != [] ==> start + |bytes| <= MAX_FILE_SIZE
  {
  }

  lemma NumBlocksStep(m: nat, m': nat, pos: nat, c: nat)
    requires pos <= m && 0 < c <= BLKSZ - pos % BLKSZ && m' == Max(m, pos + c)
    ensures pos / BLKSZ <= NumBlocks(m)
    ensures NumBlocks(m') == if NumBlocks(m) == pos / BLKSZ then NumBlocks(m) + 1 else NumBlocks(m)
  {
  }

  // ---------------------------------------------------------------- file sizes

  function WithSize(img: Image, ino: nat, n: nat): Image
    requires ino < |img.inodes|
  {
    img.(inodes := img.inodes[ino := img.inodes[ino].(size := n)])
  }

  lemma SetSize(img: Image, live: set<nat>, ino: nat, n: nat)
    requires Sound(img, live) && ino in live && n <= MAX_FILE_SIZE && MappedTo(img, ino, NumBlocks(n))
    ensures Sound(WithSize(img, ino, n), live) && OthersSame(img, WithSize(img, ino, n), live, ino)
    ensures forall t: Slot :: Live(img, live, t) ==> Val(WithSize(img, ino, n), t) == Val(img, t)
    ensures forall k: nat :: k < MAX_FILE_SIZE ==> ByteAt(WithSize(img, ino, n), ino, k) == ByteAt(img, ino, k)
    ensures NoLeaks(img, live) ==> NoLeaks(WithSize(img, ino, n), live)
    ensures forall m :: TrimTo(img, ino, m) ==> TrimTo(WithSize(img, ino, n), ino, m)
    ensures forall m :: MappedTo(img, ino, m) ==> MappedTo(WithSize(img, ino, n), ino, m)
  {
    var img' := WithSize(img, ino, n);
    assert forall t: Slot :: t.InRange() && t.ino < |img.inodes| ==> Val(img', t) == Val(img, t);
    assert forall t: Slot :: Live(img', live, t) ==> Live(img, live, t);
    SameValsNoLeaks(img, img', live);
  }

  /** `after` is `before` with `buf` stored at `at`; a gap below `at` is zero up to the end of the last
      block `before` had, and holds whatever its blocks held beyond that. */
  ghost predicate Stored(before: seq<Byte>, at: nat, buf: seq<Byte>, after: seq<Byte>) {
    && |after| == Max(|before|, at + |buf|)
    && (forall k :: at <= k < at + |buf| ==> after[k] == buf[k - at])
    && (forall k :: 0 <= k < |before| && !(at <= k < at + |buf|) ==> after[k] == before[k])
    && (forall k :: |before| <= k < at && k / BLKSZ < NumBlocks(|before|) ==> after[k] == 0)
  }

  /** Where the zeroed rest of the last block ends, for a file of `size` bytes that is to reach `at`. */
  function TailEnd(size: nat, at: nat): nat {
    Min(at, NumBlocks(size) * BLKSZ)
  }

  /** From `a` to `b`, the file's blocks reach up to `at`, past its end, and the rest of its last block is zero. */
  ghost predicate GapFilled(a: Image, b: Image, live: set<nat>, ino: nat, at: nat) {
    && ino < |a.inodes| && Step(a, b, live, ino, a.inodes[ino].size, TailEnd(a.inodes[ino].size, at))
    && MappedTo(b, ino, NumBlocks(at)) && a.inodes[ino].size < at <= MAX_FILE_SIZE
    && (forall k: nat :: a.inodes[ino].size <= k < at && k / BLKSZ < NumBlocks(a.inodes[ino].size) ==> ByteAt(b, ino, k) == 0)
    && (TrimTo(a, ino, NumBlocks(a.inodes[ino].size)) ==> TrimTo(b, ino, NumBlocks(at)))
  }

  /** `b` is ready for a store at `at`: the file of `a`, extended up to `at` if it ended before. */
  ghost predicate Positioned(a: Image, b: Image, live: set<nat>, ino: nat, at: nat) {
    && OthersSame(a, b, live, ino) && b.inodeBits == a.inodeBits && (NoLeaks(a, live) ==> NoLeaks(b, live))
    && ino < |a.inodes| && b.inodes[ino].size == Max(a.inodes[ino].size, at)
    && (forall k: nat :: k < a.inodes[ino].size && k < MAX_FILE_SIZE ==> ByteAt(b, ino, k) == ByteAt(a, ino, k))
    && (forall k: nat :: a.inodes[ino].size <= k < at && k / BLKSZ < NumBlocks(a.inodes[ino].size) && k < MAX_FILE_SIZE ==>
          ByteAt(b, ino, k) == 0)
    && Shows(a, b, ino, NumBlocks(a.inodes[ino].size) * BLKSZ, at) && Grew(a, b, ino) && PlacesKept(a, b, ino)
    && (Trim(a, ino) ==> Trim(b, ino))
  }

  /** From `a` to `b`, every block the file had is where it was. */
  ghost predicate PlacesKept(a: Image, b: Image, ino: nat) {
    && ino < |a.inodes| == |b.inodes|
    && forall t: Slot :: t.ino == ino && t.InRange() && Val(a, t) != 0 ==> Val(b, t) == Val(a, t)
  }

  lemma StepPlaces(a: Image, b: Image, live: set<nat>, ino: nat, lo: nat, hi: nat)
    requires Step(a, b, live, ino, lo, hi)
    ensures PlacesKept(a, b, ino)
  {
    hide Grew, Inherited, OthersSame, NoLeaks;
  }

  /** Bytes `from` to `to` of the file are the ones that growth exposed: what the blocks it took held before. */
  ghost predicate Shows(a: Image, b: Image, ino: nat, from: nat, to: nat) {
    && ino < |a.inodes| && ino < |b.inodes|
    && forall k: nat :: from <= k < to && k < MAX_FILE_SIZE ==> ByteAt(b, ino, k) == Exposed(a, ino, k)
  }

  lemma StepShows(a: Image, b: Image, live: set<nat>, ino: nat, lo: nat, hi: nat, from: nat, to: nat)
    requires Sound(b, live) && ino in live && Step(a, b, live, ino, lo, hi) && (hi <= from || lo == hi)
    requires MappedTo(b, ino, NumBlocks(to)) && to <= MAX_FILE_SIZE
    ensures Shows(a, b, ino, from, to)
  {
    hide Grew, OthersSame, NoLeaks, Mapped, Shape;
    forall k: nat | from <= k < to
      ensures ByteAt(b, ino, k) == Exposed(a, ino, k)
    {
      var leaf := Leaf(ino, k / BLKSZ);
      assert Serves(leaf, ino, NumBlocks(to));
      assert Live(b, live, leaf);
      GrewBlock(a, b, ino, k / BLKSZ);
    }
  }

  lemma AlreadyPositioned(a: Image, live: set<nat>, ino: nat, at: nat)
    requires Sound(a, live) && ino in live && at <= a.inodes[ino].size
    ensures Positioned(a, a, live, ino, at)
  {
    GrewNothing(a, a, ino);
  }

  lemma MappedFile(a: Image, live: set<nat>, ino: nat)
    requires Sound(a, live) && ino in live
    ensures ino < |a.inodes| && MappedTo(a, ino, NumBlocks(a.inodes[ino].size)) && a.inodes[ino].size <= MAX_FILE_SIZE
  {
  }

  lemma GapPositioned(a: Image, b: Image, live: set<nat>, ino: nat, at: nat)
    requires Sound(a, live) && Sound(b, live) && ino in live && GapFilled(a, b, live, ino, at)
    ensures WithSize(b, ino, at).inodes[ino].size == at && Sound(WithSize(b, ino, at), live)
    ensures Positioned(a, WithSize(b, ino, at), live, ino, at)
  {
    hide Grew, Sound, OthersSame, NoLeaks, Exposed, Inherited, BytesKept, MappedTo, Val;
    MappedFile(a, live, ino);
    MappedFile(b, live, ino);
    var c, size := WithSize(b, ino, at), a.inodes[ino].size;
    SetSize(b, live, ino, at);
    SmallStepBytes(a, b, live, ino, size, TailEnd(size, at));
    StepShows(a, b, live, ino, size, TailEnd(size, at), NumBlocks(size) * BLKSZ, at);
    SoundOwned(a, live);
    OthersSameTransitive(a, b, c, live, ino);
    SizeGrew(a, b, ino, at);
    StepPlaces(a, b, live, ino, size, TailEnd(size, at));
    SizePlaces(b, ino, at);
    if Trim(a, ino) {
      assert TrimTo(a, ino, NumBlocks(size));
      assert TrimTo(c, ino, NumBlocks(at));
    }
  }

  lemma SizePlaces(b: Image, ino: nat, n: nat)
    requires ino < |b.inodes|
    ensures forall t: Slot :: t.ino == ino && t.InRange() ==> Val(WithSize(b, ino, n), t) == Val(b, t)
  {
  }

  lemma SizeGrew(a: Image, b: Image, ino: nat, n: nat)
    requires Grew(a, b, ino)
    ensures ino < |b.inodes| && Grew(a, WithSize(b, ino, n), ino)
  {
    hide Grew;
    GrewSizes(a, b, ino);
    var c := WithSize(b, ino, n);
    assert forall t: Slot :: t.ino == ino && t.InRange() ==> Val(c, t) == Val(b, t);
    GrewNothing(b, c, ino);
    GrewTransitive(a, b, c, ino);
  }

  lemma GrewSizes(a: Image, b: Image, ino: nat)
    requires Grew(a, b, ino)
    ensures ino < |a.inodes| == |b.inodes|
  {
  }

  lemma SmallStepBytes(a: Image, b: Image, live: set<nat>, ino: nat, lo: nat, hi: nat)
    requires Sound(a, live) && ino in live && Step(a, b, live, ino, lo, hi)
    ensures forall k: nat :: k < a.inodes[ino].size && !(lo <= k < hi) ==> k < MAX_FILE_SIZE && ByteAt(b, ino, k) == ByteAt(a, ino, k)
  {
    hide Grew, Inherited, OthersSame, NoLeaks;
    forall k: nat | k < a.inodes[ino].size && !(lo <= k < hi)
      ensures k < MAX_FILE_SIZE && ByteAt(b, ino, k) == ByteAt(a, ino, k)
    {
      assert Live(a, live, Leaf(ino, k / BLKSZ));
    }
  }

  /** The two parts of the gap branch: `m` is the state after the last block was zeroed from the end of file on. */
  lemma GapDone(a: Image, m: Image, b: Image, live: set<nat>, ino: nat, at: nat)
    requires Sound(a, live) && Sound(m, live) && ino in live && a.inodes[ino].size < at <= MAX_FILE_SIZE
    requires var end := TailEnd(a.inodes[ino].size, at);
      Step(a, m, live, ino, a.inodes[ino].size, end) && Step(m, b, live, ino, end, end)
    requires forall k: nat :: a.inodes[ino].size <= k < at && k / BLKSZ < NumBlocks(a.inodes[ino].size) ==> ByteAt(m, ino, k) == 0
    requires MappedTo(b, ino, NumBlocks(at))
    requires TrimTo(a, ino, NumBlocks(a.inodes[ino].size)) ==> TrimTo(b, ino, NumBlocks(at))
    ensures GapFilled(a, b, live, ino, at)
  {
    hide Grew, Inherited;
    var size := a.inodes[ino].size;
    var end := TailEnd(size, at);
    StepTransitive(a, m, b, live, ino, size, end, end);
    forall k: nat | size <= k < at && k / BLKSZ < NumBlocks(size)
      ensures ByteAt(b, ino, k) == 0
    {
      assert Live(m, live, Leaf(ino, k / BLKSZ));
    }
  }

  /** A store at `at` that ran out of blocks keeps the bytes below `at`; it may have made the file reach `at`. */
  ghost predicate FailedStore(a: Image, b: Image, ino: nat, at: nat) {
    && ino < |a.inodes| && a.inodes[ino].size <= MAX_FILE_SIZE
    && ino < |b.inodes| && b.inodes[ino].size <= MAX_FILE_SIZE
    && (b.inodes[ino].size == a.inodes[ino].size || b.inodes[ino].size == at > a.inodes[ino].size)
    && (forall k :: 0 <= k < a.inodes[ino].size && k < at ==> Contents(b, ino)[k] == Contents(a, ino)[k])
  }

  lemma GapFailed(a: Image, b: Image, live: set<nat>, ino: nat, at: nat)
    requires Sound(a, live) && Sound(b, live) && ino in live
    requires Step(a, b, live, ino, a.inodes[ino].size, at)
    ensures Kept(a, b, live, ino) && FailedStore(a, b, ino, at) && Grew(a, b, ino)
  {
    hide Grew, Inherited;
    SmallStepBytes(a, b, live, ino, a.inodes[ino].size, at);
  }

  /** The outcome of a store, from the state before it, the state after the gap and after the copy loop. */
  lemma StoreResult(a: Image, b: Image, c: Image, live: set<nat>, ino: nat, at: nat, buf: seq<Byte>)
    requires Sound(a, live) && Sound(b, live) && Sound(c, live) && ino in live && buf != []
    requires Positioned(a, b, live, ino, at) && Written(b, c, live, ino, at, buf)
    ensures
      var d := if at + |buf| > c.inodes[ino].size then WithSize(c, ino, at + |buf|) else c;
      && Sound(d, live) && Kept(a, d, live, ino)
      && a.inodes[ino].size <= MAX_FILE_SIZE && d.inodes[ino].size <= MAX_FILE_SIZE
      && Stored(Contents(a, ino), at, buf, Contents(d, ino))
      && Shows(a, d, ino, NumBlocks(a.inodes[ino].size) * BLKSZ, at) && Grew(a, d, ino)
      && (Trim(a, ino) ==> Trim(d, ino))
  {
    hide Owned, OthersSame, NoLeaks, Shape, Mapped, BytesKept, ByteAt, Val, Stored, Inherited, Grew, Shows;
    MappedFile(a, live, ino);
    MappedFile(b, live, ino);
    MappedFile(c, live, ino);
    var d := if at + |buf| > c.inodes[ino].size then WithSize(c, ino, at + |buf|) else c;
    var size := b.inodes[ino].size;
    assert MappedTo(c, ino, NumBlocks(Max(size, at + |buf|))) && c.inodes[ino].size == size;
    SetSize(c, live, ino, Max(size, at + |buf|));
    assert WithSize(c, ino, size) == c;
    StoreBytes(a, b, c, d, live, ino, at, buf);
    StoreShows(a, b, c, d, live, ino, at, buf);
    StoreGrew(a, b, c, live, ino, at, at + |buf|);
    SizeGrew(a, c, ino, Max(size, at + |buf|));
    StoreOthers(a, b, c, d, live, ino, at, at + |buf|);
    if Trim(a, ino) {
      assert TrimTo(b, ino, NumBlocks(size));
      assert TrimTo(d, ino, NumBlocks(Max(size, at + |buf|)));
    }
  }

  lemma StoreShows(a: Image, b: Image, c: Image, d: Image, live: set<nat>, ino: nat, at: nat, buf: seq<Byte>)
    requires Sound(a, live) && Sound(b, live) && ino in live && buf != []
    requires Positioned(a, b, live, ino, at) && Written(b, c, live, ino, at, buf) && |d.inodes| == |c.inodes|
    requires forall k: nat :: k < MAX_FILE_SIZE ==> ByteAt(d, ino, k) == ByteAt(c, ino, k)
    ensures Shows(a, d, ino, NumBlocks(a.inodes[ino].size) * BLKSZ, at)
  {
    hide Owned, OthersSame, NoLeaks, Shape, Trim, MappedTo, TrimTo, Inherited, Grew, ByteAt, Exposed;
    SmallStepBytes(b, c, live, ino, at, at + |buf|);
  }

  lemma StoreGrew(a: Image, b: Image, c: Image, live: set<nat>, ino: nat, lo: nat, hi: nat)
    requires Grew(a, b, ino) && Step(b, c, live, ino, lo, hi)
    ensures Grew(a, c, ino)
  {
    hide Grew, Inherited, OthersSame, NoLeaks;
    GrewTransitive(a, b, c, ino);
  }

  lemma StoreOthers(a: Image, b: Image, c: Image, d: Image, live: set<nat>, ino: nat, lo: nat, hi: nat)
    requires Owned(a, live)
    requires Step(b, c, live, ino, lo, hi)
    requires OthersSame(a, b, live, ino) && OthersSame(c, d, live, ino)
    ensures OthersSame(a, d, live, ino)
  {
    OthersSameTransitive(a, b, c, live, ino);
    OthersSameTransitive(a, c, d, live, ino);
  }

  lemma StoreBytes(a: Image, b: Image, c: Image, d: Image, live: set<nat>, ino: nat, at: nat, buf: seq<Byte>)
    requires Sound(a, live) && Sound(b, live) && ino in live && buf != []
    requires Positioned(a, b, live, ino, at) && Written(b, c, live, ino, at, buf)
    requires |d.inodes| == |c.inodes| && d.inodes[ino].size == Max(b.inodes[ino].size, at + |buf|) <= MAX_FILE_SIZE
    requires forall k: nat :: k < MAX_FILE_SIZE ==> ByteAt(d, ino, k) == ByteAt(c, ino, k)
    ensures Stored(Contents(a, ino), at, buf, Contents(d, ino))
  {
    hide Owned, OthersSame, NoLeaks, Shape, Trim, MappedTo, TrimTo, Inherited, Grew, Shows;
    SmallStepBytes(b, c, live, ino, at, at + |buf|);
  }

  /** A failed store leaves the bytes below its position. */
  lemma StoreFailed(a: Image, b: Image, c: Image, live: set<nat>, ino: nat, at: nat, n: nat)
    requires Sound(a, live) && Sound(b, live) && Sound(c, live) && ino in live
    requires Positioned(a, b, live, ino, at) && Step(b, c, live, ino, at, at + n)
    ensures Kept(a, c, live, ino) && FailedStore(a, c, ino, at) && Grew(a, c, ino)
    ensures at <= a.inodes[ino].size ==> FailureExact(a, c, live, ino)
  {
    hide Grew, Inherited, Shows, PlacesKept, FailureExact;
    StoreGrew(a, b, c, live, ino, at, at + n);
    OthersSameTransitive(a, b, c, live, ino);
    SmallStepBytes(b, c, live, ino, at, at + n);
    if at <= a.inodes[ino].size {
      StepPlaces(b, c, live, ino, at, at + n);
      PlacesTransitive(a, b, c, ino);
      FailureIsExact(a, c, live, ino);
    }
  }

  // ---------------------------------------------------------------- blocks beyond the end

  /** No block is marked without being referenced, and the file has no block beyond its end. */
  ghost predicate Tidy(img: Image, live: set<nat>, ino: nat) {
    NoLeaks(img, live) && Trim(img, ino)
  }

  /** A call that failed leaves blocks beyond the end, or blocks nothing refers to, exactly when it took a block. */
  ghost predicate FailureExact(a: Image, d: Image, live: set<nat>, ino: nat) {
    Tidy(a, live, ino) ==> (Tidy(d, live, ino) <==> d.dataBits == a.dataBits)
  }

  lemma PlacesTransitive(a: Image, b: Image, c: Image, ino: nat)
    requires PlacesKept(a, b, ino) && PlacesKept(b, c, ino)
    ensures PlacesKept(a, c, ino)
  {
    hide Val;
  }

  /** With nothing leaked, the block map of the live files decides the whole bitmap. */
  lemma BitmapFollowsTrees(a: Image, d: Image, live: set<nat>)
    requires Shape(a) && Shape(d) && |d.inodes| == |a.inodes| && |d.data| == |a.data| && |d.dataBits| == |a.dataBits|
    requires NoLeaks(a, live) && NoLeaks(d, live)
    requires forall t: Slot :: Live(a, live, t) ==> Val(d, t) == Val(a, t)
    ensures d.dataBits == a.dataBits
  {
    forall v | 0 <= v < |a.dataBits|
      ensures d.dataBits[v] == a.dataBits[v]
    {
      if 0 < v < |a.data| {
        if Used(a, live, v) {
          var s :| Refers(a, live, s, v);
          assert Refers(d, live, s, v);
        }
        if Used(d, live, v) {
          var s :| Refers(d, live, s, v);
          assert Refers(a, live, s, v);
        }
      }
    }
  }

  /** Two trim states of a file of the same size have the same blocks, hence the same bitmap. */
  lemma TidySameBits(a: Image, d: Image, live: set<nat>, ino: nat)
    requires Sound(a, live) && Sound(d, live) && ino in live && Tidy(a, live, ino) && Tidy(d, live, ino)
    requires OthersSame(a, d, live, ino) && PlacesKept(a, d, ino) && d.inodes[ino].size == a.inodes[ino].size
    ensures d.dataBits == a.dataBits
  {
    hide Owned, Mapped, NoLeaks;
    forall t: Slot | Live(a, live, t)
      ensures Val(d, t) == Val(a, t)
    {
    }
    BitmapFollowsTrees(a, d, live);
  }

  /** A file that took no block has the slots it had. */
  lemma UngrownSlots(a: Image, d: Image, ino: nat)
    requires Grew(a, d, ino) && PlacesKept(a, d, ino) && d.dataBits == a.dataBits
    ensures forall t: Slot :: t.ino == ino && t.InRange() ==> Val(d, t) == Val(a, t)
  {
    hide Val, AbsentSlots, NthFree, TakeFirst, FreeCount;
    AbsentIs(a, ino, MAX_BLOCKS);
    AbsentIs(d, ino, MAX_BLOCKS);
    var s, s' := AbsentSlots(a, ino, MAX_BLOCKS), AbsentSlots(d, ino, MAX_BLOCKS);
    assert s' <= s && Lacking(d, ino, MAX_BLOCKS) == Lacking(a, ino, MAX_BLOCKS);
    SameSize(s', s);
    forall t: Slot | t.ino == ino && t.InRange() && Val(a, t) == 0
      ensures Val(d, t) == 0
    {
      FirstBlockPath(t);
      assert t in s;
    }
  }

  lemma SameSize(s: set<Slot>, t: set<Slot>)
    requires s <= t && |s| == |t|
    ensures s == t
  {
    assert t == s + (t - s) && |t| == |s| + |t - s|;
  }

  lemma FailureIsExact(a: Image, d: Image, live: set<nat>, ino: nat)
    requires Sound(a, live) && Sound(d, live) && ino in live && Grew(a, d, ino) && PlacesKept(a, d, ino)
    requires OthersSame(a, d, live, ino) && d.inodes[ino].size == a.inodes[ino].size
    requires NoLeaks(a, live) ==> NoLeaks(d, live)
    ensures FailureExact(a, d, live, ino)
  {
    if Tidy(a, live, ino) {
      if Tidy(d, live, ino) {
        TidySameBits(a, d, live, ino);
      }
      if d.dataBits == a.dataBits {
        UngrownSlots(a, d, ino);
      }
    }
  }

  /** Cutting a file leaves blocks beyond its end exactly when it then needs fewer blocks. */
  lemma CutIsExact(a: Image, live: set<nat>, ino: nat, n: nat)
    requires Sound(a, live) && ino in live && ino < |a.inodes| && n <= a.inodes[ino].size && Tidy(a, live, ino)
    ensures Tidy(WithSize(a, ino, n), live, ino) <==> NumBlocks(n) == NumBlocks(a.inodes[ino].size)
  {
    hide Owned, NoLeaks, Shape;
    var d, m := WithSize(a, ino, n), NumBlocks(n);
    MappedFile(a, live, ino);
    SetSize(a, live, ino, n);
    SizePlaces(a, ino, n);
    if m < NumBlocks(a.inodes[ino].size) {
      assert FirstBlock(Leaf(ino, m)) == m;
      assert Val(d, Leaf(ino, m)) != 0;
    }
  }

  /** A store at or below the end of file is a splice. */
  lemma StoredIsSplice(before: seq<Byte>, at: nat, buf: seq<Byte>, after: seq<Byte>)
    requires at <= |before| && Stored(before, at, buf, after)
    ensures after == Splice(before, at, buf)
  {
  }

  /** ktfs_cntl drops its private inode copy when it runs out of blocks: `c` is `b` with the inode of `a`. */
  lemma DiscardInode(a: Image, b: Image, live: set<nat>, ino: nat, p: nat)
    requires Sound(a, live) && Sound(b, live) && ino in live && Step(a, b, live, ino, p, p)
    ensures ino < |a.inodes| == |b.inodes|
    ensures var c := b.(inodes := b.inodes[ino := a.inodes[ino]]);
      && Sound(c, live) && OthersSame(a, c, live, ino) && c.inodeBits == a.inodeBits
      && (forall k: nat :: k < a.inodes[ino].size ==> k < MAX_FILE_SIZE && ByteAt(c, ino, k) == ByteAt(a, ino, k))
      && BlockLimit(c, ino) <= BlockLimit(a, ino)
  {
    hide Grew, Inherited, BlockLimit;
    DiscardLimit(a, b, live, ino, p);
    var c := b.(inodes := b.inodes[ino := a.inodes[ino]]);
    forall t: Slot | Live(c, live, t)
      ensures Live(b, live, t) && (Val(c, t) == Val(b, t) || Val(c, t) == 0)
      ensures Live(a, live, t) && (Val(a, t) != 0 ==> Val(c, t) == Val(b, t) == Val(a, t))
    {
      DiscardedVal(a, b, c, live, ino, t);
    }
    SmallStepBytes(a, b, live, ino, p, p);
    forall k: nat | k < a.inodes[ino].size
      ensures k < MAX_FILE_SIZE && ByteAt(c, ino, k) == ByteAt(a, ino, k)
    {
      assert Live(a, live, Leaf(ino, k / BLKSZ)) && Live(c, live, Leaf(ino, k / BLKSZ));
    }
    OthersSameTransitive(a, b, c, live, ino);
  }

  lemma DiscardIsExact(a: Image, b: Image, live: set<nat>, ino: nat, p: nat)
    requires Sound(a, live) && Sound(b, live) && ino in live && Step(a, b, live, ino, p, p)
    ensures ino < |a.inodes| == |b.inodes| && FailureExact(a, b.(inodes := b.inodes[ino := a.inodes[ino]]), live, ino)
  {
    hide Inherited, ByteAt, Mapped;
    var c := b.(inodes := b.inodes[ino := a.inodes[ino]]);
    DiscardInode(a, b, live, ino, p);
    StepPlaces(a, b, live, ino, p, p);
    hide Grew, BytesKept;
    forall t: Slot | t.ino == ino && t.InRange()
      ensures Val(c, t) == 0 || Val(c, t) == Val(b, t)
      ensures Val(a, t) != 0 ==> Val(c, t) == Val(a, t)
    {
      DiscardedVal(a, b, c, live, ino, t);
    }
    if Tidy(a, live, ino) {
      if Tidy(c, live, ino) {
        TidySameBits(a, c, live, ino);
      }
      if c.dataBits == a.dataBits {
        UngrownSlots(a, b, ino);
        assert forall t: Slot :: Live(a, live, t) ==> Val(c, t) == Val(a, t);
        SameValsNoLeaks(a, c, live);
      }
    }
  }

  lemma DiscardLimit(a: Image, b: Image, live: set<nat>, ino: nat, p: nat)
    requires Sound(a, live) && Sound(b, live) && ino in live && Step(a, b, live, ino, p, p)
    ensures ino < |a.inodes| == |b.inodes|
    ensures BlockLimit(b.(inodes := b.inodes[ino := a.inodes[ino]]), ino) <= BlockLimit(a, ino)
  {
    hide Grew, Inherited, BlockLimit, Lacking;
    var c := b.(inodes := b.inodes[ino := a.inodes[ino]]);
    GrewLimit(a, b, ino);
    var n := BlockLimit(c, ino);
    LimitIs(c, ino, n);
    LimitIs(b, ino, n);
    forall t: Slot | t.ino == ino && t.InRange()
      ensures Val(c, t) == 0 || Val(c, t) == Val(b, t)
    {
      DiscardedVal(a, b, c, live, ino, t);
    }
    LackingFewer(b, c, ino, n);
  }

  lemma LackingFewer(b: Image, c: Image, ino: nat, n: nat)
    requires ino < |b.inodes| && ino < |c.inodes| && n <= MAX_BLOCKS
    requires forall t: Slot :: t.ino == ino && t.InRange() ==> Val(c, t) == 0 || Val(c, t) == Val(b, t)
    ensures Lacking(b, ino, n) <= Lacking(c, ino, n)
  {
    hide Val, AbsentSlots;
    AbsentIs(b, ino, n);
    AbsentIs(c, ino, n);
    SubsetSize(AbsentSlots(b, ino, n), AbsentSlots(c, ino, n));
  }

  lemma DiscardedVal(a: Image, b: Image, c: Image, live: set<nat>, ino: nat, t: Slot)
    requires ino in live && ino < |a.inodes| == |b.inodes| && OthersSame(a, b, live, ino)
    requires forall u: Slot :: u.ino == ino && u.InRange() && Val(a, u) != 0 ==> Val(b, u) == Val(a, u)
    requires c == b.(inodes := b.inodes[ino := a.inodes[ino]]) && Live(c, live, t)
    ensures Live(b, live, t) && (Val(c, t) == Val(b, t) || Val(c, t) == 0)
    ensures Live(a, live, t) && (Val(a, t) != 0 ==> Val(c, t) == Val(b, t) == Val(a, t))
  {
    if t.ino == ino {
      match t {
        case IndLeaf(_, _) => assert Val(a, Ind(ino)) != 0 ==> Val(b, Ind(ino)) == Val(a, Ind(ino));
        case DindMid(_, d, _) => assert Val(a, Dind(ino, d)) != 0 ==> Val(b, Dind(ino, d)) == Val(a, Dind(ino, d));
        case DindLeaf(_, d, m, _) =>
          assert Val(a, Dind(ino, d)) != 0 ==> Val(b, Dind(ino, d)) == Val(a, Dind(ino, d));
          assert Val(a, DindMid(ino, d, m)) != 0 ==> Val(b, DindMid(ino, d, m)) == Val(a, DindMid(ino, d, m));
        case Direct(_, k) => assert Val(a, t) != 0 ==> Val(b, t) == Val(a, t);
        case Ind(_) => assert Val(a, t) != 0 ==> Val(b, t) == Val(a, t);
        case Dind(_, _) => assert Val(a, t) != 0 ==> Val(b, t) == Val(a, t);
      }
    }
  }

  /** `after` has `n` bytes and agrees with `before` as far as both go. */
  ghost predicate Resized(before: seq<Byte>, n: nat, after: seq<Byte>) {
    |after| == n && forall k :: 0 <= k < n && k < |before| ==> after[k] == before[k]
  }

  lemma SetEndResult(a: Image, b: Image, live: set<nat>, ino: nat, n: nat, p: nat)
    requires Sound(a, live) && Sound(b, live) && ino in live && Step(a, b, live, ino, p, p)
    requires n <= MAX_FILE_SIZE && MappedTo(b, ino, NumBlocks(n))
    ensures var d := WithSize(b, ino, n);
      && Sound(d, live) && Kept(a, d, live, ino)
      && a.inodes[ino].size <= MAX_FILE_SIZE && d.inodes[ino].size <= MAX_FILE_SIZE
      && Resized(Contents(a, ino), n, Contents(d, ino)) && Shows(a, d, ino, a.inodes[ino].size, n) && Grew(a, d, ino)
      && (n >= a.inodes[ino].size && TrimTo(b, ino, NumBlocks(n)) ==> Trim(d, ino))
  {
    hide Grew, Inherited, Exposed;
    SizeGrew(a, b, ino, n);
    StepShows(a, b, live, ino, p, p, a.inodes[ino].size, n);
    var d := WithSize(b, ino, n);
    SetSize(b, live, ino, n);
    SmallStepBytes(a, b, live, ino, p, p);
    OthersSameTransitive(a, b, d, live, ino);
    if TrimTo(b, ino, NumBlocks(n)) {
      assert TrimTo(d, ino, NumBlocks(n));
    }
  }
}
