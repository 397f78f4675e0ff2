/** The root directory: an array of 16-byte entries stored as the contents of the root inode's file. */
module KtfsEntries {
  import opened Machine
  import opened Results
  import opened KtfsImage
  import opened KtfsTree
  import opened KtfsGrowth
  import opened KtfsLimits
  import opened KtfsSteps

  const DENSZ := 16
  const PER_BLOCK := 32
  const NAME_LEN := 14

  /** The on-disk entry: inode number, then the name padded with zero bytes. */
  datatype Dentry = Dentry(inode: nat, name: seq<Byte>)

  function DentryAt(b: Block, e: nat): Dentry
    requires e < PER_BLOCK
  {
    Dentry(b[DENSZ * e] as int + 0x100 * (b[DENSZ * e + 1] as int), b[DENSZ * e + 2..DENSZ * e + DENSZ])
  }

  /** An entry is the number that its first two bytes encode and the fourteen bytes after them. */
  lemma DentryIsNumber(b: Block, e: nat)
    requires e < PER_BLOCK
    ensures DentryAt(b, e) == Dentry(LittleEndian(b[16 * e..16 * e + 2]), b[16 * e + 2..16 * e + 16])
  {
    LittleEndian2(b[16 * e..16 * e + 2]);
  }

  function DentryBytes(d: Dentry): seq<Byte>
    requires d.inode < 0x1_0000
  {
    [d.inode % 0x100, d.inode / 0x100] + d.name
  }

  lemma DentryRoundTrip(b: Block, e: nat, d: Dentry, e': nat)
    requires e < PER_BLOCK && e' < PER_BLOCK && d.inode < 0x1_0000 && |d.name| == NAME_LEN
    ensures DentryAt(Overwrite(b, DENSZ * e, DentryBytes(d)), e') == if e' == e then d else DentryAt(b, e')
  {
    var c := Overwrite(b, DENSZ * e, DentryBytes(d));
    assert forall k :: 0 <= k < BLKSZ && !(DENSZ * e <= k < DENSZ * e + DENSZ) ==> c[k] == b[k];
    assert forall k :: DENSZ * e <= k < DENSZ * e + DENSZ ==> c[k] == DentryBytes(d)[k - DENSZ * e];
    assert DentryAt(c, e').name == if e' == e then d.name else DentryAt(b, e').name;
  }

  // ---------------------------------------------------------------- names

  /** A C string held in a fixed-size array: the bytes before the first zero. */
  function CString(s: seq<Byte>): seq<Byte> {
    if s == [] || s[0] == 0 then [] else [s[0]] + CString(s[1..])
  }

  /** strncpy of a name into the entry's array. */
  function Padded(name: seq<Byte>): (s: seq<Byte>)
    requires |name| < NAME_LEN
    ensures |s| == NAME_LEN
  {
    name + seq(NAME_LEN - |name|, _ => 0)
  }

  lemma {:induction false} CStringOfPrefix(name: seq<Byte>, rest: seq<Byte>)
    requires 0 !in name && rest != [] && rest[0] == 0
    ensures CString(name + rest) == name
  {
    if name == [] {
      assert name + rest == rest;
    } else {
      assert (name + rest)[1..] == name[1..] + rest;
      CStringOfPrefix(name[1..], rest);
    }
  }

  lemma NameRoundTrip(name: seq<Byte>)
    requires |name| < NAME_LEN && 0 !in name
    ensures CString(Padded(name)) == name && 0 in Padded(name)
  {
    CStringOfPrefix(name, seq(NAME_LEN - |name|, _ => 0));
    assert Padded(name)[|name|] == 0;
  }

  // ---------------------------------------------------------------- entries

  /** Directory entry `n`: entry `n % 32` of file block `n / 32` of the root inode. */
  function EntryAt(img: Image, root: nat, n: nat): Dentry
    requires root < |img.inodes| && n / PER_BLOCK < MAX_BLOCKS
  {
    var b := Val(img, Leaf(root, n / PER_BLOCK));
    if b < |img.data| then DentryAt(img.data[b], n % PER_BLOCK) else Dentry(0, [])
  }

  function Count(img: Image, root: nat): nat
    requires root < |img.inodes|
  {
    img.inodes[root].size / DENSZ
  }

  function Entries(img: Image, root: nat): seq<Dentry>
    requires root < |img.inodes| && img.inodes[root].size <= MAX_FILE_SIZE
  {
    seq(Count(img, root), n requires 0 <= n < Count(img, root) => EntryAt(img, root, n))
  }

  lemma EntriesLength(img: Image, root: nat)
    requires root < |img.inodes| && img.inodes[root].size <= MAX_FILE_SIZE
    ensures |Entries(img, root)| == Count(img, root) <= MAX_FILE_SIZE / DENSZ
    ensures forall n :: 0 <= n < Count(img, root) ==> Entries(img, root)[n] == EntryAt(img, root, n)
  {
  }

  function NameOf(d: Dentry): seq<Byte> {
    CString(d.name)
  }

  /** Names are terminated and distinct, and every entry has a live inode of its own. */
  ghost predicate WellNamed(ents: seq<Dentry>, live: set<nat>, root: nat) {
    && (forall n :: 0 <= n < |ents| ==> |ents[n].name| == NAME_LEN && 0 in ents[n].name)
    && (forall n :: 0 <= n < |ents| ==> ents[n].inode in live && ents[n].inode != root && ents[n].inode < 0x1_0000)
    && (forall n, m :: 0 <= n < m < |ents| ==> NameOf(ents[n]) != NameOf(ents[m]) && ents[n].inode != ents[m].inode)
  }

  ghost predicate DirOk(img: Image, live: set<nat>, root: nat) {
    && root in live && Sound(img, live) && root < |img.inodes|
    && img.inodes[root].size <= MAX_FILE_SIZE && img.inodes[root].size % DENSZ == 0
    && WellNamed(Entries(img, root), live, root)
    && (forall i :: 0 <= i < |img.inodes| ==> (i in live <==> img.inodeBits[i]))
  }

  /** The last entry moved into the place of entry `n`. */
  function RemoveAt(ents: seq<Dentry>, n: nat): seq<Dentry>
    requires n < |ents|
  {
    ents[n := ents[|ents| - 1]][..|ents| - 1]
  }

  /** The directory as a map from names to inode numbers. */
  ghost function Names(ents: seq<Dentry>): map<seq<Byte>, nat> {
    if ents == [] then map[] else Names(ents[..|ents| - 1])[NameOf(ents[|ents| - 1]) := ents[|ents| - 1].inode]
  }

  ghost predicate DistinctNames(ents: seq<Dentry>) {
    forall n, m :: 0 <= n < m < |ents| ==> NameOf(ents[n]) != NameOf(ents[m])
  }

  ghost predicate Named(ents: seq<Dentry>, x: seq<Byte>, ino: nat) {
    exists n :: 0 <= n < |ents| && NameOf(ents[n]) == x && ents[n].inode == ino
  }

  /** The map holds a name exactly when some entry has it. */
  lemma {:induction false} NamesAt(ents: seq<Dentry>, x: seq<Byte>, ino: nat)
    requires DistinctNames(ents)
    ensures x in Names(ents) && Names(ents)[x] == ino <==> Named(ents, x, ino)
  {
    if ents != [] {
      var init, last := ents[..|ents| - 1], ents[|ents| - 1];
      NamesAt(init, x, ino);
      if Named(init, x, ino) {
        var n :| 0 <= n < |init| && NameOf(init[n]) == x && init[n].inode == ino;
        assert NameOf(ents[n]) == x;
      }
      if Named(ents, x, ino) {
        var n :| 0 <= n < |ents| && NameOf(ents[n]) == x && ents[n].inode == ino;
        if n < |init| {
          assert NameOf(init[n]) == x;
        }
      }
    }
  }

  lemma AppendNames(ents: seq<Dentry>, live: set<nat>, root: nat, d: Dentry)
    requires WellNamed(ents, live, root)
    requires |d.name| == NAME_LEN && 0 in d.name && d.inode < 0x1_0000 && d.inode !in live && d.inode != root
    requires forall n :: 0 <= n < |ents| ==> NameOf(ents[n]) != NameOf(d)
    ensures WellNamed(ents + [d], live + {d.inode}, root)
    ensures Names(ents + [d]) == Names(ents)[NameOf(d) := d.inode]
    ensures NameOf(d) !in Names(ents)
  {
    hide CString;
    assert (ents + [d])[..|ents|] == ents;
    if NameOf(d) in Names(ents) {
      NamesAt(ents, NameOf(d), Names(ents)[NameOf(d)]);
    }
  }

  lemma RemoveWellNamed(ents: seq<Dentry>, live: set<nat>, root: nat, n: nat)
    requires WellNamed(ents, live, root) && n < |ents|
    ensures WellNamed(RemoveAt(ents, n), live - {ents[n].inode}, root)
  {
  }

  lemma RemoveNamed(ents: seq<Dentry>, n: nat, x: seq<Byte>, ino: nat)
    requires DistinctNames(ents) && n < |ents|
    ensures Named(RemoveAt(ents, n), x, ino) <==> x != NameOf(ents[n]) && Named(ents, x, ino)
  {
    var rest, last := RemoveAt(ents, n), |ents| - 1;
    assert forall k :: 0 <= k < last ==> rest[k] == if k == n then ents[last] else ents[k];
    if Named(rest, x, ino) {
      var j :| 0 <= j < |rest| && NameOf(rest[j]) == x && rest[j].inode == ino;
      assert NameOf(ents[if j == n then last else j]) == x;
    }
    if x != NameOf(ents[n]) && Named(ents, x, ino) {
      var k :| 0 <= k < |ents| && NameOf(ents[k]) == x && ents[k].inode == ino;
      assert NameOf(rest[if k == last then n else k]) == x;
    }
  }

  lemma RemoveNamesAt(ents: seq<Dentry>, n: nat, x: seq<Byte>)
    requires DistinctNames(ents) && n < |ents| && DistinctNames(RemoveAt(ents, n))
    ensures var rest := RemoveAt(ents, n);
      && (x in Names(rest) <==> x in Names(ents) && x != NameOf(ents[n]))
      && (x in Names(rest) ==> x in Names(ents) && Names(rest)[x] == Names(ents)[x])
  {
    hide DistinctNames, Named, RemoveAt;
    var rest := RemoveAt(ents, n);
    if x in Names(rest) {
      var ino := Names(rest)[x];
      NamesAt(rest, x, ino);
      RemoveNamed(ents, n, x, ino);
      NamesAt(ents, x, ino);
    }
    if x in Names(ents) && x != NameOf(ents[n]) {
      var ino := Names(ents)[x];
      NamesAt(ents, x, ino);
      RemoveNamed(ents, n, x, ino);
      NamesAt(rest, x, ino);
    }
  }

  /** Deleting by moving the last entry into the hole forgets exactly the deleted name. */
  lemma RemoveNames(ents: seq<Dentry>, live: set<nat>, root: nat, n: nat)
    requires WellNamed(ents, live, root) && n < |ents|
    ensures WellNamed(RemoveAt(ents, n), live - {ents[n].inode}, root)
    ensures Names(RemoveAt(ents, n)) == Names(ents) - {NameOf(ents[n])}
  {
    RemoveWellNamed(ents, live, root, n);
    hide CString, Named;
    var kept := Names(ents) - {NameOf(ents[n])};
    forall x: seq<Byte>
      ensures x in Names(RemoveAt(ents, n)) <==> x in kept
      ensures x in kept ==> Names(RemoveAt(ents, n))[x] == kept[x]
    {
      RemoveNamesAt(ents, n, x);
    }
  }

  /** There are no more entries than inodes. */
  lemma EntriesBound(ents: seq<Dentry>, live: set<nat>, root: nat, limit: nat)
    requires WellNamed(ents, live, root) && forall i :: i in live ==> i < limit
    ensures |ents| <= limit
  {
    DistinctInodes(ents, |ents|);
    SetBound(set n | 0 <= n < |ents| :: ents[n].inode, limit);
  }

  lemma {:induction false} DistinctInodes(ents: seq<Dentry>, k: nat)
    requires k <= |ents|
    requires forall n, m :: 0 <= n < m < |ents| ==> ents[n].inode != ents[m].inode
    ensures |set n | 0 <= n < k :: ents[n].inode| == k
  {
    if k > 0 {
      DistinctInodes(ents, k - 1);
      assert (set n | 0 <= n < k :: ents[n].inode) == (set n | 0 <= n < k - 1 :: ents[n].inode) + {ents[k - 1].inode};
    }
  }

  lemma {:induction false} SetBound(s: set<nat>, limit: nat)
    requires forall i :: i in s ==> i < limit
    ensures |s| <= limit
  {
    if limit > 0 {
      SetBound(s - {limit - 1}, limit - 1);
    }
  }

  // ---------------------------------------------------------------- writing entries

  /** Number of entries a directory file can hold. */
  const DENTRY_LIMIT := MAX_BLOCKS * PER_BLOCK

  /** From `b` to `c`, entry `n` became `d` and nothing else changed. */
  ghost predicate EntrySet(b: Image, c: Image, live: set<nat>, root: nat, n: nat, d: Dentry) {
    && Sound(c, live) && Kept(b, c, live, root) && c.inodes == b.inodes && c.dataBits == b.dataBits
    && root < |b.inodes| && n < DENTRY_LIMIT && EntryAt(c, root, n) == d
    && (forall m: nat :: m < DENTRY_LIMIT && m != n && Val(b, Leaf(root, m / PER_BLOCK)) != 0 ==>
          EntryAt(c, root, m) == EntryAt(b, root, m))
    && (forall k :: MappedTo(b, root, k) ==> MappedTo(c, root, k))
    && (forall u: Slot :: Live(b, live, u) ==> Val(c, u) == Val(b, u))
  }

  lemma WriteEntry(b: Image, live: set<nat>, root: nat, n: nat, d: Dentry)
    requires Sound(b, live) && root in live && root < |b.inodes| && n < DENTRY_LIMIT
    requires 0 < Val(b, Leaf(root, n / PER_BLOCK)) < |b.data|
    requires d.inode < 0x1_0000 && |d.name| == NAME_LEN
    ensures var v := Val(b, Leaf(root, n / PER_BLOCK));
      EntrySet(b, b.(data := b.data[v := Overwrite(b.data[v], DENSZ * (n % PER_BLOCK), DentryBytes(d))]), live, root, n, d)
  {
    var s, at := Leaf(root, n / PER_BLOCK), DENSZ * (n % PER_BLOCK);
    var v := Val(b, s);
    var c := b.(data := b.data[v := Overwrite(b.data[v], at, DentryBytes(d))]);
    assert Live(b, live, s);
    WriteLeaf(b, live, s, at, DentryBytes(d));
    WriteLeafStep(b, c, live, root, n / PER_BLOCK, at, DentryBytes(d));
    DentryRoundTrip(b.data[v], n % PER_BLOCK, d, n % PER_BLOCK);
    forall m: nat | m < DENTRY_LIMIT && m != n && Val(b, Leaf(root, m / PER_BLOCK)) != 0
      ensures EntryAt(c, root, m) == EntryAt(b, root, m)
    {
      var t := Leaf(root, m / PER_BLOCK);
      assert Live(b, live, t);
      if t == s {
        assert m / PER_BLOCK == n / PER_BLOCK;
        DentryRoundTrip(b.data[v], n % PER_BLOCK, d, m % PER_BLOCK);
      }
    }
  }

  /** A byte offset `x` within file block `t` of the doubly-indirect region, cut down step by step. */
  lemma CutDown(t: nat, x: nat)
    requires x < BLKSZ
    ensures (BLKSZ * t + x) / 8388608 == t / 16384
    ensures (BLKSZ * (t % 16384) + x) / 65536 == t % 16384 / 128
    ensures (BLKSZ * (t % 128) + x) / BLKSZ == t % 128
    ensures BLKSZ * t + x - t / 16384 * 8388608 == BLKSZ * (t % 16384) + x
    ensures BLKSZ * (t % 16384) + x - t % 16384 / 128 * 65536 == BLKSZ * (t % 128) + x
  {
    var d, r := t / 16384, t % 16384;
    assert BLKSZ * t + x == 8388608 * d + (BLKSZ * r + x);
    CutOuter(BLKSZ * t + x, d, BLKSZ * r + x);
    var m, k := r / 128, r % 128;
    assert k == t % 128;
    assert BLKSZ * r + x == 65536 * m + (BLKSZ * k + x);
    CutInner(BLKSZ * r + x, m, BLKSZ * k + x);
  }

  lemma CutOuter(y: nat, d: nat, rest: nat)
    requires y == 8388608 * d + rest && rest < 8388608
    ensures y / 8388608 == d
  {
  }

  lemma CutInner(y: nat, m: nat, rest: nat)
    requires y == 65536 * m + rest && rest < 65536
    ensures y / 65536 == m
  {
  }

  /** Which block serves an entry that ends at byte `size` of the directory, by the size arithmetic of
      add_dentry and delete_dentry; it is the block get_dentry_at_index computes from the index. */
  lemma SlotBySize(root: nat, n: nat, size: nat)
    requires size == DENSZ * (n + 1) && n < DENTRY_LIMIT
    ensures (size - 1) / DENSZ % PER_BLOCK == n % PER_BLOCK
    ensures size <= 2048 ==> Leaf(root, n / PER_BLOCK) == Direct(root, (size - 1) / BLKSZ)
    ensures 2048 < size <= 67584 ==> Leaf(root, n / PER_BLOCK) == IndLeaf(root, (size - 2048 - 1) / BLKSZ)
    ensures size > 67584 ==>
      var offset := size - 67584;
      var d := (offset - 1) / 8388608;
      var rem1 := offset - d * 8388608;
      var m := (rem1 - 1) / 65536;
      var rem2 := rem1 - m * 65536;
      Leaf(root, n / PER_BLOCK) == DindLeaf(root, d, m, (rem2 - 1) / BLKSZ)
  {
    hide Leaf;
    if size <= 67584 {
      SlotBySizeNear(root, n, size);
    } else {
      SlotBySizeFar(root, n, size);
    }
    assert (size - 1) / DENSZ == n;
  }

  lemma SlotBySizeNear(root: nat, n: nat, size: nat)
    requires size == DENSZ * (n + 1) && size <= 67584
    ensures size <= 2048 ==> Leaf(root, n / PER_BLOCK) == Direct(root, (size - 1) / BLKSZ)
    ensures 2048 < size ==> Leaf(root, n / PER_BLOCK) == IndLeaf(root, (size - 2048 - 1) / BLKSZ)
  {
    var b, x := n / PER_BLOCK, DENSZ * (n % PER_BLOCK) + 15;
    assert size - 1 == BLKSZ * b + x;
    CutBlock(size - 1, b, x);
    if size > 2048 {
      CutBlock(size - 2049, b - NUM_DIRECT, x);
    }
  }

  lemma SlotBySizeFar(root: nat, n: nat, size: nat)
    requires size == DENSZ * (n + 1) && size > 67584 && n < DENTRY_LIMIT
    ensures
      var offset := size - 67584;
      var d := (offset - 1) / 8388608;
      var rem1 := offset - d * 8388608;
      var m := (rem1 - 1) / 65536;
      var rem2 := rem1 - m * 65536;
      Leaf(root, n / PER_BLOCK) == DindLeaf(root, d, m, (rem2 - 1) / BLKSZ)
  {
    var b, x := n / PER_BLOCK, DENSZ * (n % PER_BLOCK) + 15;
    var t := b - NUM_DIRECT - PTRS_PER_BLOCK;
    assert size - 67584 - 1 == BLKSZ * t + x;
    CutDown(t, x);
    assert Leaf(root, b) == DindLeaf(root, t / 16384, t % 16384 / 128, t % 128);
  }

  lemma CutBlock(y: nat, b: int, x: nat)
    requires y == BLKSZ * b + x && x < BLKSZ
    ensures y / BLKSZ == b
  {
  }

  /** The directory's own tree gains the blocks its next entry lacks, or as many of them as are free. */
  ghost predicate TreeReady(a: Image, c: Image, root: nat) {
    && root < |a.inodes| && root < |c.inodes| && Grew(a, c, root)
    && (Count(a, root) < DENTRY_LIMIT ==>
          var lacks := Missing(a, Leaf(root, Count(a, root) / PER_BLOCK));
          FreeCount(c.dataBits) == Less(FreeCount(a.dataBits), lacks) && (lacks == 0 ==> SameTree(a, c, root)))
  }

  lemma ReachedReady(a: Image, b: Image, c: Image, live: set<nat>, root: nat, r: Result<nat>)
    requires root in live && root < |a.inodes| && Count(a, root) < DENTRY_LIMIT
    requires Reached(a, b, live, Leaf(root, Count(a, root) / PER_BLOCK), r) && Grew(a, b, root)
    requires c.dataBits == b.dataBits && |c.inodes| == |b.inodes| && |c.data| == |b.data| && SameTree(b, c, root)
    ensures TreeReady(a, c, root)
  {
    hide Val, Shape, Owned, Grew, FreeCount, TakeFirst, NthFree;
    var leaf := Leaf(root, Count(a, root) / PER_BLOCK);
    SameGrew(a, b, c, root);
    if r.Ok? {
      PresentComplete(b, leaf);
    }
    if Missing(a, leaf) == 0 {
      NothingMissing(a, b, live, leaf, r);
    }
  }

  lemma SameGrew(a: Image, b: Image, c: Image, root: nat)
    requires Grew(a, b, root) && c.dataBits == b.dataBits && |c.inodes| == |b.inodes| && |c.data| == |b.data|
    requires SameTree(b, c, root)
    ensures Grew(a, c, root) && root < |c.inodes|
  {
    hide Val;
    GrewNothing(b, c, root);
    GrewTransitive(a, b, c, root);
  }

  ghost predicate SameTree(a: Image, c: Image, ino: nat) {
    && ino < |a.inodes| && ino < |c.inodes|
    && forall t: Slot :: t.ino == ino && t.InRange() ==> Val(c, t) == Val(a, t)
  }

  /** The outcome of add_dentry: the entry goes to the end if the blocks it needs are there, and otherwise
      nothing is added, silently. */
  ghost predicate Appended(a: Image, c: Image, live: set<nat>, root: nat, d: Dentry) {
    && Sound(c, live) && Kept(a, c, live, root)
    && root < |a.inodes| && a.inodes[root].size <= MAX_FILE_SIZE && c.inodes[root].size <= MAX_FILE_SIZE
    && c.inodes[root].size % DENSZ == 0 && TreeReady(a, c, root)
    && Entries(c, root) == if HasRoom(a, root) then Entries(a, root) + [d] else Entries(a, root)
  }

  /** The block of the next entry, and the index blocks above it, are present or can be allocated. */
  ghost predicate HasRoom(img: Image, root: nat)
    requires root < |img.inodes|
  {
    Count(img, root) < DENTRY_LIMIT && Missing(img, Leaf(root, Count(img, root) / PER_BLOCK)) <= FreeCount(img.dataBits)
  }

  /** The free blocks that the next entry takes as index blocks hold no non-zero word: add_dentry does not clear
      them. */
  predicate IndexReady(img: Image, root: nat)
    requires root < |img.inodes|
  {
    Count(img, root) < DENTRY_LIMIT ==> IndexBlocksBlank(img, Leaf(root, Count(img, root) / PER_BLOCK))
  }

  /** Some block is free, but fewer than the next entry lacks: add_dentry takes what is free as index blocks, and gives
      up. */
  predicate RunsOut(img: Image, root: nat)
    requires root < |img.inodes|
  {
    && Count(img, root) < DENTRY_LIMIT
    && 0 < FreeCount(img.dataBits) < Missing(img, Leaf(root, Count(img, root) / PER_BLOCK))
  }

  lemma EntriesKept(a: Image, b: Image, live: set<nat>, root: nat, p: nat)
    requires Sound(a, live) && root in live && Step(a, b, live, root, p, p)
    ensures root < |a.inodes| && Count(b, root) == Count(a, root) <= DENTRY_LIMIT
    ensures forall m: nat :: m < Count(a, root) ==> EntryAt(b, root, m) == EntryAt(a, root, m)
    ensures forall m: nat :: m < Count(a, root) ==> 0 < Val(b, Leaf(root, m / PER_BLOCK)) < |b.data|
  {
    forall m: nat | m < Count(a, root)
      ensures EntryAt(b, root, m) == EntryAt(a, root, m)
      ensures 0 < Val(b, Leaf(root, m / PER_BLOCK)) < |b.data|
    {
      EntryKept(a, b, live, root, p, m);
    }
  }

  lemma EntryKept(a: Image, b: Image, live: set<nat>, root: nat, p: nat, m: nat)
    requires Sound(a, live) && root in live && Step(a, b, live, root, p, p)
    requires root < |a.inodes| && m < Count(a, root)
    ensures m < DENTRY_LIMIT && 0 < Val(b, Leaf(root, m / PER_BLOCK)) < |b.data|
    ensures EntryAt(b, root, m) == EntryAt(a, root, m)
  {
    hide OthersSame, NoLeaks, Inherited, ByteAt, DentryAt;
    var s := Leaf(root, m / PER_BLOCK);
    assert Live(a, live, s);
    assert Val(b, s) == Val(a, s) < |a.data|;
    var v, at := Val(a, s), DENSZ * (m % PER_BLOCK);
    forall k | at <= k < at + DENSZ
      ensures b.data[v][k] == a.data[v][k]
    {
      EntryByte(a, root, m, k);
      EntryByte(b, root, m, k);
    }
    SameEntry(a.data[v], b.data[v], m % PER_BLOCK);
  }

  lemma EntryByte(a: Image, root: nat, m: nat, k: nat)
    requires root < |a.inodes| && m < DENTRY_LIMIT && k < BLKSZ
    ensures var j := BLKSZ * (m / PER_BLOCK) + k;
      && j < MAX_FILE_SIZE && j / BLKSZ == m / PER_BLOCK
      && (Val(a, Leaf(root, m / PER_BLOCK)) < |a.data| ==> ByteAt(a, root, j) == a.data[Val(a, Leaf(root, m / PER_BLOCK))][k])
  {
    hide Val, Leaf;
    var j := BLKSZ * (m / PER_BLOCK) + k;
    assert j / BLKSZ == m / PER_BLOCK && j % BLKSZ == k;
  }

  lemma SameEntry(b: Block, c: Block, e: nat)
    requires e < PER_BLOCK && forall k :: DENSZ * e <= k < DENSZ * e + DENSZ ==> c[k] == b[k]
    ensures DentryAt(c, e) == DentryAt(b, e)
  {
    assert c[DENSZ * e + 2..DENSZ * e + DENSZ] == b[DENSZ * e + 2..DENSZ * e + DENSZ];
  }

  /** add_dentry succeeded: `b` has the block of entry `n`, `c` has the entry in it, and the size grows. */
  lemma AppendDone(a: Image, b: Image, c: Image, live: set<nat>, root: nat, d: Dentry, r: Result<nat>)
    requires Sound(a, live) && root in live && root < |a.inodes| && a.inodes[root].size % DENSZ == 0
    requires Count(a, root) < DENTRY_LIMIT
    requires var leaf := Leaf(root, Count(a, root) / PER_BLOCK); Reached(a, b, live, leaf, r) && r.Ok?
    requires Sound(b, live) && Step(a, b, live, root, 0, 0)
    requires EntrySet(b, c, live, root, Count(a, root), d)
    ensures Appended(a, WithSize(c, root, a.inodes[root].size + DENSZ), live, root, d)
  {
    hide Owned, Sound, Step, Kept, OthersSame, NoLeaks, DentryAt, EntryAt, MappedTo, Mapped, TrimTo, Reached, SameTree, Missing, TreeReady;
    var n := Count(a, root);
    var size := DENSZ * (n + 1);
    MappedFile(a, live, root);
    AppendReady(a, b, c, live, root, size, d, r);
    AppendMapped(a, b, live, root, r);
    MappedFile(c, live, root);
    SetSize(c, live, root, size);
    var e := WithSize(c, root, size);
    EntriesKept(a, b, live, root, 0);
    forall m: nat | m < n
      ensures EntryAt(e, root, m) == EntryAt(a, root, m)
    {
      assert EntryAt(c, root, m) == EntryAt(b, root, m);
      EntryOfSize(c, root, size, m);
    }
    EntryOfSize(c, root, size, n);
    SoundOwned(a, live);
    AppendKept(a, b, c, e, live, root);
    ReachedRoom(a, b, live, Leaf(root, n / PER_BLOCK), r);
    EntriesAppend(a, e, root, d);
  }

  lemma NothingMissing(a: Image, b: Image, live: set<nat>, leaf: Slot, r: Result<nat>)
    requires Reached(a, b, live, leaf, r) && leaf.ino in live && Missing(a, leaf) == 0
    ensures SameTree(a, b, leaf.ino)
  {
    assert forall t: Slot :: t.ino == leaf.ino && t.InRange() ==> Live(a, live, t);
  }

  lemma AppendReady(a: Image, b: Image, c: Image, live: set<nat>, root: nat, size: nat, d: Dentry, r: Result<nat>)
    requires root in live && root < |a.inodes| && Count(a, root) < DENTRY_LIMIT
    requires Reached(a, b, live, Leaf(root, Count(a, root) / PER_BLOCK), r) && Step(a, b, live, root, 0, 0)
    requires EntrySet(b, c, live, root, Count(a, root), d)
    ensures TreeReady(a, WithSize(c, root, size), root)
  {
    hide Sound, Owned, Reached, TreeReady, EntryAt, MappedTo, NoLeaks, Grew, BytesKept, Inherited;
    var e := WithSize(c, root, size);
    assert |e.data| == |b.data|;
    forall t: Slot | t.ino == root && t.InRange()
      ensures Val(e, t) == Val(b, t)
    {
      assert Live(b, live, t);
    }
    ReachedReady(a, b, e, live, root, r);
  }

  lemma EntriesAppend(a: Image, e: Image, root: nat, d: Dentry)
    requires root < |a.inodes| && a.inodes[root].size <= MAX_FILE_SIZE
    requires root < |e.inodes| && e.inodes[root].size <= MAX_FILE_SIZE && Count(e, root) == Count(a, root) + 1
    requires forall m: nat :: m < Count(a, root) ==> EntryAt(e, root, m) == EntryAt(a, root, m)
    requires EntryAt(e, root, Count(a, root)) == d
    ensures Entries(e, root) == Entries(a, root) + [d]
  {
  }

  lemma AppendMapped(a: Image, b: Image, live: set<nat>, root: nat, r: Result<nat>)
    requires Sound(a, live) && root in live && root < |a.inodes| && a.inodes[root].size % DENSZ == 0
    requires Count(a, root) < DENTRY_LIMIT
    requires Reached(a, b, live, Leaf(root, Count(a, root) / PER_BLOCK), r) && r.Ok?
    ensures MappedTo(b, root, NumBlocks(DENSZ * (Count(a, root) + 1)))
  {
    hide Reached, Grown, Owned, Sound, MappedTo, NumBlocks, Leaf, Path;
    var n := Count(a, root);
    MappedFile(a, live, root);
    SoundOwned(a, live);
    DentryPlace(n);
    NumBlocksStep(DENSZ * n, DENSZ * n + DENSZ, DENSZ * n, DENSZ);
    ReachedGrown(a, b, live, Leaf(root, n / PER_BLOCK), r);
    GrownMapped(a, b, live, root, n / PER_BLOCK, NumBlocks(DENSZ * n));
  }

  lemma DentryPlace(n: nat)
    ensures DENSZ * n / BLKSZ == n / PER_BLOCK && DENSZ <= BLKSZ - DENSZ * n % BLKSZ
  {
    assert DENSZ * n == BLKSZ * (n / PER_BLOCK) + DENSZ * (n % PER_BLOCK);
  }

  lemma EntryOfSize(c: Image, root: nat, size: nat, m: nat)
    requires root < |c.inodes| && m < DENTRY_LIMIT
    ensures EntryAt(WithSize(c, root, size), root, m) == EntryAt(c, root, m)
  {
    var e := WithSize(c, root, size);
    assert Val(e, Leaf(root, m / PER_BLOCK)) == Val(c, Leaf(root, m / PER_BLOCK));
  }

  lemma AppendKept(a: Image, b: Image, c: Image, e: Image, live: set<nat>, root: nat)
    requires Owned(a, live) && Step(a, b, live, root, 0, 0) && Kept(b, c, live, root)
    requires OthersSame(c, e, live, root) && e.inodeBits == c.inodeBits && (NoLeaks(c, live) ==> NoLeaks(e, live))
    ensures Kept(a, e, live, root)
  {
    OthersSameTransitive(a, b, c, live, root);
    OthersSameTransitive(a, c, e, live, root);
  }

  lemma AppendFailed(a: Image, b: Image, live: set<nat>, root: nat, d: Dentry, r: Result<nat>)
    requires Sound(a, live) && root in live && root < |a.inodes| && a.inodes[root].size % DENSZ == 0
    requires Count(a, root) < DENTRY_LIMIT
    requires Reached(a, b, live, Leaf(root, Count(a, root) / PER_BLOCK), r) && r.Err?
    requires Sound(b, live) && Step(a, b, live, root, 0, 0)
    ensures Appended(a, b, live, root, d)
  {
    hide Owned, OthersSame, NoLeaks, DentryAt, EntryAt;
    MappedFile(a, live, root);
    ReachedReady(a, b, b, live, root, r);
    EntriesKept(a, b, live, root, 0);
    ReachedRoom(a, b, live, Leaf(root, Count(a, root) / PER_BLOCK), r);
    KeptNothing(b, live, root);
    assert Kept(b, b, live, root);
    AppendKept(a, b, b, b, live, root);
  }

  /** The blocks above directory entry `n`. */
  lemma DentryBlocksMapped(img: Image, live: set<nat>, root: nat, n: nat)
    requires root in live && Sound(img, live)
    ensures root < |img.inodes|
    ensures n < Count(img, root) ==> n / PER_BLOCK < MAX_BLOCKS && forall s :: s in Path(Leaf(root, n / PER_BLOCK)) ==>
              s.InRange() && s.ino == root && 0 < Val(img, s) < |img.data|
  {
    if n < Count(img, root) {
      var leaf := Leaf(root, n / PER_BLOCK);
      assert Live(img, live, leaf);
      forall s | s in Path(leaf)
        ensures s.InRange() && s.ino == root && 0 < Val(img, s) < |img.data|
      {
        LeafPresent(img, leaf, s);
        assert Live(img, live, s);
      }
    }
  }

  // ---------------------------------------------------------------- deleting

  lemma DentryAtBounds(b: Block, e: nat)
    requires e < PER_BLOCK
    ensures DentryAt(b, e).inode < 0x1_0000 && |DentryAt(b, e).name| == NAME_LEN
  {
  }

  /** The outcome of delete_dentry for entry `n`. */
  ghost predicate Removed(a: Image, c: Image, live: set<nat>, root: nat, n: nat) {
    && Sound(c, live) && Kept(a, c, live, root) && c.dataBits == a.dataBits
    && root < |a.inodes| && DENSZ <= a.inodes[root].size <= MAX_FILE_SIZE && a.inodes[root].size % DENSZ == 0
    && n < Count(a, root)
    && c.inodes == a.inodes[root := a.inodes[root].(size := a.inodes[root].size - DENSZ)]
    && Entries(c, root) == RemoveAt(Entries(a, root), n)
    && (forall u: Slot :: Live(a, live, u) ==> Val(c, u) == Val(a, u))
  }

  lemma RemoveDone(a: Image, b: Image, live: set<nat>, root: nat, n: nat)
    requires Sound(a, live) && root in live && root < |a.inodes| && a.inodes[root].size % DENSZ == 0
    requires n < Count(a, root) <= DENTRY_LIMIT
    requires EntrySet(a, b, live, root, n, EntryAt(a, root, Count(a, root) - 1))
    ensures Removed(a, WithSize(b, root, a.inodes[root].size - DENSZ), live, root, n)
  {
    hide Owned, Kept, OthersSame, NoLeaks, DentryAt, EntryAt, TrimTo, Mapped, Shape, Val, RemoveAt, Entries;
    var last := Count(a, root) - 1;
    var size := DENSZ * last;
    MappedFile(a, live, root);
    MappedFile(b, live, root);
    assert MappedTo(b, root, NumBlocks(size));
    SetSize(b, live, root, size);
    var c := WithSize(b, root, size);
    RemoveEntries(a, b, live, root, n, size);
    assert forall u: Slot :: Live(a, live, u) ==> Live(b, live, u);
    KeptSize(a, b, c, live, root);
  }

  lemma RemoveEntries(a: Image, b: Image, live: set<nat>, root: nat, n: nat, size: nat)
    requires Sound(a, live) && root in live && root < |a.inodes| && a.inodes[root].size % DENSZ == 0
    requires n < Count(a, root) <= DENTRY_LIMIT && size == DENSZ * (Count(a, root) - 1)
    requires EntrySet(a, b, live, root, n, EntryAt(a, root, Count(a, root) - 1))
    ensures a.inodes[root].size <= MAX_FILE_SIZE && size <= MAX_FILE_SIZE
    ensures Entries(WithSize(b, root, size), root) == RemoveAt(Entries(a, root), n)
  {
    hide Sound, Owned, Kept, DentryAt, EntryAt;
    MappedFile(a, live, root);
    var c, last := WithSize(b, root, size), Count(a, root) - 1;
    forall m: nat | m < last
      ensures EntryAt(c, root, m) == if m == n then EntryAt(a, root, last) else EntryAt(a, root, m)
    {
      EntryOfSize(b, root, size, m);
      DentryBlocksMapped(a, live, root, m);
      assert Leaf(root, m / PER_BLOCK) in Path(Leaf(root, m / PER_BLOCK));
    }
  }

  lemma KeptSize(a: Image, b: Image, c: Image, live: set<nat>, root: nat)
    requires Sound(a, live) && Kept(a, b, live, root) && OthersSame(b, c, live, root) && c.inodeBits == b.inodeBits
    requires NoLeaks(b, live) ==> NoLeaks(c, live)
    ensures Kept(a, c, live, root)
  {
    OthersSameTransitive(a, b, c, live, root);
  }
}
