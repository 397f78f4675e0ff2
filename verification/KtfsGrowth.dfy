/** What growing one file means for every file: contents, block maps, leaks. */
module KtfsGrowth {
  import opened KtfsImage
  import opened KtfsTree

  /** Every slot serving the first `n` blocks of the file is present. */
  ghost predicate MappedTo(img: Image, ino: nat, n: nat) {
    ino < |img.inodes| && forall s: Slot :: Serves(s, ino, n) ==> Val(img, s) != 0
  }

  /** The file's tree serves its first `n` blocks and nothing else. */
  ghost predicate TrimTo(img: Image, ino: nat, n: nat) {
    ino < |img.inodes| && forall s: Slot :: s.ino == ino && s.InRange() ==> (Val(img, s) != 0 <==> FirstBlock(s) < n)
  }

  /** From `a` to `b`, no file of `live` other than `ino` changed: neither inode, block map nor bytes. */
  ghost predicate OthersSame(a: Image, b: Image, live: set<nat>, ino: nat) {
    && |b.inodes| == |a.inodes| && |b.data| == |a.data| && |b.dataBits| == |a.dataBits|
    && (forall i :: i in live && i < |a.inodes| && i != ino ==> b.inodes[i] == a.inodes[i])
    && (forall t: Slot :: Live(a, live, t) && t.ino != ino ==> Val(b, t) == Val(a, t))
    && (forall t: Slot :: Live(a, live, t) && t.ino != ino && t.IsLeaf() && 0 < Val(a, t) < |a.data| ==>
          b.data[Val(a, t)] == a.data[Val(a, t)])
  }

  /** From `a` to `b`, the blocks file `ino` had keep their places and their bytes. */
  ghost predicate BlocksKept(a: Image, b: Image, ino: nat) {
    && ino < |a.inodes| && |b.inodes| == |a.inodes| && |b.data| == |a.data|
    && (forall t: Slot :: t.ino == ino && t.InRange() && Val(a, t) != 0 ==> Val(b, t) == Val(a, t))
    && (forall t: Slot :: t.ino == ino && t.InRange() && t.IsLeaf() && 0 < Val(a, t) < |a.data| ==>
          b.data[Val(a, t)] == a.data[Val(a, t)])
  }

  lemma LeafPresent(img: Image, leaf: Slot, t: Slot)
    requires leaf.IsLeaf() && leaf.InRange() && leaf.ino < |img.inodes| && t in Path(leaf)
    requires Val(img, leaf) != 0
    ensures t.InRange() && t.ino == leaf.ino && Val(img, t) != 0
  {
  }

  lemma ServesOneMore(s: Slot, ino: nat, n: nat)
    requires n < MAX_BLOCKS
    ensures Serves(s, ino, n + 1) <==> Serves(s, ino, n) || (s in Path(Leaf(ino, n)) && s.InRange())
  {
    if n >= NUM_DIRECT + PTRS_PER_BLOCK {
      var t := n - NUM_DIRECT - PTRS_PER_BLOCK;
      assert Leaf(ino, n) == DindLeaf(ino, t / 16384, t % 16384 / 128, t % 128);
      assert t == t / 16384 * 16384 + t % 16384 / 128 * 128 + t % 128;
    }
  }

  lemma GrownMapped(a: Image, b: Image, live: set<nat>, ino: nat, blkno: nat, n: nat)
    requires blkno < MAX_BLOCKS && ino in live && Owned(a, live)
    requires Grown(a, b, live, Path(Leaf(ino, blkno))) && Val(b, Leaf(ino, blkno)) != 0
    requires MappedTo(a, ino, n) && blkno <= n
    ensures MappedTo(b, ino, if n == blkno then n + 1 else n)
  {
    var leaf := Leaf(ino, blkno);
    forall s | Serves(s, ino, if n == blkno then n + 1 else n)
      ensures Val(b, s) != 0
    {
      assert Live(a, live, s);
      if !Serves(s, ino, n) {
        ServesOneMore(s, ino, n);
        LeafPresent(b, leaf, s);
      }
    }
  }

  lemma GrownTrim(a: Image, b: Image, live: set<nat>, ino: nat, blkno: nat, n: nat)
    requires blkno < MAX_BLOCKS && ino in live && Owned(a, live)
    requires Grown(a, b, live, Path(Leaf(ino, blkno))) && Val(b, Leaf(ino, blkno)) != 0
    requires TrimTo(a, ino, n) && blkno <= n
    ensures TrimTo(b, ino, if n == blkno then n + 1 else n)
  {
    var leaf := Leaf(ino, blkno);
    var m := if n == blkno then n + 1 else n;
    GrownMapped(a, b, live, ino, blkno, n);
    forall s: Slot | s.ino == ino && s.InRange() && Val(b, s) != 0
      ensures FirstBlock(s) < m
    {
      assert Live(a, live, s);
      if Val(a, s) == 0 {
        ServesOneMore(s, ino, blkno);
        assert s in Path(leaf);
      }
    }
  }

  lemma GrownNoLeaks(a: Image, b: Image, live: set<nat>, path: set<Slot>)
    requires Owned(a, live) && Grown(a, b, live, path) && NoLeaks(a, live)
    ensures NoLeaks(b, live)
  {
    forall v | 0 < v < |b.data| && v < |b.dataBits|
      ensures b.dataBits[v] <==> Used(b, live, v)
    {
      if Used(a, live, v) {
        var s :| Refers(a, live, s, v);
        assert Refers(b, live, s, v);
      }
      if NewRef(a, b, live, path, v) {
        var s :| s in path && Live(a, live, s) && Live(b, live, s) && Val(a, s) == 0 && Val(b, s) == v;
        assert Refers(b, live, s, v);
      }
      if Used(b, live, v) {
        var s :| Refers(b, live, s, v);
        assert Live(a, live, s);
        if Val(a, s) != 0 {
          assert Refers(a, live, s, v);
        }
      }
    }
  }

  lemma GrownOthers(a: Image, b: Image, live: set<nat>, ino: nat, path: set<Slot>)
    requires Owned(a, live) && Grown(a, b, live, path) && forall t :: t in path ==> t.ino == ino
    ensures OthersSame(a, b, live, ino)
    ensures ino in live ==> BlocksKept(a, b, ino)
  {
    assert forall t: Slot :: t.ino == ino && ino in live && t.InRange() && ino < |a.inodes| ==> Live(a, live, t);
  }
}
