/** The physical page allocator: a list of chunks of consecutive free pages. */
module PagePool {
  import opened Results

  /** `count` free pages from page number `start` on. */
  datatype Chunk = Chunk(start: nat, count: nat)

  predicate Within(start: nat, count: nat, p: nat) {
    start <= p < start + count
  }

  ghost function Range(start: nat, count: nat): set<nat> {
    set p | start <= p < start + count && Within(start, count, p)
  }

  ghost function Pages(c: Chunk): set<nat> {
    Range(c.start, c.count)
  }

  /** The free pages. */
  ghost function FreeSet(chunks: seq<Chunk>): set<nat> {
    if chunks == [] then {} else Pages(chunks[0]) + FreeSet(chunks[1..])
  }

  function Total(chunks: seq<Chunk>): nat {
    if chunks == [] then 0 else chunks[0].count + Total(chunks[1..])
  }

  /** Chunks are nonempty and pairwise disjoint, and page 0 (the null pointer) is in none. */
  ghost predicate Chunked(chunks: seq<Chunk>) {
    && (forall i :: 0 <= i < |chunks| ==> chunks[i].count > 0 && chunks[i].start > 0)
    && (forall i, j :: 0 <= i < j < |chunks| ==> Pages(chunks[i]) !! Pages(chunks[j]))
  }

  lemma {:induction false} InFreeSet(chunks: seq<Chunk>, p: nat)
    ensures p in FreeSet(chunks) <==> exists i :: 0 <= i < |chunks| && p in Pages(chunks[i])
  {
    if chunks != [] {
      InFreeSet(chunks[1..], p);
      if p in FreeSet(chunks[1..]) {
        var i :| 0 <= i < |chunks[1..]| && p in Pages(chunks[1..][i]);
        assert p in Pages(chunks[i + 1]);
      }
      if i :| 0 <= i < |chunks| && p in Pages(chunks[i]) {
        assert i > 0 ==> p in Pages(chunks[1..][i - 1]);
      }
    }
  }

  lemma {:induction false} RangeSize(start: nat, count: nat)
    ensures |Range(start, count)| == count
  {
    if count > 0 {
      RangeSize(start, count - 1);
      assert Range(start, count) == Range(start, count - 1) + {start + count - 1};
    }
  }

  /** The chunk counts add up to the number of free pages. */
  lemma {:induction false} TotalIsSize(chunks: seq<Chunk>)
    requires Chunked(chunks)
    ensures Total(chunks) == |FreeSet(chunks)|
  {
    if chunks != [] {
      var rest := chunks[1..];
      assert forall i :: 0 <= i < |rest| ==> rest[i] == chunks[i + 1];
      TotalIsSize(rest);
      RangeSize(chunks[0].start, chunks[0].count);
      forall p | p in Pages(chunks[0]) ensures p !in FreeSet(rest) {
        InFreeSet(rest, p);
      }
      assert Pages(chunks[0]) !! FreeSet(rest);
    }
  }

  /** Replacing chunk `i`. */
  lemma {:induction false} FreeSetUpdate(chunks: seq<Chunk>, i: nat, c: Chunk)
    requires Chunked(chunks) && i < |chunks|
    ensures FreeSet(chunks[i := c]) == (FreeSet(chunks) - Pages(chunks[i])) + Pages(c)
  {
    var after := chunks[i := c];
    forall p: nat ensures p in FreeSet(after) <==> p in (FreeSet(chunks) - Pages(chunks[i])) + Pages(c) {
      InFreeSet(after, p);
      InFreeSet(chunks, p);
      if j :| 0 <= j < |chunks| && p in Pages(chunks[j]) {
        assert j != i ==> p in Pages(after[j]);
      }
      if j :| 0 <= j < |after| && p in Pages(after[j]) {
        assert j != i ==> p in Pages(chunks[j]);
      }
      assert p in Pages(c) ==> p in Pages(after[i]);
    }
  }

  lemma {:induction false} FreeSetWithout(chunks: seq<Chunk>, i: nat)
    requires Chunked(chunks) && i < |chunks|
    ensures Chunked(chunks[..i] + chunks[i + 1..])
    ensures FreeSet(chunks[..i] + chunks[i + 1..]) == FreeSet(chunks) - Pages(chunks[i])
  {
    var after := chunks[..i] + chunks[i + 1..];
    assert forall j :: 0 <= j < |after| ==> after[j] == chunks[if j < i then j else j + 1];
    forall p: nat ensures p in FreeSet(after) <==> p in FreeSet(chunks) - Pages(chunks[i]) {
      InFreeSet(after, p);
      InFreeSet(chunks, p);
      if j :| 0 <= j < |chunks| && p in Pages(chunks[j]) {
        assert j != i ==> p in Pages(after[if j < i then j else j - 1]);
      }
    }
  }

  /** A smallest chunk of at least `cnt` pages. */
  ghost predicate BestFit(chunks: seq<Chunk>, cnt: nat, i: nat) {
    && i < |chunks| && chunks[i].count >= cnt
    && (forall j :: 0 <= j < |chunks| && chunks[j].count >= cnt ==> chunks[i].count <= chunks[j].count)
  }

  function EndOf(c: Chunk): nat {
    c.start + c.count
  }

  class Pool {
    var chunks: seq<Chunk>

    constructor (start: nat, count: nat)
      requires start > 0 && count > 0
      ensures Chunked(chunks) && FreeSet(chunks) == Range(start, count)
    {
      chunks := [Chunk(start, count)];
    }

    ghost function Free(): set<nat>
      reads this
    {
      FreeSet(chunks)
    }

    /** The smallest chunk that is large enough, if there is one. */
    method FindBest(cnt: nat) returns (best: Option<nat>)
      ensures best.Some? ==> BestFit(chunks, cnt, best.value)
      ensures best.None? ==> forall j :: 0 <= j < |chunks| ==> chunks[j].count < cnt
    {
      best := None;
      if chunks == [] {
        return;
      }
      if chunks[0].count >= cnt {
        best := Some(0);
      }
      for i := 1 to |chunks|
        invariant best.Some? ==> best.value < i && BestFit(chunks[..i], cnt, best.value)
        invariant best.None? ==> forall j :: 0 <= j < i ==> chunks[j].count < cnt
      {
        if chunks[i].count >= cnt && (best.None? || chunks[i].count < chunks[best.value].count) {
          best := Some(i);
        }
      }
      assert chunks[..|chunks|] == chunks;
    }

    /** alloc_phys_pages: `cnt` consecutive pages from the end of a smallest sufficient chunk. `None` is a
        kernel panic. */
    method AllocPages(cnt: nat) returns (r: Option<nat>)
      requires Chunked(chunks)
      modifies this
      ensures Chunked(chunks)
      ensures r.None? ==> chunks == old(chunks) && forall j :: 0 <= j < |chunks| ==> chunks[j].count < cnt
      ensures r.Some? ==> Range(r.value, cnt) <= old(Free()) && Free() == old(Free()) - Range(r.value, cnt)
      ensures r.Some? ==> exists i: nat :: BestFit(old(chunks), cnt, i) && r.value == EndOf(old(chunks)[i]) - cnt
    {
      var best := FindBest(cnt);
      if best.None? {
        return None;
      }
      var i := best.value;
      var c := chunks[i];
      assert BestFit(chunks, cnt, i);
      BestIsFree(chunks, i, c.start, c.count);
      if c.count == cnt {
        FreeSetWithout(chunks, i);
        chunks := chunks[..i] + chunks[i + 1..];
        r := Some(c.start);
      } else {
        var left := Chunk(c.start, c.count - cnt);
        FreeSetUpdate(chunks, i, left);
        assert Pages(left) + Range(c.start + left.count, cnt) == Pages(c);
        assert Pages(left) !! Range(c.start + left.count, cnt);
        chunks := chunks[i := left];
        r := Some(c.start + left.count);
      }
    }

    /** free_phys_pages: the pages join the chunk that ends where they start, or form a new chunk. */
    method FreePages(pp: nat, cnt: nat)
      requires Chunked(chunks) && Free() !! Range(pp, cnt)
      modifies this
      ensures Chunked(chunks)
      ensures Free() == if pp == 0 then old(Free()) else old(Free()) + Range(pp, cnt)
    {
      if pp == 0 || cnt == 0 {
        assert Range(pp, 0) == {};
        return;
      }
      forall i: nat | i < |chunks| ensures Range(pp, cnt) !! Pages(chunks[i]) {
        BestIsFree(chunks, i, chunks[i].start, chunks[i].count);
      }
      for i := 0 to |chunks|
        invariant Chunked(chunks) && chunks == old(chunks)
      {
        var c := chunks[i];
        if c.start + c.count == pp {
          FreeSetUpdate(chunks, i, Chunk(c.start, c.count + cnt));
          BestIsFree(chunks, i, c.start, c.count);
          assert Pages(Chunk(c.start, c.count + cnt)) == Pages(c) + Range(pp, cnt);
          assert forall j :: 0 <= j < |chunks| ==> Range(pp, cnt) !! Pages(chunks[j]);
          chunks := chunks[i := Chunk(c.start, c.count + cnt)];
          return;
        }
      }
      chunks := [Chunk(pp, cnt)] + chunks;
      assert chunks[1..] == old(chunks);
    }

    /** free_phys_page_count. */
    method PageCount() returns (n: nat)
      requires Chunked(chunks)
      ensures n == |Free()|
    {
      n := 0;
      for i := 0 to |chunks|
        invariant n + Total(chunks[i..]) == Total(chunks)
      {
        n := n + chunks[i].count;
      }
      TotalIsSize(chunks);
    }
  }

  lemma BestIsFree(chunks: seq<Chunk>, i: nat, start: nat, cnt: nat)
    requires i < |chunks| && Range(start, cnt) <= Pages(chunks[i])
    ensures Range(start, cnt) <= FreeSet(chunks)
  {
    forall p | p in Range(start, cnt) ensures p in FreeSet(chunks) {
      InFreeSet(chunks, p);
    }
  }
}
