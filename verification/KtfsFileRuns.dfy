/** A file handle seen from outside: a byte sequence and a cursor, over any run of calls. */
module KtfsFileRuns {
  import opened Machine
  import opened Results
  import opened KtfsImage
  import opened KtfsTree
  import opened KtfsGrowth
  import opened KtfsLimits
  import opened KtfsSteps
  import opened KtfsFile

  /** The bytes of the file, the position of the handle, the blocks the file lacks for each size, and the number of
      blocks that are free. */
  datatype Cursor = Cursor(bytes: seq<Byte>, pos: nat, wants: Wants, free: nat) {
    /** The size up to which the file can grow now. */
    function Limit(): nat {
      LimitOf(wants, free)
    }

    /** After the file took `c` of the free blocks. */
    function Took(c: nat): Cursor
      requires c <= free
    {
      this.(wants := Minus(wants, c), free := free - c)
    }
  }

  datatype Call = Fetch(len: nat) | Store(buf: seq<Byte>) | Cntl(cmd: Command)

  datatype Reply = Bytes(bytes: seq<Byte>) | Outcome(r: Result<nat>)

  /** One call on a byte sequence with a cursor. A store or a resize succeeds exactly within the limit, and takes the
      blocks the file lacks for it. A store that fails has overwritten the file up to its end, and taken all blocks
      the file could use; a resize that fails leaves the file alone and no block free. */
  ghost predicate Behaves(c: Cursor, call: Call, reply: Reply, c': Cursor) {
    match call
    case Fetch(len) =>
      && reply == Bytes(c.bytes[Min(c.pos, |c.bytes|)..Min(c.pos + len, |c.bytes|)])
      && c' == c.(pos := c.pos + |reply.bytes|)
    case Store(buf) =>
      if buf == [] then reply == Outcome(Ok(0)) && c' == c
      else if c.pos + |buf| <= c.Limit() then
        && reply == Outcome(Ok(|buf|)) && c.pos <= |c.bytes| && NumBlocks(c.pos + |buf|) <= MAX_BLOCKS
        && c.wants[NumBlocks(c.pos + |buf|)] <= c.free
        && c' == c.Took(c.wants[NumBlocks(c.pos + |buf|)]).(bytes := Splice(c.bytes, c.pos, buf), pos := c.pos + |buf|)
      else
        && reply == Outcome(Err(ENOTSUP)) && c.pos <= |c.bytes| <= c.pos + |buf|
        && c' == c.Took(Min(c.free, c.wants[MAX_BLOCKS])).(bytes := c.bytes[..c.pos] + buf[..|c.bytes| - c.pos])
    case Cntl(SetEnd(n)) =>
      if n <= c.Limit() then
        && reply == Outcome(Ok(0)) && Resized(c.bytes, n, c'.bytes) && NumBlocks(n) <= MAX_BLOCKS
        && c.wants[NumBlocks(n)] <= c.free
        && c' == c.Took(c.wants[NumBlocks(n)]).(bytes := c'.bytes, pos := Min(c.pos, n))
      else
        && reply == Outcome(Err(ENOTSUP)) && c'.Limit() <= c.Limit()
        && (if n > MAX_FILE_SIZE then c' == c else c' == c.(wants := c'.wants, free := 0))
    case Cntl(SetPos(p)) =>
      if p <= |c.bytes| then reply == Outcome(Ok(0)) && c' == c.(pos := p)
      else reply == Outcome(Err(ENOTSUP)) && c' == c
    case Cntl(GetPos) => reply == Outcome(Ok(c.pos)) && c' == c
    case Cntl(GetEnd) => reply == Outcome(Ok(|c.bytes|)) && c' == c
    case Cntl(Other) => reply == Outcome(Err(ENOTSUP)) && c' == c
  }

  /** A call that did not run out of blocks and did not cut blocks off the file. */
  ghost predicate Grows(c: Cursor, call: Call, reply: Reply) {
    match call
    case Fetch(_) => true
    case Store(_) => reply.Outcome? && reply.r.Ok?
    case Cntl(SetEnd(n)) => reply.Outcome? && reply.r.Ok? && NumBlocks(n) >= NumBlocks(|c.bytes|)
    case Cntl(_) => true
  }

  /** The calls after which a file still has no block beyond its end and nothing has leaked: those that do not cut
      blocks off and, if they fail, took no block. */
  ghost predicate StaysTidy(a: Image, d: Image, c: Cursor, call: Call, reply: Reply) {
    match call
    case Fetch(_) => true
    case Store(_) => reply.Outcome? && (reply.r.Err? ==> d.dataBits == a.dataBits)
    case Cntl(SetEnd(n)) =>
      reply.Outcome? && if reply.r.Ok? then NumBlocks(n) >= NumBlocks(|c.bytes|) else d.dataBits == a.dataBits
    case Cntl(_) => true
  }

  ghost predicate TidyExact(a: Image, d: Image, live: set<nat>, ino: nat, c: Cursor, call: Call, reply: Reply) {
    Tidy(a, live, ino) ==> (Tidy(d, live, ino) <==> StaysTidy(a, d, c, call, reply))
  }

  /** The handle is the only one of its file: its cached size is the inode's. */
  ghost predicate InStep(f: File, live: set<nat>)
    reads f, f.volume
  {
    && f.ino in live && f.ino < |f.volume.inodes| && Sound(f.volume.Img(), live)
    && f.fileSize == f.volume.inodes[f.ino].size <= MAX_FILE_SIZE
    && f.pos <= f.fileSize
  }

  ghost function View(f: File): Cursor
    reads f, f.volume
    requires f.ino < |f.volume.inodes| && f.volume.inodes[f.ino].size <= MAX_FILE_SIZE
  {
    CursorOf(f.volume.Img(), f.ino, f.pos)
  }

  ghost function CursorOf(img: Image, ino: nat, pos: nat): Cursor
    requires ino < |img.inodes| && img.inodes[ino].size <= MAX_FILE_SIZE
  {
    Cursor(Contents(img, ino), pos, WantsOf(img, ino), FreeCount(img.dataBits))
  }

  lemma CursorLimit(img: Image, ino: nat, pos: nat)
    requires ino < |img.inodes| && img.inodes[ino].size <= MAX_FILE_SIZE
    ensures CursorOf(img, ino, pos).Limit() == Limit(img, ino)
  {
    hide Contents, WantsOf, LimitOf, BlockLimit, FreeCount;
    LimitOfWants(img, ino);
  }

  lemma CursorTook(a: Image, b: Image, ino: nat, pos: nat)
    requires ino < |a.inodes| && a.inodes[ino].size <= MAX_FILE_SIZE && Grew(a, b, ino)
    requires ino < |b.inodes| && b.inodes[ino].size <= MAX_FILE_SIZE
    ensures FreeCount(b.dataBits) <= FreeCount(a.dataBits)
    ensures CursorOf(b, ino, pos) ==
            CursorOf(a, ino, pos).Took(FreeCount(a.dataBits) - FreeCount(b.dataBits)).(bytes := Contents(b, ino))
  {
    hide Contents, WantsOf, FreeCount, Minus, Lacking, Val;
    GrewWants(a, b, ino);
  }

  method DoFetch(f: File, len: nat, ghost live: set<nat>) returns (reply: Reply)
    requires InStep(f, live)
    modifies f`pos
    ensures InStep(f, live) && Behaves(old(View(f)), Call.Fetch(len), reply, View(f))
  {
    hide Sound, Contents, BlockLimit, WantsOf, FreeCount;
    var out := f.Fetch(len, live);
    ContentsLength(f.volume.Img(), f.ino);
    reply := Bytes(out);
  }

  lemma ContentsLength(img: Image, ino: nat)
    requires ino < |img.inodes| && img.inodes[ino].size <= MAX_FILE_SIZE
    ensures |Contents(img, ino)| == img.inodes[ino].size
  {
  }

  lemma StoreBehaves(a: Image, b: Image, ino: nat, pos: nat, buf: seq<Byte>, r: Result<nat>, pos': nat)
    requires ino < |a.inodes| && a.inodes[ino].size <= MAX_FILE_SIZE
    requires ino < |b.inodes| && b.inodes[ino].size <= MAX_FILE_SIZE && pos <= a.inodes[ino].size
    requires Grew(a, b, ino) && (buf != [] ==> StoreTook(a, b, ino, pos + |buf|, r))
    requires r.Ok? <==> buf == [] || pos + |buf| <= Limit(a, ino)
    requires buf == [] ==> r == Ok(0) && b == a && pos' == pos
    requires r.Ok? && buf != [] ==> r.value == |buf| && pos' == pos + |buf| && Stored(Contents(a, ino), pos, buf, Contents(b, ino))
    requires r.Err? ==> r.code == ENOTSUP && pos' == pos && Overwritten(Contents(a, ino), pos, buf, Contents(b, ino))
    ensures Behaves(CursorOf(a, ino, pos), Store(buf), Outcome(r), CursorOf(b, ino, pos'))
    ensures r.Err? ==> b.inodes[ino].size == a.inodes[ino].size
    ensures r.Ok? ==> pos' <= b.inodes[ino].size
  {
    hide Grew, BlockLimit, WantsOf, Lacking, FreeCount, Stored, Minus, LimitOf;
    ContentsLength(a, ino);
    ContentsLength(b, ino);
    CursorLimit(a, ino, pos);
    CursorTook(a, b, ino, pos');
    WantsAt(a, ino);
    if r.Ok? && buf != [] {
      StoredIsSplice(Contents(a, ino), pos, buf, Contents(b, ino));
      StoredLength(Contents(a, ino), pos, buf, Contents(b, ino));
    }
  }

  lemma StoredLength(before: seq<Byte>, at: nat, buf: seq<Byte>, after: seq<Byte>)
    requires Stored(before, at, buf, after)
    ensures |after| == Max(|before|, at + |buf|)
  {
  }

  method DoStore(f: File, buf: seq<Byte>, ghost live: set<nat>) returns (reply: Reply)
    requires InStep(f, live)
    modifies f, f.volume
    ensures InStep(f, live) && Behaves(old(View(f)), Call.Store(buf), reply, View(f))
    ensures TidyExact(old(f.volume.Img()), f.volume.Img(), live, f.ino, old(View(f)), Call.Store(buf), reply)
    ensures OthersSame(old(f.volume.Img()), f.volume.Img(), live, f.ino) && f.volume.InodeBits() == old(f.volume.InodeBits())
  {
    hide Sound, Contents, Behaves, Stored, FailedStore, OthersSame, Trim, NoLeaks, Grew, Shows, BlockLimit, Overwritten, StoreTook, CursorOf;
    ghost var a, pos := f.volume.Img(), f.pos;
    MappedFile(a, live, f.ino);
    var r := f.Store(buf, live);
    ghost var b := f.volume.Img();
    MappedFile(b, live, f.ino);
    StoreBehaves(a, b, f.ino, pos, buf, r, f.pos);
    reply := Outcome(r);
  }

  lemma SetEndBehaves(a: Image, b: Image, live: set<nat>, ino: nat, pos: nat, n: nat, r: Result<nat>, pos': nat)
    requires ino in live && Sound(a, live) && SetEndDone(a, b, live, ino, n, r)
    requires r.Ok? ==> pos' == Min(pos, n)
    requires r.Err? ==> pos' == pos
    ensures Behaves(CursorOf(a, ino, pos), Cntl(Command.SetEnd(n)), Outcome(r), CursorOf(b, ino, pos'))
    ensures b.inodes[ino].size == if r.Ok? then n else a.inodes[ino].size
    ensures OthersSame(a, b, live, ino) && b.inodeBits == a.inodeBits
    ensures TidyExact(a, b, live, ino, CursorOf(a, ino, pos), Cntl(Command.SetEnd(n)), Outcome(r))
  {
    hide Sound, Contents, OthersSame, NoLeaks, Trim, Grew, Shows, BlockLimit, WantsOf, Lacking, FreeCount, Minus, LimitOf, Resized;
    ContentsLength(a, ino);
    ContentsLength(b, ino);
    CursorLimit(a, ino, pos);
    CursorLimit(b, ino, pos');
    WantsAt(a, ino);
    ResizedLength(a, b, live, ino, n, r);
    if r.Ok? {
      CursorTook(a, b, ino, pos');
      if n <= a.inodes[ino].size && Tidy(a, live, ino) {
        CutIsExact(a, live, ino, n);
      }
    }
  }

  lemma ResizedLength(a: Image, b: Image, live: set<nat>, ino: nat, n: nat, r: Result<nat>)
    requires SetEndDone(a, b, live, ino, n, r)
    ensures b.inodes[ino].size == if r.Ok? then n else a.inodes[ino].size
  {
    hide OthersSame, Kept, Shows, Grew, FailureExact, BlockLimit, Trim, FreeCount, Lacking;
    ContentsLength(a, ino);
    ContentsLength(b, ino);
  }

  method DoCntl(f: File, cmd: Command, ghost live: set<nat>) returns (reply: Reply)
    requires InStep(f, live)
    modifies f, f.volume
    ensures InStep(f, live) && Behaves(old(View(f)), Cntl(cmd), reply, View(f))
    ensures TidyExact(old(f.volume.Img()), f.volume.Img(), live, f.ino, old(View(f)), Cntl(cmd), reply)
    ensures OthersSame(old(f.volume.Img()), f.volume.Img(), live, f.ino) && f.volume.InodeBits() == old(f.volume.InodeBits())
  {
    hide Sound, Contents, SetEndDone, NoLeaks, Trim, BlockLimit, WantsOf, FreeCount, LimitOf, Minus;
    ghost var a, pos := f.volume.Img(), f.pos;
    var r := f.Cntl(cmd, live);
    ContentsLength(a, f.ino);
    if cmd.SetEnd? {
      SetEndBehaves(a, f.volume.Img(), live, f.ino, pos, cmd.value, r, f.pos);
      MappedFile(f.volume.Img(), live, f.ino);
    }
    reply := Outcome(r);
  }

  method Do(f: File, call: Call, ghost live: set<nat>) returns (reply: Reply)
    requires InStep(f, live)
    modifies f, f.volume
    ensures InStep(f, live)
    ensures Behaves(old(View(f)), call, reply, View(f))
    ensures TidyExact(old(f.volume.Img()), f.volume.Img(), live, f.ino, old(View(f)), call, reply)
    ensures OthersSame(old(f.volume.Img()), f.volume.Img(), live, f.ino) && f.volume.InodeBits() == old(f.volume.InodeBits())
  {
    hide Behaves, Sound, Contents, Tidy, BlockLimit, OthersSame;
    KeptNothing(f.volume.Img(), live, f.ino);
    match call
    case Fetch(len) => reply := DoFetch(f, len, live);
    case Store(buf) => reply := DoStore(f, buf, live);
    case Cntl(cmd) => reply := DoCntl(f, cmd, live);
  }

  lemma GrowsStaysTidy(a: Image, d: Image, live: set<nat>, ino: nat, c: Cursor, call: Call, reply: Reply)
    requires TidyExact(a, d, live, ino, c, call, reply)
    ensures Grows(c, call, reply) && Tidy(a, live, ino) ==> Tidy(d, live, ino)
  {
    hide Tidy;
  }

  /** `views` are the cursor states before, between and after the calls. */
  ghost predicate Run(views: seq<Cursor>, calls: seq<Call>, replies: seq<Reply>) {
    && |views| == |calls| + 1 && |replies| == |calls|
    && forall i :: 0 <= i < |calls| ==> Behaves(views[i], calls[i], replies[i], views[i + 1])
  }

  ghost predicate AllGrow(views: seq<Cursor>, calls: seq<Call>, replies: seq<Reply>) {
    |views| == |calls| + 1 && |replies| == |calls| && forall i :: 0 <= i < |calls| ==> Grows(views[i], calls[i], replies[i])
  }

  lemma AllGrowLast(views: seq<Cursor>, calls: seq<Call>, replies: seq<Reply>, v: Cursor, call: Call, reply: Reply)
    requires |views| == |calls| + 1 && |replies| == |calls|
    ensures AllGrow(views + [v], calls + [call], replies + [reply]) <==>
            AllGrow(views, calls, replies) && Grows(views[|calls|], call, reply)
  {
    var vs, cs, rs := views + [v], calls + [call], replies + [reply];
    assert forall i :: 0 <= i < |calls| ==> vs[i] == views[i] && cs[i] == calls[i] && rs[i] == replies[i];
    if AllGrow(vs, cs, rs) {
      assert Grows(vs[|calls|], cs[|calls|], rs[|calls|]);
    }
  }

  lemma RunStart(v: Cursor)
    ensures Run([v], [], []) && AllGrow([v], [], [])
  {
  }

  lemma RunLast(views: seq<Cursor>, calls: seq<Call>, replies: seq<Reply>, v: Cursor, call: Call, reply: Reply)
    requires Run(views, calls, replies) && Behaves(views[|calls|], call, reply, v)
    ensures Run(views + [v], calls + [call], replies + [reply])
  {
  }

  /** Every run of calls through one handle is a run of a byte sequence with a cursor, and touches no
      other file. */
  method DoAll(f: File, calls: seq<Call>, ghost live: set<nat>) returns (replies: seq<Reply>, ghost views: seq<Cursor>)
    requires InStep(f, live)
    modifies f, f.volume
    ensures InStep(f, live)
    ensures Run(views, calls, replies) && views[0] == old(View(f)) && views[|calls|] == View(f)
    ensures AllGrow(views, calls, replies) && Tidy(old(f.volume.Img()), live, f.ino) ==> Tidy(f.volume.Img(), live, f.ino)
    ensures OthersSame(old(f.volume.Img()), f.volume.Img(), live, f.ino) && f.volume.InodeBits() == old(f.volume.InodeBits())
  {
    hide Behaves, Grows, Sound, Contents, OthersSame, Tidy, Run, AllGrow, BlockLimit;
    ghost var a := f.volume.Img();
    KeptNothing(a, live, f.ino);
    SoundOwned(a, live);
    RunStart(View(f));
    replies, views := [], [View(f)];
    for i := 0 to |calls|
      invariant InStep(f, live)
      invariant |views| == i + 1 && |replies| == i && Run(views, calls[..i], replies) && views[0] == old(View(f)) && views[i] == View(f)
      invariant AllGrow(views, calls[..i], replies) && Tidy(a, live, f.ino) ==> Tidy(f.volume.Img(), live, f.ino)
      invariant OthersSame(a, f.volume.Img(), live, f.ino) && f.volume.InodeBits() == a.inodeBits
    {
      ghost var b := f.volume.Img();
      ghost var c := View(f);
      var reply := Do(f, calls[i], live);
      GrowsStaysTidy(b, f.volume.Img(), live, f.ino, c, calls[i], reply);
      OthersSameTransitive(a, b, f.volume.Img(), live, f.ino);
      RunLast(views, calls[..i], replies, View(f), calls[i], reply);
      AllGrowLast(views, calls[..i], replies, View(f), calls[i], reply);
      assert calls[..i + 1] == calls[..i] + [calls[i]];
      replies, views := replies + [reply], views + [View(f)];
    }
    assert calls[..|calls|] == calls;
  }

  /** What was stored is what a later fetch from the same place returns. */
  lemma ReadBack(views: seq<Cursor>, replies: seq<Reply>, buf: seq<Byte>)
    requires |views| == 4 && Run(views, [Store(buf), Cntl(SetPos(views[0].pos)), Fetch(|buf|)], replies)
    requires replies[0].Outcome? && replies[0].r.Ok?
    ensures replies[2] == Bytes(buf)
  {
    var calls := [Store(buf), Cntl(SetPos(views[0].pos)), Fetch(|buf|)];
    assert Behaves(views[0], calls[0], replies[0], views[1]);
    assert Behaves(views[1], calls[1], replies[1], views[2]);
    assert Behaves(views[2], calls[2], replies[2], views[3]);
  }
}
