/** What the block cache promises its clients over whole runs of calls. */
module CacheRuns {
  import opened Results
  import opened CacheSpec

  // ---------------------------------------------------------------- one call

  /** The entry that a successful call hands out. */
  function Handed(s: State): Entry
    requires s.entries != []
  {
    s.entries[|s.entries| - 1]
  }

  /** A call that takes over an unheld entry for a position that the device then refuses. */
  predicate Mislabels(s: State, pos: nat) {
    && pos % CACHE_BLKSZ == 0 && Find(s.entries, pos) == |s.entries| >= CACHE_BLKS && Victim(s.entries) < |s.entries|
    && !OnDevice(s.device, pos)
  }

  /** A call can succeed: the position is aligned, and it is cached already or on the device with an entry to spare. */
  predicate Obtainable(s: State, pos: nat) {
    && pos % CACHE_BLKSZ == 0
    && (Find(s.entries, pos) < |s.entries|
        || (OnDevice(s.device, pos) && (|s.entries| < CACHE_BLKS || Victim(s.entries) < |s.entries|)))
  }

  /** Clients see the same disk before and after. */
  ghost predicate SameDisk(s: State, t: State) {
    Positions(s.entries) && Positions(t.entries) && Logical(t) == Logical(s)
  }

  /** Putting an entry that agrees with the logical disk into the table. */
  lemma AgreesWith(table: map<nat, Entry>, device: seq<Data>, owed: set<nat>, e: Entry)
    requires Agrees(table, device, owed) && OnDevice(device, e.pos) && e.pos % CACHE_BLKSZ == 0
    requires e.buf == LogicalAt(table, device, e.pos / CACHE_BLKSZ)
    requires !e.dirty ==> e.pos in table ==> !table[e.pos].dirty
    requires e.pos in owed ==> e.pins > 0
    ensures Agrees(table[e.pos := e], device, owed)
    ensures forall b: nat :: b < |device| ==> LogicalAt(table[e.pos := e], device, b) == LogicalAt(table, device, b)
  {
  }

  /** Writing an entry back and dropping it. */
  lemma AgreesWithout(table: map<nat, Entry>, device: seq<Data>, owed: set<nat>, e: Entry)
    requires Agrees(table, device, owed) && e.pos in table && table[e.pos] == e && e.pins == 0 && e.pos % CACHE_BLKSZ == 0
    requires forall p :: p in table ==> p % CACHE_BLKSZ == 0
    ensures var d := if e.dirty then device[e.pos / CACHE_BLKSZ := e.buf] else device;
      && Agrees(table - {e.pos}, d, owed)
      && (forall b: nat :: b < |device| ==> LogicalAt(table - {e.pos}, d, b) == LogicalAt(table, device, b))
  {
    forall p | p in table && p != e.pos ensures p / CACHE_BLKSZ != e.pos / CACHE_BLKSZ {
    }
  }

  lemma TablePositions(entries: seq<Entry>)
    requires Positions(entries)
    ensures forall p :: p in Table(entries) ==> p % CACHE_BLKSZ == 0 && Table(entries)[p].pos == p
    ensures forall i :: 0 <= i < |entries| ==> entries[i].pos in Table(entries) && Table(entries)[entries[i].pos] == entries[i]
  {
    hide Table, Positions;
    forall p | p in Table(entries) ensures p % CACHE_BLKSZ == 0 && Table(entries)[p].pos == p {
      FindInTable(entries, p);
    }
    forall i: nat | i < |entries| ensures entries[i].pos in Table(entries) && Table(entries)[entries[i].pos] == entries[i] {
      InTable(entries, i);
    }
  }

  /** A call keeps the cache coherent, and the disk its clients see, exactly when it does not take over an
      entry for a position the device refuses. It succeeds exactly when it can, and hands out the block's
      contents, held once more. */
  lemma GetIsTransparent(s: State, pos: nat)
    requires Coherent(s)
    ensures var (t, r) := Got(s, pos);
      && (Coherent(t) <==> !Mislabels(s, pos))
      && (Coherent(t) ==> SameDisk(s, t))
      && (r.Ok? <==> Obtainable(s, pos))
      && (r.Ok? ==> t.entries != [] && Handed(t).pos == pos && OnDevice(s.device, pos) && Handed(t).buf == Logical(s)[pos / CACHE_BLKSZ]
                    && Handed(t).pins == 1 + if pos in Table(s.entries) then Table(s.entries)[pos].pins else 0)
  {
    hide Agrees, Table, Positions;
    var i := Find(s.entries, pos);
    FindInTable(s.entries, pos);
    TablePositions(s.entries);
    var table := Table(s.entries);
    if pos % CACHE_BLKSZ == 0 {
      if i < |s.entries| {
        HitIsTransparent(s, i);
      } else if |s.entries| < CACHE_BLKS {
        if OnDevice(s.device, pos) {
          var e := Entry(pos, false, s.device[pos / CACHE_BLKSZ], 1);
          TableAppend(s.entries, e);
          OwedInTable(s);
          AgreesWith(table, s.device, s.owed, e);
        }
      } else if Victim(s.entries) < |s.entries| {
        EvictIsTransparent(s, Victim(s.entries), pos);
      }
    }
  }

  /** Which error: EIO when there is an entry to use and the device refuses the block, ENOTSUP for a position that is not
      aligned and for a cache whose entries are all held. */
  lemma GetErrors(s: State, pos: nat)
    requires Coherent(s)
    ensures var r := Got(s, pos).1;
      var cached := pos % CACHE_BLKSZ == 0 && pos in Table(s.entries);
      var room := |s.entries| < CACHE_BLKS || exists i :: 0 <= i < |s.entries| && s.entries[i].pins == 0;
      && (r == Err(EIO) <==> pos % CACHE_BLKSZ == 0 && !cached && room && !OnDevice(s.device, pos))
      && (r == Err(ENOTSUP) <==> pos % CACHE_BLKSZ != 0 || (!cached && !room))
      && EIO != ENOTSUP
  {
    hide Table, Positions;
    FindInTable(s.entries, pos);
    TablePositions(s.entries);
    OwedInTable(s);
  }

  /** A full cache: 64 clean entries that nobody holds, of a device of 64 blocks, block `i` filled with `i`. */
  function FullCache(): State {
    State(seq(64, (i: nat) => Entry(i * 512, false, seq(512, _ => i), 0)), seq(64, i => seq(512, _ => i)), {})
  }

  lemma FullCacheCoherent()
    ensures Coherent(FullCache())
  {
    hide Table;
    var s := FullCache();
    assert Positions(s.entries);
    TablePositions(s.entries);
    forall p | p in Table(s.entries)
      ensures OnDevice(s.device, p) && Table(s.entries)[p].buf == s.device[p / CACHE_BLKSZ]
    {
      FindInTable(s.entries, p);
      var i := Find(s.entries, p);
      assert s.entries[i] == Entry(i * 512, false, seq(512, _ => i), 0) && s.device[i] == seq(512, _ => i);
    }
  }

  /** A failed get of a position past the device takes over the entry of block 0; the next get of the same position
      succeeds and hands out the bytes of block 0. */
  lemma MislabelledBlock()
    ensures Coherent(FullCache()) && !OnDevice(FullCache().device, 32768)
    ensures var (t, r) := Got(FullCache(), 32768);
      && r == Err(EIO) && !Coherent(t)
      && var (u, q) := Got(t, 32768);
        q == Ok(()) && u.entries != [] && Handed(u) == Entry(32768, false, FullCache().device[0], 1)
  {
    hide Coherent, Logical;
    FullCacheCoherent();
    var s := FullCache();
    GetIsTransparent(s, 32768);
    assert Find(s.entries, 32768) == 64 && Victim(s.entries) == 0;
    var t := Got(s, 32768).0;
    assert t.entries[0] == Entry(32768, false, s.device[0], 0);
    assert Find(t.entries, 32768) == 0;
  }

  lemma OwedInTable(s: State)
    requires Coherent(s)
    ensures forall p :: p in s.owed ==> p in Table(s.entries)
    ensures forall p :: p in Table(s.entries) ==> OnDevice(s.device, p)
  {
  }

  lemma HitIsTransparent(s: State, i: nat)
    requires Coherent(s) && i < |s.entries|
    ensures var e := s.entries[i].(pins := s.entries[i].pins + 1);
      var t := s.(entries := ToBack(s.entries, i, e));
      Coherent(t) && SameDisk(s, t) && OnDevice(s.device, e.pos) && e.buf == Logical(s)[e.pos / CACHE_BLKSZ]
  {
    hide Agrees, Table, Positions;
    var e := s.entries[i].(pins := s.entries[i].pins + 1);
    TablePositions(s.entries);
    OwedInTable(s);
    TableToBack(s.entries, i, e);
    assert (Table(s.entries) - {e.pos})[e.pos := e] == Table(s.entries)[e.pos := e];
    AgreesWith(Table(s.entries), s.device, s.owed, e);
  }

  lemma EvictIsTransparent(s: State, v: nat, pos: nat)
    requires Coherent(s) && v < |s.entries| && s.entries[v].pins == 0 && pos % CACHE_BLKSZ == 0 && pos !in Table(s.entries)
    ensures var (t, r) := Evict(s, v, pos);
      if OnDevice(s.device, pos) then
        r.Ok? && Coherent(t) && SameDisk(s, t) && t.entries != [] && Handed(t) == Entry(pos, false, Logical(s)[pos / CACHE_BLKSZ], 1)
      else r == Err(EIO) && !Coherent(t)
  {
    hide Agrees, Table, Positions;
    var e := s.entries[v];
    TablePositions(s.entries);
    OwedInTable(s);
    AgreesWithout(Table(s.entries), s.device, s.owed, e);
    var dev := if e.dirty then s.device[e.pos / CACHE_BLKSZ := e.buf] else s.device;
    if OnDevice(s.device, pos) {
      var n := Entry(pos, false, dev[pos / CACHE_BLKSZ], 1);
      TableToBack(s.entries, v, n);
      AgreesWith(Table(s.entries) - {e.pos}, dev, s.owed, n);
    } else {
      var t := Evict(s, v, pos).0;
      if Coherent(t) {
        assert t.entries[v].pos == pos;
        TablePositions(t.entries);
        OwedInTable(t);
      }
    }
  }

  /** A held entry keeps its position, its buffer and its holders, whatever position is asked for. */
  lemma HeldStays(s: State, pos: nat, p: nat)
    requires Coherent(s) && p in Table(s.entries) && Table(s.entries)[p].pins > 0
    ensures var t := Got(s, pos).0;
      && Positions(t.entries) && p in Table(t.entries)
      && Table(t.entries)[p] == Table(s.entries)[p].(pins := Table(t.entries)[p].pins)
      && Table(t.entries)[p].pins >= Table(s.entries)[p].pins
  {
    hide Agrees, Table, Positions;
    var i, v := Find(s.entries, pos), Victim(s.entries);
    FindInTable(s.entries, pos);
    if pos % CACHE_BLKSZ == 0 {
      if i < |s.entries| {
        TableToBack(s.entries, i, s.entries[i].(pins := s.entries[i].pins + 1));
      } else if |s.entries| < CACHE_BLKS {
        if OnDevice(s.device, pos) {
          TableAppend(s.entries, Entry(pos, false, s.device[pos / CACHE_BLKSZ], 1));
        }
      } else if v < |s.entries| {
        InTable(s.entries, v);
        EvictOthersStay(s, v, pos, p);
      }
    }
  }

  lemma EvictOthersStay(s: State, v: nat, pos: nat, p: nat)
    requires Positions(s.entries) && v < |s.entries| && pos % CACHE_BLKSZ == 0 && pos !in Table(s.entries)
    requires p in Table(s.entries) && p != s.entries[v].pos
    ensures var t := Evict(s, v, pos).0;
      Positions(t.entries) && p in Table(t.entries) && Table(t.entries)[p] == Table(s.entries)[p]
  {
    hide Agrees, Table, Positions;
    var e := s.entries[v];
    FindInTable(s.entries, p);
    var dev := if e.dirty && OnDevice(s.device, e.pos) then s.device[e.pos / CACHE_BLKSZ := e.buf] else s.device;
    if OnDevice(dev, pos) {
      TableToBack(s.entries, v, Entry(pos, false, dev[pos / CACHE_BLKSZ], 1));
    } else {
      TableReplaced(s.entries, v, Entry(pos, false, e.buf, 0), p);
    }
  }

  lemma TableReplaced(entries: seq<Entry>, v: nat, e: Entry, p: nat)
    requires Positions(entries) && v < |entries| && e.pos % CACHE_BLKSZ == 0 && e.pos !in Table(entries)
    requires p in Table(entries) && p != entries[v].pos
    ensures Positions(entries[v := e]) && p in Table(entries[v := e]) && Table(entries[v := e])[p] == Table(entries)[p]
  {
    hide Table;
    var after, j := entries[v := e], Find(entries, p);
    FindInTable(entries, p);
    forall i: nat | i < |entries| ensures entries[i].pos != e.pos {
      InTable(entries, i);
    }
    assert Positions(after) && after[j] == entries[j];
    InTable(after, j);
  }

  // ---------------------------------------------------------------- runs

  datatype Op = Get(pos: nat) | Release(pos: nat, dirty: bool) | Write(pos: nat, data: Data) | Flush

  /** What the cache asks of its clients and of the device: positions exist on the device, only held
      buffers are written or released, and the last holder of a changed buffer releases it as dirty. */
  ghost predicate Allowed(s: State, op: Op) {
    match op
    case Get(pos) => OnDevice(s.device, pos)
    case Release(pos, dirty) =>
      && Positions(s.entries) && pos in Table(s.entries) && Table(s.entries)[pos].pins > 0
      && (pos in s.owed && Table(s.entries)[pos].pins == 1 ==> dirty)
    case Write(pos, _) => Positions(s.entries) && pos in Table(s.entries) && Table(s.entries)[pos].pins > 0
    case Flush => true
  }

  function Step(s: State, op: Op): (State, Result<()>) {
    match op
    case Get(pos) => Got(s, pos)
    case Release(pos, dirty) =>
      var i := Find(s.entries, pos);
      if i < |s.entries| then (Released(s, i, dirty), Ok(())) else (s, Ok(()))
    case Write(pos, data) =>
      var i := Find(s.entries, pos);
      if i < |s.entries| then (Changed(s, i, data), Ok(())) else (s, Ok(()))
    case Flush => FlushFrom(s, 0)
  }

  /** What a call does to the disk its clients see: nothing, unless a client writes. */
  function Seen(disk: seq<Data>, op: Op): seq<Data> {
    if op.Write? && op.pos / CACHE_BLKSZ < |disk| then disk[op.pos / CACHE_BLKSZ := op.data] else disk
  }

  lemma ReleaseIsTransparent(s: State, pos: nat, dirty: bool)
    requires Coherent(s) && Allowed(s, Release(pos, dirty))
    ensures var t := Step(s, Release(pos, dirty)).0; Coherent(t) && SameDisk(s, t)
  {
    hide Table, Positions;
    var i := Find(s.entries, pos);
    FindInTable(s.entries, pos);
    var t := Released(s, i, dirty);
    TableReplace(s.entries, i, t.entries[i]);
  }

  lemma WriteIsSeen(s: State, pos: nat, data: Data)
    requires Coherent(s) && Allowed(s, Write(pos, data))
    ensures var t := Step(s, Write(pos, data)).0;
      Coherent(t) && Logical(t) == Seen(Logical(s), Write(pos, data)) && OnDevice(s.device, pos)
  {
    hide Table, Positions;
    var i := Find(s.entries, pos);
    FindInTable(s.entries, pos);
    var t := Changed(s, i, data);
    TableReplace(s.entries, i, t.entries[i]);
  }

  /** A client that changes a clean buffer and releases it as clean breaks that rule: the write is seen as long as the
      entry stays, and undone when the entry is taken over for another position. */
  lemma CleanReleaseForgets(s: State, i: nat, data: Data, pos: nat)
    requires Coherent(s) && i < |s.entries| && !s.entries[i].dirty && s.entries[i].pins == 1 && s.entries[i].pos !in s.owed
    requires pos % CACHE_BLKSZ == 0 && pos !in Table(s.entries) && OnDevice(s.device, pos)
    ensures var w := Changed(s, i, data);
      var t := Released(w, i, false);
      var (u, r) := Evict(t, i, pos);
      && Coherent(w) && !Allowed(w, Release(s.entries[i].pos, false)) && !Coherent(t)
      && Positions(t.entries) && Logical(t) == Logical(w) == Seen(Logical(s), Write(s.entries[i].pos, data))
      && r.Ok? && Positions(u.entries) && Logical(u) == Logical(s)
  {
    hide Table, Positions, Logical;
    var p := s.entries[i].pos;
    TablePositions(s.entries);
    SameEntryFound(s.entries, i);
    WriteIsSeen(s, p, data);
    var w, v := Changed(s, i, data), Released(s, i, false);
    var t := Released(w, i, false);
    TablePositions(w.entries);
    assert w.entries[i] == Entry(p, false, data, 1);
    TableReplace(w.entries, i, t.entries[i]);
    SameBuffers(w, t, i);
    ReleaseIsTransparent(s, p, false);
    TableReplace(s.entries, i, v.entries[i]);
    EvictIsTransparent(v, i, pos);
    var n := Entry(pos, false, s.device[pos / CACHE_BLKSZ], 1);
    assert ToBack(t.entries, i, n) == ToBack(v.entries, i, n);
    SameLogical(Evict(t, i, pos).0, Evict(v, i, pos).0);
  }

  lemma SameEntryFound(entries: seq<Entry>, i: nat)
    requires Positions(entries) && i < |entries|
    ensures Find(entries, entries[i].pos) == i
  {
  }

  lemma SameBuffers(w: State, t: State, i: nat)
    requires Positions(w.entries) && Positions(t.entries) && t.device == w.device && i < |w.entries|
    requires w.entries[i].pos in Table(w.entries) && Table(w.entries)[w.entries[i].pos] == w.entries[i]
    requires Table(t.entries) == Table(w.entries)[w.entries[i].pos := w.entries[i].(pins := 0)]
    ensures Logical(t) == Logical(w)
  {
    hide Table, Positions;
  }

  lemma SameLogical(t: State, v: State)
    requires t.entries == v.entries && t.device == v.device && Positions(v.entries)
    ensures Positions(t.entries) && Logical(t) == Logical(v)
  {
    hide Table, Positions;
  }

  /** The flush from entry `i` on succeeds, and afterwards no entry from `i` on is dirty. */
  lemma {:induction false} FlushIsTransparent(s: State, i: nat)
    requires Coherent(s) && i <= |s.entries|
    ensures var (t, r) := FlushFrom(s, i);
      && r.Ok? && Coherent(t) && SameDisk(s, t) && t.owed == s.owed && |t.entries| == |s.entries|
      && (forall j :: 0 <= j < |t.entries| ==>
            t.entries[j] == s.entries[j].(dirty := t.entries[j].dirty) && (t.entries[j].dirty ==> j < i && s.entries[j].dirty))
    decreases |s.entries| - i
  {
    hide Table, Positions, Agrees;
    if i < |s.entries| {
      var e := s.entries[i];
      if e.dirty {
        TablePositions(s.entries);
        OwedInTable(s);
        var u := State(s.entries[i := e.(dirty := false)], s.device[e.pos / CACHE_BLKSZ := e.buf], s.owed);
        TableReplace(s.entries, i, e.(dirty := false));
        CleanAgrees(Table(s.entries), s.device, s.owed, e);
        FlushIsTransparent(u, i + 1);
      } else {
        FlushIsTransparent(s, i + 1);
      }
    }
  }

  lemma CleanAgrees(table: map<nat, Entry>, device: seq<Data>, owed: set<nat>, e: Entry)
    requires Agrees(table, device, owed) && e.pos in table && table[e.pos] == e
    requires forall p :: p in table ==> p % CACHE_BLKSZ == 0
    ensures var (m, d) := (table[e.pos := e.(dirty := false)], device[e.pos / CACHE_BLKSZ := e.buf]);
      && Agrees(m, d, owed)
      && (forall b: nat :: b < |device| ==> LogicalAt(m, d, b) == LogicalAt(table, device, b))
  {
    forall p | p in table && p != e.pos ensures p / CACHE_BLKSZ != e.pos / CACHE_BLKSZ {
    }
  }

  /** After a flush the device is the disk its clients see, at every block no client is changing. */
  lemma FlushReachesDevice(s: State, b: nat)
    requires Coherent(s) && b < |s.device| && b * CACHE_BLKSZ !in s.owed
    ensures var t := Step(s, Flush).0; |t.device| == |s.device| && t.device[b] == Logical(s)[b]
  {
    hide Table, Positions;
    FlushIsTransparent(s, 0);
    var t := FlushFrom(s, 0).0;
    FindInTable(t.entries, b * CACHE_BLKSZ);
    assert Logical(t)[b] == LogicalAt(Table(t.entries), t.device, b);
  }

  lemma StepIsTransparent(s: State, op: Op)
    requires Coherent(s) && Allowed(s, op)
    ensures var (t, r) := Step(s, op);
      && Coherent(t) && Logical(t) == Seen(Logical(s), op)
      && (op.Get? && r.Ok? ==> t.entries != [] && Handed(t).pos == op.pos && Handed(t).buf == Logical(s)[op.pos / CACHE_BLKSZ])
  {
    hide Table, Positions, Agrees;
    match op
    case Get(pos) => GetIsTransparent(s, pos);
    case Release(pos, dirty) => ReleaseIsTransparent(s, pos, dirty);
    case Write(pos, data) => WriteIsSeen(s, pos, data);
    case Flush => FlushIsTransparent(s, 0);
  }

  /** `states` are the cache states before, between and after the calls. */
  ghost predicate Run(states: seq<State>, ops: seq<Op>) {
    && |states| == |ops| + 1
    && forall i :: 0 <= i < |ops| ==> Allowed(states[i], ops[i]) && states[i + 1] == Step(states[i], ops[i]).0
  }

  /** The disk after a run: only the clients' writes, in order. */
  function SeenAll(disk: seq<Data>, ops: seq<Op>): seq<Data> {
    if ops == [] then disk else Seen(SeenAll(disk, ops[..|ops| - 1]), ops[|ops| - 1])
  }

  /** Over every run the cache stays coherent, and after any number of calls the disk its clients see is
      the first one with the clients' writes applied in order. */
  lemma {:induction false} RunIsTransparent(states: seq<State>, ops: seq<Op>, n: nat)
    requires Run(states, ops) && Coherent(states[0]) && n <= |ops|
    ensures Coherent(states[n]) && Logical(states[n]) == SeenAll(Logical(states[0]), ops[..n])
  {
    hide Coherent, Logical, Step, Allowed;
    if n > 0 {
      RunIsTransparent(states, ops, n - 1);
      StepIsTransparent(states[n - 1], ops[n - 1]);
      assert ops[..n][..n - 1] == ops[..n - 1];
    }
  }

  /** Every successful get of a run hands out the last data written to its position, or the first disk's. */
  lemma GetReturnsLastWrite(states: seq<State>, ops: seq<Op>, n: nat)
    requires Run(states, ops) && Coherent(states[0]) && n < |ops| && ops[n].Get? && Step(states[n], ops[n]).1.Ok?
    ensures states[n + 1].entries != [] && Handed(states[n + 1]).pos == ops[n].pos && Handed(states[n + 1]).pins > 0
    ensures ops[n].pos / CACHE_BLKSZ < |SeenAll(Logical(states[0]), ops[..n])|
    ensures Handed(states[n + 1]).buf == SeenAll(Logical(states[0]), ops[..n])[ops[n].pos / CACHE_BLKSZ]
  {
    hide Coherent, Logical;
    RunIsTransparent(states, ops, n);
    GetIsTransparent(states[n], ops[n].pos);
  }

  // ---------------------------------------------------------------- holders

  /** How many clients hold the buffer of a position. */
  ghost function PinsOf(s: State, p: nat): nat
    requires Positions(s.entries)
  {
    if p in Table(s.entries) then Table(s.entries)[p].pins else 0
  }

  lemma GetPins(s: State, pos: nat, p: nat)
    requires Coherent(s)
    ensures var (t, r) := Got(s, pos);
      Positions(t.entries) && (OnDevice(s.device, pos) ==> PinsOf(t, p) == PinsOf(s, p) + if r.Ok? && p == pos then 1 else 0)
  {
    hide Agrees, Table, Positions;
    var i, v := Find(s.entries, pos), Victim(s.entries);
    FindInTable(s.entries, pos);
    TablePositions(s.entries);
    OwedInTable(s);
    if pos % CACHE_BLKSZ == 0 {
      if i < |s.entries| {
        TableToBack(s.entries, i, s.entries[i].(pins := s.entries[i].pins + 1));
      } else if |s.entries| < CACHE_BLKS {
        if OnDevice(s.device, pos) {
          TableAppend(s.entries, Entry(pos, false, s.device[pos / CACHE_BLKSZ], 1));
        }
      } else if v < |s.entries| {
        EvictPins(s, v, pos, p);
      }
    }
  }

  lemma EvictPins(s: State, v: nat, pos: nat, p: nat)
    requires Coherent(s) && v < |s.entries| && s.entries[v].pins == 0 && pos % CACHE_BLKSZ == 0 && pos !in Table(s.entries)
    ensures var (t, r) := Evict(s, v, pos);
      Positions(t.entries) && (OnDevice(s.device, pos) ==> r.Ok? && PinsOf(t, p) == PinsOf(s, p) + if p == pos then 1 else 0)
  {
    hide Agrees, Table, Positions;
    var e := s.entries[v];
    TablePositions(s.entries);
    OwedInTable(s);
    var dev := if e.dirty then s.device[e.pos / CACHE_BLKSZ := e.buf] else s.device;
    if OnDevice(s.device, pos) {
      TableToBack(s.entries, v, Entry(pos, false, dev[pos / CACHE_BLKSZ], 1));
    } else {
      MislabelledPositions(s.entries, v, Entry(pos, false, e.buf, 0));
    }
  }

  lemma MislabelledPositions(entries: seq<Entry>, v: nat, e: Entry)
    requires Positions(entries) && v < |entries| && e.pos % CACHE_BLKSZ == 0 && e.pos !in Table(entries)
    ensures Positions(entries[v := e])
  {
    hide Table;
    TablePositions(entries);
  }

  /** A get that succeeds adds a holder of its position, a release takes one away, and nothing else changes any
      count. */
  lemma StepPins(s: State, op: Op, p: nat)
    requires Coherent(s) && Allowed(s, op)
    ensures Positions(Step(s, op).0.entries)
    ensures PinsOf(Step(s, op).0, p) ==
            PinsOf(s, p) + (if op == Get(p) && Step(s, op).1.Ok? then 1 else 0) - (if op.Release? && op.pos == p then 1 else 0)
  {
    hide Agrees, Table, Positions;
    TablePositions(s.entries);
    match op
    case Get(pos) => GetPins(s, pos, p);
    case Release(pos, dirty) =>
      var i := Find(s.entries, pos);
      FindInTable(s.entries, pos);
      TableReplace(s.entries, i, Released(s, i, dirty).entries[i]);
    case Write(pos, data) =>
      var i := Find(s.entries, pos);
      FindInTable(s.entries, pos);
      TableReplace(s.entries, i, Changed(s, i, data).entries[i]);
    case Flush => FlushPins(s, p);
  }

  lemma FlushPins(s: State, p: nat)
    requires Coherent(s)
    ensures Positions(FlushFrom(s, 0).0.entries) && PinsOf(FlushFrom(s, 0).0, p) == PinsOf(s, p)
  {
    hide Agrees, Table, Positions;
    FlushIsTransparent(s, 0);
    var t := FlushFrom(s, 0).0;
    TablePositions(s.entries);
    TablePositions(t.entries);
    FindInTable(s.entries, p);
    FindInTable(t.entries, p);
    var i, j := Find(s.entries, p), Find(t.entries, p);
    assert i < |s.entries| ==> t.entries[i].pos == p;
    assert j < |t.entries| ==> s.entries[j].pos == p;
  }

  /** How many of the first `n` calls were gets of a position that succeeded, less those that were releases of it. */
  function Holders(states: seq<State>, ops: seq<Op>, p: nat, n: nat): int
    requires n <= |ops| < |states|
  {
    if n == 0 then 0
    else
      Holders(states, ops, p, n - 1)
      + match ops[n - 1]
        case Get(pos) => if pos == p && Step(states[n - 1], ops[n - 1]).1.Ok? then 1 else 0
        case Release(pos, _) => if pos == p then -1 else 0
        case _ => 0
  }

  /** Over every run from an empty cache, a buffer is held as often as it was got and not yet released. */
  lemma {:induction false} PinsAreHolders(states: seq<State>, ops: seq<Op>, p: nat, n: nat)
    requires Run(states, ops) && Coherent(states[0]) && states[0].entries == [] && n <= |ops|
    ensures Coherent(states[n]) && PinsOf(states[n], p) == Holders(states, ops, p, n)
  {
    hide Coherent, Step, Allowed, PinsOf;
    RunIsTransparent(states, ops, n);
    if n == 0 {
      NobodyHolds(states[0], p);
    } else {
      PinsAreHolders(states, ops, p, n - 1);
      StepPins(states[n - 1], ops[n - 1], p);
    }
  }

  lemma NobodyHolds(s: State, p: nat)
    requires Positions(s.entries) && s.entries == []
    ensures PinsOf(s, p) == 0
  {
  }

  /** When every get has been released, the cache serves every block of the device. */
  lemma ReleasedServes(states: seq<State>, ops: seq<Op>, n: nat, pos: nat)
    requires Run(states, ops) && Coherent(states[0]) && states[0].entries == [] && n <= |ops|
    requires forall p: nat :: Holders(states, ops, p, n) == 0
    requires pos % CACHE_BLKSZ == 0 && OnDevice(states[n].device, pos)
    ensures Got(states[n], pos).1.Ok?
  {
    hide Table, Step, Allowed, Got, Coherent;
    var s := states[n];
    PinsAreHolders(states, ops, pos, n);
    GetIsTransparent(s, pos);
    CoherentParts(s);
    TablePositions(s.entries);
    if |s.entries| >= CACHE_BLKS {
      PinsAreHolders(states, ops, s.entries[0].pos, n);
      assert s.entries[0].pins == 0;
    }
  }

  lemma CoherentParts(s: State)
    requires Coherent(s)
    ensures Positions(s.entries)
  {
  }

  // ---------------------------------------------------------------- recency

  /** Index of the last successful get of `p`, or -1. */
  function LastGet(history: seq<nat>, p: nat): (i: int)
    ensures -1 <= i < |history|
    ensures i >= 0 ==> history[i] == p
    ensures forall j :: i < j < |history| ==> history[j] != p
  {
    if history == [] then -1
    else if history[|history| - 1] == p then |history| - 1
    else LastGet(history[..|history| - 1], p)
  }

  function History(history: seq<nat>, s: State, op: Op): seq<nat> {
    if op.Get? && Step(s, op).1.Ok? then history + [op.pos] else history
  }

  /** The entries stand in the order of their last successful get. */
  ghost predicate ByRecency(history: seq<nat>, entries: seq<Entry>) {
    && (forall i :: 0 <= i < |entries| ==> LastGet(history, entries[i].pos) >= 0)
    && (forall i, j :: 0 <= i < j < |entries| ==> LastGet(history, entries[i].pos) < LastGet(history, entries[j].pos))
  }

  lemma LastGetAppend(history: seq<nat>, p: nat, q: nat)
    ensures LastGet(history + [p], q) == if p == q then |history| else LastGet(history, q)
  {
    assert (history + [p])[..|history|] == history;
  }

  lemma RecencySamePositions(history: seq<nat>, a: seq<Entry>, b: seq<Entry>)
    requires ByRecency(history, a) && |b| == |a| && forall i :: 0 <= i < |a| ==> b[i].pos == a[i].pos
    ensures ByRecency(history, b)
  {
  }

  lemma RecencyToBack(history: seq<nat>, entries: seq<Entry>, i: nat, e: Entry)
    requires ByRecency(history, entries) && i <= |entries|
    requires forall j :: 0 <= j < |entries| && j != i ==> entries[j].pos != e.pos
    ensures ByRecency(history + [e.pos], entries[..i] + (if i < |entries| then entries[i + 1..] else []) + [e])
  {
    var after := entries[..i] + (if i < |entries| then entries[i + 1..] else []) + [e];
    forall j: nat | j < |after| ensures LastGet(history + [e.pos], after[j].pos) ==
      if j == |after| - 1 then |history| else LastGet(history, entries[if j < i then j else j + 1].pos)
    {
      LastGetAppend(history, e.pos, after[j].pos);
    }
  }

  lemma GetKeepsRecency(s: State, pos: nat, history: seq<nat>)
    requires Positions(s.entries) && OnDevice(s.device, pos) && ByRecency(history, s.entries) && Got(s, pos).1.Ok?
    ensures ByRecency(history + [pos], Got(s, pos).0.entries)
  {
    hide Table, ByRecency, Positions;
    FindInTable(s.entries, pos);
    var i, t := Find(s.entries, pos), Got(s, pos).0;
    if i < |s.entries| {
      OthersDiffer(s.entries, i);
      RecencyToBack(history, s.entries, i, s.entries[i].(pins := s.entries[i].pins + 1));
    } else {
      var v := if |s.entries| < CACHE_BLKS then |s.entries| else Victim(s.entries);
      RecencyToBack(history, s.entries, v, Handed(t));
      assert t.entries == s.entries[..v] + (if v < |s.entries| then s.entries[v + 1..] else []) + [Handed(t)];
    }
  }

  lemma OthersDiffer(entries: seq<Entry>, i: nat)
    requires Positions(entries) && i < |entries|
    ensures forall j :: 0 <= j < |entries| && j != i ==> entries[j].pos != entries[i].pos
  {
  }

  /** Every call keeps the entries in order of last successful get. */
  lemma StepKeepsRecency(s: State, op: Op, history: seq<nat>)
    requires Coherent(s) && Allowed(s, op) && ByRecency(history, s.entries)
    ensures ByRecency(History(history, s, op), Step(s, op).0.entries)
  {
    hide Table, Agrees, ByRecency, Positions;
    var t := Step(s, op).0;
    match op
    case Get(pos) =>
      if Step(s, op).1.Ok? {
        GetKeepsRecency(s, pos, history);
      }
    case Release(pos, dirty) => RecencySamePositions(history, s.entries, t.entries);
    case Write(pos, data) => RecencySamePositions(history, s.entries, t.entries);
    case Flush =>
      FlushIsTransparent(s, 0);
      RecencySamePositions(history, s.entries, t.entries);
  }

  /** The positions successfully got in the first `n` calls of a run, in order. */
  function HistoryOf(states: seq<State>, ops: seq<Op>, n: nat): seq<nat>
    requires n <= |ops| < |states|
  {
    if n == 0 then [] else History(HistoryOf(states, ops, n - 1), states[n - 1], ops[n - 1])
  }

  /** Over every run from an empty cache, the block given up is the one least recently got among those
      nobody holds. */
  lemma {:induction false} VictimIsLeastRecent(states: seq<State>, ops: seq<Op>, n: nat)
    requires Run(states, ops) && Coherent(states[0]) && states[0].entries == [] && n <= |ops|
    ensures ByRecency(HistoryOf(states, ops, n), states[n].entries)
    ensures var es, v := states[n].entries, Victim(states[n].entries);
      forall i :: 0 <= i < |es| && es[i].pins == 0 && i != v ==>
        v < |es| && LastGet(HistoryOf(states, ops, n), es[v].pos) < LastGet(HistoryOf(states, ops, n), es[i].pos)
  {
    hide Coherent, Step, Allowed;
    if n > 0 {
      VictimIsLeastRecent(states, ops, n - 1);
      RunIsTransparent(states, ops, n - 1);
      StepKeepsRecency(states[n - 1], ops[n - 1], HistoryOf(states, ops, n - 1));
    }
  }
}
