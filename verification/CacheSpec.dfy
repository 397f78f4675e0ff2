/** The block cache as values: a list of entries, least recently used first, over a device. */
module CacheSpec {
  import opened Results

  const CACHE_BLKSZ := 512
  const CACHE_BLKS := 64

  type Data = seq<int>

  /** One cached block. `pins` counts the clients that hold its buffer. */
  datatype Entry = Entry(pos: nat, dirty: bool, buf: Data, pins: nat)

  /** `owed` holds the positions whose buffer a client has changed and not yet released as dirty. */
  datatype State = State(entries: seq<Entry>, device: seq<Data>, owed: set<nat>)

  predicate OnDevice(device: seq<Data>, pos: nat) {
    pos / CACHE_BLKSZ < |device|
  }

  /** Index of the entry for `pos`, or the length if there is none. */
  function Find(entries: seq<Entry>, pos: nat): (i: nat)
    ensures i <= |entries|
    ensures i < |entries| ==> entries[i].pos == pos
    ensures forall j :: 0 <= j < i ==> entries[j].pos != pos
  {
    if entries == [] || entries[0].pos == pos then 0 else 1 + Find(entries[1..], pos)
  }

  /** Index of the first entry nobody holds, or the length if all are held. */
  function Victim(entries: seq<Entry>): (i: nat)
    ensures i <= |entries|
    ensures i < |entries| ==> entries[i].pins == 0
    ensures forall j :: 0 <= j < i ==> entries[j].pins > 0
  {
    if entries == [] || entries[0].pins == 0 then 0 else 1 + Victim(entries[1..])
  }

  /** Entry `i` goes to the most recently used end, as `e`. */
  function ToBack(entries: seq<Entry>, i: nat, e: Entry): seq<Entry>
    requires i < |entries|
  {
    entries[..i] + entries[i + 1..] + [e]
  }

  /** cache_get_block: the new state, and whether the call succeeded. */
  function Got(s: State, pos: nat): (State, Result<()>) {
    if pos % CACHE_BLKSZ != 0 then (s, Err(ENOTSUP))
    else
      var i := Find(s.entries, pos);
      if i < |s.entries| then
        (s.(entries := ToBack(s.entries, i, s.entries[i].(pins := s.entries[i].pins + 1))), Ok(()))
      else if |s.entries| < CACHE_BLKS then
        if OnDevice(s.device, pos) then
          (s.(entries := s.entries + [Entry(pos, false, s.device[pos / CACHE_BLKSZ], 1)]), Ok(()))
        else (s, Err(EIO))
      else
        var v := Victim(s.entries);
        if v == |s.entries| then (s, Err(ENOTSUP))
        else Evict(s, v, pos)
  }

  /** Entry `v` is written back if dirty and then taken over for `pos`. When the fetch fails, the entry
      keeps its old buffer under the new position. */
  function Evict(s: State, v: nat, pos: nat): (State, Result<()>)
    requires v < |s.entries|
  {
    var e := s.entries[v];
    if e.dirty && !OnDevice(s.device, e.pos) then (s, Err(EIO))
    else
      var dev := if e.dirty then s.device[e.pos / CACHE_BLKSZ := e.buf] else s.device;
      if OnDevice(dev, pos) then
        (State(ToBack(s.entries, v, Entry(pos, false, dev[pos / CACHE_BLKSZ], 1)), dev, s.owed), Ok(()))
      else (State(s.entries[v := Entry(pos, false, e.buf, 0)], dev, s.owed), Err(EIO))
  }

  /** cache_release_block of the entry at index `i`. */
  function Released(s: State, i: nat, dirty: bool): State
    requires i < |s.entries|
  {
    var e := s.entries[i];
    var e' := Entry(e.pos, e.dirty || dirty, e.buf, if e.pins > 0 then e.pins - 1 else 0);
    s.(entries := s.entries[i := e'], owed := if dirty then s.owed - {e.pos} else s.owed)
  }

  /** A client stores `data` in a buffer it holds. */
  function Changed(s: State, i: nat, data: Data): State
    requires i < |s.entries|
  {
    s.(entries := s.entries[i := s.entries[i].(buf := data)], owed := s.owed + {s.entries[i].pos})
  }

  /** cache_flush, entry by entry from index `i` on; it stops at the first entry the device refuses. */
  function FlushFrom(s: State, i: nat): (State, Result<()>)
    requires i <= |s.entries|
    decreases |s.entries| - i
  {
    if i == |s.entries| then (s, Ok(()))
    else
      var e := s.entries[i];
      if !e.dirty then FlushFrom(s, i + 1)
      else if !OnDevice(s.device, e.pos) then (s, Err(EIO))
      else
        FlushFrom(State(s.entries[i := e.(dirty := false)], s.device[e.pos / CACHE_BLKSZ := e.buf], s.owed), i + 1)
  }

  // ---------------------------------------------------------------- coherence

  /** At most `CACHE_BLKS` entries, with distinct aligned positions. */
  ghost predicate Positions(entries: seq<Entry>) {
    && |entries| <= CACHE_BLKS
    && (forall i :: 0 <= i < |entries| ==> entries[i].pos % CACHE_BLKSZ == 0)
    && (forall i, j :: 0 <= i < j < |entries| ==> entries[i].pos != entries[j].pos)
  }

  /** The entries by position. */
  ghost function Table(entries: seq<Entry>): map<nat, Entry>
    requires Positions(entries)
  {
    if entries == [] then map[] else Table(entries[1..])[entries[0].pos := entries[0]]
  }

  lemma {:induction false} InTable(entries: seq<Entry>, i: nat)
    requires Positions(entries) && i < |entries|
    ensures entries[i].pos in Table(entries) && Table(entries)[entries[i].pos] == entries[i]
  {
    if i > 0 {
      InTable(entries[1..], i - 1);
    }
  }

  lemma {:induction false} FindInTable(entries: seq<Entry>, pos: nat)
    requires Positions(entries)
    ensures Find(entries, pos) < |entries| <==> pos in Table(entries)
    ensures pos in Table(entries) ==> Table(entries)[pos] == entries[Find(entries, pos)] && pos % CACHE_BLKSZ == 0
  {
    if entries != [] {
      FindInTable(entries[1..], pos);
    }
  }

  /** Every cached position is on the device; a clean buffer no client is changing equals the device; and
      a buffer being changed is held. */
  ghost predicate Agrees(table: map<nat, Entry>, device: seq<Data>, owed: set<nat>) {
    && (forall p :: p in table ==> OnDevice(device, p))
    && (forall p :: p in table ==> !table[p].dirty ==> p !in owed ==> table[p].buf == device[p / CACHE_BLKSZ])
    && (forall p :: p in owed ==> p in table && table[p].pins > 0)
  }

  ghost predicate Coherent(s: State) {
    Positions(s.entries) && Agrees(Table(s.entries), s.device, s.owed)
  }

  /** The disk as clients see it: the cached buffer where a position is cached, the device otherwise. */
  ghost function Logical(s: State): (disk: seq<Data>)
    requires Positions(s.entries)
    ensures |disk| == |s.device|
  {
    seq(|s.device|, b requires 0 <= b < |s.device| => LogicalAt(Table(s.entries), s.device, b))
  }

  ghost function LogicalAt(table: map<nat, Entry>, device: seq<Data>, b: nat): Data
    requires b < |device|
  {
    if b * CACHE_BLKSZ in table then table[b * CACHE_BLKSZ].buf else device[b]
  }

  lemma PositionsWithout(entries: seq<Entry>, i: nat)
    requires Positions(entries) && i < |entries|
    ensures Positions(entries[..i] + entries[i + 1..])
    ensures forall j: nat :: j < |entries| && j != i ==> entries[j].pos != entries[i].pos
  {
  }

  lemma TableWithout(entries: seq<Entry>, i: nat)
    requires Positions(entries) && i < |entries|
    ensures Positions(entries[..i] + entries[i + 1..])
    ensures Table(entries[..i] + entries[i + 1..]) == Table(entries) - {entries[i].pos}
  {
    hide Table, Positions;
    PositionsWithout(entries, i);
    var after := entries[..i] + entries[i + 1..];
    forall p: nat ensures p in Table(after) <==> p in Table(entries) && p != entries[i].pos
      ensures p in Table(after) ==> p in Table(entries) && Table(after)[p] == Table(entries)[p]
    {
      if p in Table(after) {
        WithoutForth(entries, i, p);
      }
      if p in Table(entries) && p != entries[i].pos {
        WithoutBack(entries, i, p);
      }
    }
  }

  lemma WithoutForth(entries: seq<Entry>, i: nat, p: nat)
    requires Positions(entries) && i < |entries| && Positions(entries[..i] + entries[i + 1..])
    requires p in Table(entries[..i] + entries[i + 1..])
    ensures p in Table(entries) && Table(entries)[p] == Table(entries[..i] + entries[i + 1..])[p] && p != entries[i].pos
  {
    hide Table, Positions;
    PositionsWithout(entries, i);
    var after := entries[..i] + entries[i + 1..];
    FindInTable(after, p);
    var j := Find(after, p);
    assert after[j] == entries[if j < i then j else j + 1];
    InTable(entries, if j < i then j else j + 1);
  }

  lemma WithoutBack(entries: seq<Entry>, i: nat, p: nat)
    requires Positions(entries) && i < |entries| && Positions(entries[..i] + entries[i + 1..])
    requires p in Table(entries) && p != entries[i].pos
    ensures p in Table(entries[..i] + entries[i + 1..])
  {
    hide Table, Positions;
    FindInTable(entries, p);
    var j := Find(entries, p);
    var after := entries[..i] + entries[i + 1..];
    assert after[if j < i then j else j - 1] == entries[j];
    InTable(after, if j < i then j else j - 1);
  }

  lemma TableReplace(entries: seq<Entry>, i: nat, e: Entry)
    requires Positions(entries) && i < |entries| && e.pos == entries[i].pos
    ensures Positions(entries[i := e])
    ensures Table(entries[i := e]) == Table(entries)[e.pos := e]
  {
    hide Table;
    var after := entries[i := e];
    assert forall j: nat :: j < |entries| ==> after[j].pos == entries[j].pos;
    InTable(entries, i);
    InTable(after, i);
    forall p: nat ensures p in Table(after) <==> p in Table(entries)
      ensures p in Table(after) && p in Table(entries) && p != e.pos ==> Table(after)[p] == Table(entries)[p]
    {
      FindInTable(after, p);
      FindInTable(entries, p);
      if p in Table(after) {
        InTable(entries, Find(after, p));
      }
      if p in Table(entries) {
        InTable(after, Find(entries, p));
      }
    }
  }

  lemma PositionsAppend(entries: seq<Entry>, e: Entry)
    requires Positions(entries) && |entries| + 1 <= CACHE_BLKS && e.pos % CACHE_BLKSZ == 0 && e.pos !in Table(entries)
    ensures Positions(entries + [e])
  {
    forall j: nat | j < |entries| ensures entries[j].pos != e.pos {
      InTable(entries, j);
    }
  }

  lemma TableAppend(entries: seq<Entry>, e: Entry)
    requires Positions(entries) && |entries| + 1 <= CACHE_BLKS && e.pos % CACHE_BLKSZ == 0 && e.pos !in Table(entries)
    ensures Positions(entries + [e])
    ensures Table(entries + [e]) == Table(entries)[e.pos := e]
  {
    hide Table, Positions;
    PositionsAppend(entries, e);
    var after := entries + [e];
    InTable(after, |entries|);
    forall p: nat ensures p in Table(after) <==> p in Table(entries) || p == e.pos
      ensures p in Table(entries) ==> p in Table(after) && Table(after)[p] == Table(entries)[p]
    {
      FindInTable(after, p);
      FindInTable(entries, p);
      if p in Table(entries) {
        InTable(after, Find(entries, p));
      }
      if p in Table(after) && Find(after, p) < |entries| {
        InTable(entries, Find(after, p));
      }
    }
  }

  /** Moving entry `i` to the back, as `e`, replaces it in the table. */
  lemma TableToBack(entries: seq<Entry>, i: nat, e: Entry)
    requires Positions(entries) && i < |entries| && e.pos % CACHE_BLKSZ == 0
    requires e.pos == entries[i].pos || e.pos !in Table(entries)
    ensures Positions(ToBack(entries, i, e))
    ensures Table(ToBack(entries, i, e)) == (Table(entries) - {entries[i].pos})[e.pos := e]
  {
    hide Table;
    TableWithout(entries, i);
    TableAppend(entries[..i] + entries[i + 1..], e);
  }
}
