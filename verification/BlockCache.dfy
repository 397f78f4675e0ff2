/** The block cache as the kernel keeps it: a singly linked list of blocks, least recently used first. */
module BlockCache {
  import opened Results
  import opened CacheSpec

  class Block {
    var dirty: bool
    var pos: nat
    var buf: Data
    var next: Block?
    var pins: nat

    constructor ()
      ensures next == null
    {
      dirty, pos, buf, next, pins := false, 0, [], null, 0;
    }

    function View(): Entry
      reads this`pos, this`dirty, this`buf, this`pins
    {
      Entry(pos, dirty, buf, pins)
    }
  }

  ghost function Views(order: seq<Block>): (entries: seq<Entry>)
    reads order`pos, order`dirty, order`buf, order`pins
    ensures |entries| == |order| && forall i :: 0 <= i < |order| ==> entries[i] == order[i].View()
  {
    if order == [] then [] else [order[0].View()] + Views(order[1..])
  }

  /** The blocks' values when block `i` has moved to the end of the list. */
  lemma ViewsToBack(order: seq<Block>, i: nat)
    requires i < |order|
    ensures Views(Without(order, i) + [order[i]]) == ToBack(Views(order), i, order[i].View())
  {
    hide Views, ToBack, Without;
    var views, after := Views(order), Without(order, i) + [order[i]];
    ToBackIsWithout(views, i, order[i].View());
    forall j: nat | j < |order| ensures Views(after)[j] == (Without(views, i) + [order[i].View()])[j] {
      assert after[j] == if j < |order| - 1 then Without(order, i)[j] else order[i];
    }
  }

  lemma ToBackIsWithout(entries: seq<Entry>, i: nat, e: Entry)
    requires i < |entries|
    ensures ToBack(entries, i, e) == Without(entries, i) + [e]
  {
  }

  lemma HandedOut(was: seq<Block>, before: seq<Entry>, i: nat)
    requires i < |was| == |before| && Views(was) == before[i := was[i].View()]
    ensures Views(Without(was, i) + [was[i]]) == ToBack(before, i, was[i].View())
  {
    hide Views, ToBack, Without;
    ViewsToBack(was, i);
    ToBackUpdated(before, i, was[i].View(), was[i].View());
  }

  /** Moving the last block to the end changes nothing. */
  lemma LastStays(order: seq<Block>, i: nat)
    requires i + 1 == |order|
    ensures Without(order, i) + [order[i]] == order
  {
  }

  lemma ToBackUpdated(entries: seq<Entry>, i: nat, e: Entry, d: Entry)
    requires i < |entries|
    ensures ToBack(entries[i := d], i, e) == ToBack(entries, i, e)
  {
  }

  function Following(order: seq<Block>, i: nat): Block? {
    if i + 1 < |order| then order[i + 1] else null
  }

  /** The blocks reached from `head` are those of `order`, in that order, and `tail` is the last. */
  ghost predicate Chained(head: Block?, tail: Block?, order: seq<Block>)
    reads order`next
  {
    && Distinct(order)
    && (if order == [] then head == tail == null else head == order[0] && tail == order[|order| - 1])
    && (forall i: nat :: i < |order| ==> order[i].next == Following(order, i))
  }

  lemma ChainedIsDistinct(head: Block?, tail: Block?, order: seq<Block>)
    requires Chained(head, tail, order)
    ensures Distinct(order)
    ensures if order == [] then head == tail == null else head == order[0] && tail == order[|order| - 1]
  {
  }

  ghost predicate Distinct(order: seq<Block>) {
    forall i: nat, j: nat :: i < j < |order| ==> order[i] != order[j]
  }

  function Without<T>(s: seq<T>, i: nat): (r: seq<T>)
    requires i < |s|
    ensures |r| == |s| - 1
    ensures forall j: nat :: j < |r| ==> r[j] == s[if j < i then j else j + 1]
  {
    s[..i] + s[i + 1..]
  }

  lemma DistinctWithout(order: seq<Block>, i: nat)
    requires Distinct(order) && i < |order|
    ensures Distinct(Without(order, i)) && order[i] !in Without(order, i)
  {
  }

  lemma ChainedNext(head: Block?, tail: Block?, order: seq<Block>, i: nat)
    requires Chained(head, tail, order) && i < |order|
    ensures order[i].next == Following(order, i)
  {
  }

  class Cache {
    var device: seq<Data>
    var numBlocks: nat
    var head: Block?
    var tail: Block?
    ghost var order: seq<Block>
    ghost var owed: set<nat>

    constructor (disk: seq<Data>)
      ensures Linked() && View() == State([], disk, {})
    {
      device, numBlocks, head, tail, order, owed := disk, 0, null, null, [], {};
    }

    /** `order` lists the blocks from the head on; the tail is the last one and the count is right. */
    ghost predicate Linked()
      reads this, order`next
    {
      |order| == numBlocks <= CACHE_BLKS && Chained(head, tail, order)
    }

    ghost function View(): State
      reads this, order
    {
      State(Views(order), device, owed)
    }

    /** cache_fetch_into: the block takes the position before the fetch, which may fail. */
    method FetchInto(blk: Block, pos: nat) returns (ok: bool)
      modifies blk
      ensures ok == OnDevice(device, pos) && blk.next == old(blk.next)
      ensures blk.View() == Entry(pos, false, if ok then device[pos / CACHE_BLKSZ] else old(blk.buf), 0)
    {
      blk.pos, blk.dirty, blk.pins := pos, false, 0;
      ok := pos / CACHE_BLKSZ < |device|;
      if ok {
        blk.buf := device[pos / CACHE_BLKSZ];
      }
    }

    /** The block at index `i`, whose predecessor is `prev`, is taken out of a list of at least two. */
    method Unlink(prev: Block?, blk: Block, ghost i: nat)
      requires Chained(head, tail, order) && i < |order| && order[i] == blk && |order| > 1
      requires if i == 0 then prev == null else prev == order[i - 1]
      modifies this`head, this`tail, this`order, order`next
      ensures Chained(head, tail, order) && order == old(Without(order, i)) && blk !in order
    {
      hide Distinct;
      ghost var was := order;
      DistinctWithout(was, i);
      if prev == null {
        head := blk.next;
      } else {
        prev.next := blk.next;
        if tail == blk {
          tail := prev;
        }
      }
      order := Without(order, i);
      forall j: nat | j < |order| ensures order[j].next == Following(order, j) {
        var k := if j < i then j else j + 1;
        assert order[j] == was[k];
        assert old(was[k].next) == Following(was, k);
      }
    }

    /** The block becomes the last of a nonempty list. */
    method Append(blk: Block)
      requires Chained(head, tail, order) && order != [] && blk !in order
      modifies this`tail, this`order, order`next, blk`next
      ensures Chained(head, tail, order) && order == old(order) + [blk]
    {
      blk.next := null;
      tail.next := blk;
      tail := blk;
      order := order + [blk];
    }

    /** The block at index `i` moves to the tail. */
    method MoveToTail(prev: Block?, blk: Block, ghost i: nat)
      requires Chained(head, tail, order) && i < |order| && order[i] == blk && |order| > 1
      requires if i == 0 then prev == null else prev == order[i - 1]
      modifies this`head, this`tail, this`order, order`next
      ensures Chained(head, tail, order) && order == old(Without(order, i)) + [blk]
    {
      Unlink(prev, blk, i);
      Append(blk);
    }

    /** A block of the list is handed out once more: it is held and becomes the most recently used. */
    method HandOut(prev: Block?, blk: Block, ghost i: nat)
      requires Linked() && i < |order| && order[i] == blk
      requires if i == 0 then prev == null else prev == order[i - 1]
      modifies this`head, this`tail, this`order, order`next, blk`pins
      ensures Linked() && order == old(Without(order, i)) + [blk]
      ensures Views(order) == ToBack(old(Views(order)), i, old(blk.View()).(pins := old(blk.pins) + 1))
    {
      hide Chained, Views, ToBack, Without;
      ChainedIsDistinct(head, tail, order);
      ghost var was, before := order, Views(order);
      blk.pins := blk.pins + 1;
      OneChanged(i);
      if blk != tail {
        MoveToTail(prev, blk, i);
      } else {
        LastStays(was, i);
      }
      HandedOut(was, before, i);
    }

    method Link(nb: Block)
      requires Chained(head, tail, order) && nb !in order && nb.next == null
      modifies this`head, this`tail, this`order, order`next, nb`next
      ensures Chained(head, tail, order) && order == old(order) + [nb]
    {
      if head == null {
        head, tail, order := nb, nb, [nb];
      } else {
        Append(nb);
      }
    }

    /** A new block goes to the tail of the list, held once. */
    method AddHeld(nb: Block)
      requires Linked() && numBlocks < CACHE_BLKS && nb !in order && nb.next == null
      modifies this`head, this`tail, this`order, this`numBlocks, order`next, nb`next, nb`pins
      ensures Linked() && order == old(order) + [nb]
      ensures Views(order) == old(Views(order)) + [old(nb.View()).(pins := 1)]
    {
      hide Chained, Views;
      ghost var was, before := order, Views(order);
      Link(nb);
      numBlocks := numBlocks + 1;
      nb.pins := 1;
      forall j: nat | j < |was| ensures Views(order)[j] == before[j] {
        assert order[j] == was[j] && before[j] == old(was[j].View());
      }
    }

    /** A position that is not cached, with room left: a new block, linked only once the fetch succeeded. */
    method AddBlock(pos: nat) returns (r: Result<Block>)
      requires Linked() && pos % CACHE_BLKSZ == 0 && Find(Views(order), pos) == |order| < CACHE_BLKS
      modifies this, order`next
      ensures Linked() && Outcome(old(order), old(View()), pos, r, order, View())
    {
      hide Chained, Find, Views, Victim;
      var nb := new Block();
      var ok := FetchInto(nb, pos);
      if !ok {
        return Err(EIO);
      }
      AddHeld(nb);
      r := Ok(nb);
    }

    /** The first block nobody holds, and its predecessor. */
    method FirstUnheld() returns (prev: Block?, curr: Block?, ghost i: nat)
      requires Linked()
      ensures i == Victim(Views(order)) && curr == if i < |order| then order[i] else null
      ensures i < |order| ==> if i == 0 then prev == null else prev == order[i - 1]
    {
      prev, curr, i := null, head, 0;
      while curr != null && curr.pins != 0
        invariant 0 <= i <= |order| && curr == if i < |order| then order[i] else null
        invariant i < |order| ==> if i == 0 then prev == null else prev == order[i - 1]
        invariant forall j :: 0 <= j < i ==> order[j].pins > 0
        decreases |order| - i
      {
        prev, curr, i := curr, curr.next, i + 1;
      }
    }

    /** A changed block is written to the device, if the device takes it. */
    method WriteBack(blk: Block) returns (ok: bool)
      modifies this`device, blk`dirty
      ensures ok == (old(blk.dirty) ==> OnDevice(old(device), blk.pos))
      ensures blk.dirty == if ok then false else old(blk.dirty)
      ensures device == if ok && old(blk.dirty) then old(device)[blk.pos / CACHE_BLKSZ := blk.buf] else old(device)
    {
      ok := true;
      if blk.dirty {
        ok := blk.pos / CACHE_BLKSZ < |device|;
        if ok {
          device := device[blk.pos / CACHE_BLKSZ := blk.buf];
          blk.dirty := false;
        }
      }
    }

    /** The blocks' values after block `i` alone changed. */
    twostate lemma OneChanged(i: nat)
      requires i < |order| && order == old(order) && Distinct(order)
      requires forall b :: b in order && b != order[i] ==> b.View() == old(b.View())
      ensures Views(order) == old(Views(order))[i := order[i].View()]
    {
    }

    /** The first block nobody holds is written back if dirty and takes the new position. */
    method Refill(blk: Block, pos: nat, ghost i: nat) returns (ok: bool)
      requires Linked() && i < |order| && order[i] == blk && blk.pins == 0
      modifies this`device, blk
      ensures Linked() && blk.next == old(blk.next)
      ensures ok == (OnDevice(device, pos) && (old(blk.dirty) ==> OnDevice(old(device), old(blk.pos))))
      ensures device == if old(blk.dirty) && OnDevice(old(device), old(blk.pos)) then old(device)[old(blk.pos) / CACHE_BLKSZ := old(blk.buf)]
                        else old(device)
      ensures if old(blk.dirty) && !OnDevice(old(device), old(blk.pos)) then blk.View() == old(blk.View())
              else blk.View() == Entry(pos, false, if ok then device[pos / CACHE_BLKSZ] else old(blk.buf), 0)
    {
      ok := WriteBack(blk);
      if ok {
        ok := FetchInto(blk, pos);
      }
    }

    /** A position that is not cached, with no room left: the first block nobody holds is taken over. */
    method TakeOver(pos: nat) returns (r: Result<Block>)
      requires Linked() && pos % CACHE_BLKSZ == 0 && Find(Views(order), pos) == |order| == CACHE_BLKS
      modifies this, order
      ensures Linked() && Outcome(old(order), old(View()), pos, r, order, View())
    {
      hide Chained, Views, Find, Victim, Got, Outcome;
      ChainedIsDistinct(head, tail, order);
      ghost var was, s := order, View();
      var prev, curr, i := FirstUnheld();
      if curr == null {
        NoVictim(s, pos);
        TakeOutcome(was, s, pos, Err(ENOTSUP), order, View());
        r := Err(ENOTSUP);
      } else {
        r := Evict(prev, curr, pos, i);
      }
    }

    /** The first unheld block, at index `i`, gets the new position and its bytes. */
    method Evict(prev: Block?, curr: Block, pos: nat, ghost i: nat) returns (r: Result<Block>)
      requires Linked() && pos % CACHE_BLKSZ == 0 && Find(Views(order), pos) == |order| == CACHE_BLKS
      requires i == Victim(Views(order)) < |order| && order[i] == curr
      requires if i == 0 then prev == null else prev == order[i - 1]
      modifies this, order
      ensures Linked() && Outcome(old(order), old(View()), pos, r, order, View())
    {
      hide Chained, Views, Find, Victim, Got, CacheSpec.Evict, ToBack, Without, Outcome;
      ghost var was, s := order, View();
      ChainedIsDistinct(head, tail, order);
      assert s.entries[i] == curr.View();
      var ok := Refill(curr, pos, i);
      OneChanged(i);
      if !ok {
        EvictFails(s, pos, View());
        TakeOutcome(was, s, pos, Err(EIO), order, View());
        return Err(EIO);
      }
      HandOut(prev, curr, i);
      EvictWorks(s, pos, View());
      r := Ok(curr);
      TakeOutcome(was, s, pos, r, order, View());
    }

    /** The block with the given position, if any, and its predecessor. */
    method Lookup(pos: nat) returns (prev: Block?, blk: Block?, ghost i: nat)
      requires Linked() && head != null
      ensures i == Find(Views(order), pos) && blk == if i < |order| then order[i] else null
      ensures i < |order| ==> if i == 0 then prev == null else prev == order[i - 1]
    {
      if head.pos == pos {
        return null, head, 0;
      }
      prev, i := head, 0;
      while prev.next != null
        invariant i < |order| && prev == order[i]
        invariant forall j :: 0 <= j <= i ==> order[j].pos != pos
        decreases |order| - i
      {
        if prev.next.pos == pos {
          blk, i := prev.next, i + 1;
          return;
        }
        prev, i := prev.next, i + 1;
      }
      blk, i := null, i + 1;
    }

    /** A hit. */
    method Hit(prev: Block?, blk: Block, pos: nat, ghost i: nat) returns (r: Result<Block>)
      requires Linked() && pos % CACHE_BLKSZ == 0 && i == Find(Views(order), pos) < |order| && order[i] == blk
      requires if i == 0 then prev == null else prev == order[i - 1]
      modifies this`head, this`tail, this`order, order`next, blk`pins
      ensures Linked() && Outcome(old(order), old(View()), pos, r, order, View())
    {
      hide Chained, Views, Find, Got, Outcome;
      ghost var was, s := order, View();
      HandOut(prev, blk, i);
      HitOutcome(was, s, pos, order, View());
      r := Ok(blk);
    }

    /** cache_get_block: the block of a position, held once more. */
    method GetBlock(pos: nat) returns (r: Result<Block>)
      requires Linked()
      modifies this, order
      ensures Linked() && Outcome(old(order), old(View()), pos, r, order, View())
    {
      hide Chained, Views, Find, Victim, Got, Outcome;
      ChainedIsDistinct(head, tail, order);
      if pos % CACHE_BLKSZ != 0 {
        r := Err(ENOTSUP);
        RefuseOutcome(order, View(), pos);
      } else if head == null {
        r := AddBlock(pos);
      } else {
        var prev, blk, i := Lookup(pos);
        if blk != null {
          r := Hit(prev, blk, pos, i);
        } else if numBlocks < CACHE_BLKS {
          r := AddBlock(pos);
        } else {
          r := TakeOver(pos);
        }
      }
    }

    method Search(blk: Block) returns (curr: Block?, ghost i: nat)
      requires Linked()
      ensures i <= |order| && curr == if i < |order| then order[i] else null
      ensures if blk in order then curr == blk else curr == null
    {
      hide Distinct;
      curr, i := head, 0;
      while curr != null && curr != blk
        invariant 0 <= i <= |order| && curr == if i < |order| then order[i] else null
        invariant forall j :: 0 <= j < i ==> order[j] != blk
        decreases |order| - i
      {
        curr, i := curr.next, i + 1;
      }
    }

    /** cache_release_block: one holder less; a block released as dirty is to be written back. */
    method ReleaseBlock(blk: Block, dirty: bool)
      requires Linked()
      modifies this`owed, order`pins, order`dirty
      ensures Linked() && order == old(order)
      ensures blk !in order ==> View() == old(View())
      ensures blk in order ==> blk.pins == (if old(blk.pins) > 0 then old(blk.pins) - 1 else 0) && blk.dirty == (old(blk.dirty) || dirty)
      ensures forall i :: 0 <= i < |order| && order[i] == blk ==> View() == Released(old(View()), i, dirty)
    {
      hide Chained, Views;
      ChainedIsDistinct(head, tail, order);
      var curr, i := Search(blk);
      if curr != null {
        DropHolder(curr, dirty, i);
      }
    }

    method DropHolder(blk: Block, dirty: bool, ghost i: nat)
      requires Linked() && i < |order| && order[i] == blk
      modifies this`owed, blk`pins, blk`dirty
      ensures Linked() && View() == Released(old(View()), i, dirty)
      ensures blk.pins == (if old(blk.pins) > 0 then old(blk.pins) - 1 else 0) && blk.dirty == (old(blk.dirty) || dirty)
    {
      hide Chained, Views;
      ChainedIsDistinct(head, tail, order);
      if blk.pins > 0 {
        blk.pins := blk.pins - 1;
      }
      if dirty {
        blk.dirty := true;
        owed := owed - {blk.pos};
      }
      OneChanged(i);
    }

    /** A client stores into a buffer it holds. */
    method WriteBlock(blk: Block, data: Data, ghost i: nat)
      requires Linked() && i < |order| && order[i] == blk
      modifies this`owed, blk`buf
      ensures Linked() && View() == Changed(old(View()), i, data)
    {
      hide Chained, Views;
      ChainedIsDistinct(head, tail, order);
      blk.buf := data;
      owed := owed + {blk.pos};
      OneChanged(i);
    }

    /** cache_flush: every dirty block goes to the device, from the head on, until the device refuses one. */
    method Flush() returns (r: Result<()>)
      requires Linked()
      modifies this`device, order`dirty
      ensures Linked() && View() == FlushFrom(old(View()), 0).0 && r == FlushFrom(old(View()), 0).1
    {
      hide Chained, Views, FlushFrom;
      ghost var s := View();
      var curr := head;
      ghost var i: nat := 0;
      HeadIs(head, tail, order);
      while curr != null
        invariant i <= |order| && curr == if i < |order| then order[i] else null
        invariant Linked() && order == old(order)
        invariant FlushFrom(s, 0) == FlushFrom(View(), i)
        decreases |order| - i
      {
        FlushStep(View(), i);
        var ok := FlushBlock(curr, i);
        if !ok {
          return Err(EIO);
        }
        ChainedNext(head, tail, order, i);
        curr, i := curr.next, i + 1;
      }
      FlushStep(View(), i);
      r := Ok(());
    }

    /** One round of the loop of cache_flush. */
    method FlushBlock(blk: Block, ghost i: nat) returns (ok: bool)
      requires Linked() && i < |order| && order[i] == blk
      modifies this`device, blk`dirty
      ensures Linked() && ok == (old(blk.dirty) ==> OnDevice(old(device), blk.pos))
      ensures View() == if ok then Cleaned(old(View()), i) else old(View())
    {
      hide Chained, Views;
      ChainedIsDistinct(head, tail, order);
      ghost var s := View();
      ok := WriteBack(blk);
      OneChanged(i);
      assert s.entries[i := s.entries[i]] == s.entries;
    }
  }

  lemma HeadIs(head: Block?, tail: Block?, order: seq<Block>)
    requires Chained(head, tail, order)
    ensures head == if order == [] then null else order[0]
  {
  }

  /** Entry `i` has been written to the device if it was dirty, and is clean. */
  ghost function Cleaned(s: State, i: nat): State
    requires i < |s.entries|
  {
    var e := s.entries[i];
    State(s.entries[i := e.(dirty := false)], AfterWriteBack(s.device, e), s.owed)
  }

  lemma FlushStep(s: State, i: nat)
    requires i <= |s.entries|
    ensures i == |s.entries| ==> FlushFrom(s, i) == (s, Ok(()))
    ensures i < |s.entries| ==>
      var e := s.entries[i];
      FlushFrom(s, i) == if e.dirty && !OnDevice(s.device, e.pos) then (s, Err(EIO)) else FlushFrom(Cleaned(s, i), i + 1)
  {
    if i < |s.entries| && !s.entries[i].dirty {
      assert s.entries[i := s.entries[i].(dirty := false)] == s.entries;
    }
  }

  /** The list after a call: the block handed out is last, the others keep their order. */
  ghost function Reordered(was: seq<Block>, s: State, pos: nat, r: Result<Block>): seq<Block>
    requires |s.entries| == |was|
  {
    if r.Err? then was
    else if Find(s.entries, pos) < |was| then Without(was, Find(s.entries, pos)) + [was[Find(s.entries, pos)]]
    else if |was| < CACHE_BLKS then was + [r.value]
    else if Victim(s.entries) < |was| then Without(was, Victim(s.entries)) + [was[Victim(s.entries)]]
    else was
  }

  lemma NoVictim(s: State, pos: nat)
    requires pos % CACHE_BLKSZ == 0 && Find(s.entries, pos) == |s.entries| == CACHE_BLKS == Victim(s.entries)
    ensures Got(s, pos) == (s, Err(ENOTSUP))
  {
  }

  /** The device once the victim has been written back. */
  function AfterWriteBack(device: seq<Data>, e: Entry): seq<Data> {
    if e.dirty && OnDevice(device, e.pos) then device[e.pos / CACHE_BLKSZ := e.buf] else device
  }

  lemma EvictFails(s: State, pos: nat, t: State)
    requires pos % CACHE_BLKSZ == 0 && Find(s.entries, pos) == |s.entries| == CACHE_BLKS > Victim(s.entries)
    requires var (v, e) := (Victim(s.entries), s.entries[Victim(s.entries)]);
      var device := AfterWriteBack(s.device, e);
      && !(OnDevice(device, pos) && (e.dirty ==> OnDevice(s.device, e.pos)))
      && t == State(s.entries[v := if e.dirty && !OnDevice(s.device, e.pos) then e else Entry(pos, false, e.buf, 0)], device, s.owed)
    ensures Got(s, pos) == (t, Err(EIO))
  {
    hide Find, Victim;
    var v := Victim(s.entries);
    assert s.entries[v := s.entries[v]] == s.entries;
  }

  lemma EvictWorks(s: State, pos: nat, t: State)
    requires pos % CACHE_BLKSZ == 0 && Find(s.entries, pos) == |s.entries| == CACHE_BLKS > Victim(s.entries)
    requires var (v, e) := (Victim(s.entries), s.entries[Victim(s.entries)]);
      var device := AfterWriteBack(s.device, e);
      && OnDevice(device, pos) && (e.dirty ==> OnDevice(s.device, e.pos))
      && t == State(ToBack(s.entries[v := Entry(pos, false, device[pos / CACHE_BLKSZ], 0)], v, Entry(pos, false, device[pos / CACHE_BLKSZ], 1)), device, s.owed)
    ensures Got(s, pos) == (t, Ok(()))
  {
    hide Find, Victim, ToBack;
    var v := Victim(s.entries);
    var device := AfterWriteBack(s.device, s.entries[v]);
    ToBackUpdated(s.entries, v, Entry(pos, false, device[pos / CACHE_BLKSZ], 1), Entry(pos, false, device[pos / CACHE_BLKSZ], 0));
  }

  /** What a call does to the list `was` and the state `s`: the new list and state, and the result. */
  ghost predicate Outcome(was: seq<Block>, s: State, pos: nat, r: Result<Block>, order: seq<Block>, t: State)
    requires |s.entries| == |was|
  {
    var (after, status) := Got(s, pos);
    && t == after && r.Ok? == status.Ok? && (r.Err? ==> r.code == status.code)
    && (r.Ok? ==> order != [] && r.value == order[|order| - 1])
    && order == Reordered(was, s, pos, r)
  }

  lemma RefuseOutcome(was: seq<Block>, s: State, pos: nat)
    requires |s.entries| == |was| && pos % CACHE_BLKSZ != 0
    ensures Outcome(was, s, pos, Err(ENOTSUP), was, s)
  {
  }

  lemma HitOutcome(was: seq<Block>, s: State, pos: nat, order: seq<Block>, t: State)
    requires |s.entries| == |was| && pos % CACHE_BLKSZ == 0 && Find(s.entries, pos) < |was|
    requires var i := Find(s.entries, pos);
      && order == Without(was, i) + [was[i]]
      && t == s.(entries := ToBack(s.entries, i, s.entries[i].(pins := s.entries[i].pins + 1)))
    ensures Outcome(was, s, pos, Ok(was[Find(s.entries, pos)]), order, t)
  {
    hide Without, ToBack, Find;
  }

  lemma TakeOutcome(was: seq<Block>, s: State, pos: nat, r: Result<Block>, order: seq<Block>, t: State)
    requires |s.entries| == |was| == CACHE_BLKS && pos % CACHE_BLKSZ == 0 && Find(s.entries, pos) == |was|
    requires t == Got(s, pos).0 && r.Ok? == Got(s, pos).1.Ok? && (r.Err? ==> r.code == Got(s, pos).1.code)
    requires r.Ok? ==> Victim(s.entries) < |was|
    requires if r.Ok? then order == Without(was, Victim(s.entries)) + [r.value] && r.value == was[Victim(s.entries)] else order == was
    ensures Outcome(was, s, pos, r, order, t)
  {
    hide Got, Find, Victim, Without;
  }

  /** Where entry `i` of `n` stands once entry `k` has moved to the back. */
  function Shifted(n: nat, k: nat, i: nat): (j: nat)
    requires k < n && i < n
    ensures j < n
  {
    if i < k then i else if i == k then n - 1 else i - 1
  }

  lemma ToBackAt<T>(s: seq<T>, k: nat, e: T, i: nat)
    requires k < |s| && i < |s|
    ensures (Without(s, k) + [e])[Shifted(|s|, k, i)] == if i == k then e else s[i]
  {
  }

  /** Whatever position is asked for, a held block object keeps its position and its buffer. */
  lemma HeldBlockKeeps(was: seq<Block>, s: State, pos: nat, r: Result<Block>, i: nat) returns (j: nat)
    requires |s.entries| == |was| <= CACHE_BLKS && i < |was| && s.entries[i].pins > 0
    requires r.Ok? == Got(s, pos).1.Ok?
    ensures var (now, t) := (Reordered(was, s, pos, r), Got(s, pos).0.entries);
      |t| == |now| && j < |now| && now[j] == was[i] && t[j] == s.entries[i].(pins := t[j].pins) && t[j].pins >= s.entries[i].pins
  {
    hide Without, Find, Victim;
    var f, v, t := Find(s.entries, pos), Victim(s.entries), Got(s, pos).0.entries;
    if r.Err? || (f == |was| && |was| < CACHE_BLKS) {
      j := i;
    } else {
      var k := if f < |was| then f else v;
      j := Shifted(|was|, k, i);
      assert t == Without(s.entries, k) + [t[|t| - 1]];
      ToBackAt(was, k, was[k], i);
      ToBackAt(s.entries, k, t[|t| - 1], i);
    }
  }
}
