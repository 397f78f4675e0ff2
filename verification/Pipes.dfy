/** A pipe: a ring of one page between a writing and a reading end. */
module Pipes {
  import opened Machine
  import opened Results

  function Min(a: nat, b: nat): nat {
    if a < b then a else b
  }

  /** The place in the ring `i` places behind `h`. */
  function Slot(h: nat, i: nat): (s: nat)
    ensures s < PAGE_SIZE
  {
    (h + i) % PAGE_SIZE
  }

  /** `n` bytes of the ring from position `h` on. */
  ghost function Ring(data: seq<Byte>, h: nat, n: nat): (r: seq<Byte>)
    requires |data| == PAGE_SIZE
    ensures |r| == n
  {
    seq(n, i requires 0 <= i < n => data[Slot(h, i)])
  }

  class Pipe {
    const data: array<Byte>
    var hpos: nat
    var tpos: nat
    var bytecnt: nat
    var readOpen: bool
    var writeOpen: bool
    /** Whether some thread owns the pipe's lock. */
    var locked: bool

    constructor ()
      ensures Valid() && Contents() == [] && readOpen && writeOpen && !locked && fresh(data)
    {
      data := new Byte[PAGE_SIZE](_ => 0);
      hpos, tpos, bytecnt, readOpen, writeOpen, locked := 0, 0, 0, true, true, false;
    }

    ghost predicate Valid()
      reads this
    {
      && data.Length == PAGE_SIZE && hpos < PAGE_SIZE && tpos < PAGE_SIZE && bytecnt <= PAGE_SIZE
      && tpos == Slot(hpos, bytecnt)
    }

    /** The bytes written and not yet read, oldest first. */
    ghost function Contents(): (r: seq<Byte>)
      requires Valid()
      reads this, data
      ensures |r| == bytecnt
    {
      Ring(data[..], hpos, bytecnt)
    }

    /** The lock is free whenever a thread asks for it, so that this never waits. */
    method LockAcquire()
      requires !locked
      modifies this`locked
      ensures locked
    {
      locked := true;
    }

    method LockRelease()
      requires locked
      modifies this`locked
      ensures !locked
    {
      locked := false;
    }

    /** pipe_read from the first or the latest acquisition of the lock on: the number of bytes read, or none if the
        thread waits for `readable` with the lock released. The caller broadcasts `writeable` when bytes were read. */
    method ReadRound(buf: array<Byte>, bufsz: nat) returns (r: Option<nat>)
      requires Valid() && !locked && 0 < bufsz <= buf.Length && buf != data
      modifies this`hpos, this`bytecnt, this`locked, buf
      ensures Valid() && !locked
      ensures r.None? <==> old(Contents()) == [] && writeOpen
      ensures r.None? ==> Contents() == old(Contents()) && buf[..] == old(buf[..])
      ensures r.Some? ==>
        && r.value == Min(bufsz, |old(Contents())|)
        && buf[..] == old(Contents())[..r.value] + old(buf[..])[r.value..] && Contents() == old(Contents())[r.value..]
    {
      ghost var was, before := Contents(), buf[..];
      LockAcquire();
      if bytecnt == 0 && writeOpen {
        LockRelease();
        return None;
      }
      if bytecnt == 0 && !writeOpen {
        LockRelease();
        assert buf[..] == was[..0] + before[0..];
        return Some(0);
      }
      var readable := if bufsz < bytecnt then bufsz else bytecnt;
      CopyOut(buf, readable);
      LockRelease();
      r := Some(readable);
    }

    /** The copying loop of pipe_read. */
    method CopyOut(buf: array<Byte>, n: nat)
      requires Valid() && n <= bytecnt && n <= buf.Length && buf != data
      modifies this`hpos, this`bytecnt, buf
      ensures Valid() && bytecnt == old(bytecnt) - n
      ensures buf[..] == old(Contents())[..n] + old(buf[..])[n..] && Contents() == old(Contents())[n..]
    {
      hide Slot, Ring;
      ghost var was, before, h := Contents(), buf[..], hpos;
      SlotZero(h);
      for i := 0 to n
        invariant hpos == Slot(h, i) && bytecnt == |was|
        invariant forall j :: 0 <= j < buf.Length ==> buf[j] == if j < i then was[j] else before[j]
      {
        RingAt(data[..], h, bytecnt, i);
        buf[i] := data[hpos];
        SlotNext(h, i);
        hpos := (hpos + 1) % PAGE_SIZE;
      }
      assert buf[..] == was[..n] + before[n..];
      RingDrop(data[..], h, bytecnt, n);
      SlotSlot(h, n, bytecnt - n);
      bytecnt := bytecnt - n;
    }

    /** pipe_write from the first or the latest acquisition of the lock on: the number of bytes accepted, EPIPE, or
        none if the thread waits for `writeable` with the lock released. */
    method WriteRound(buf: seq<Byte>) returns (r: Option<Result<nat>>)
      requires Valid() && !locked && buf != []
      modifies this`tpos, this`bytecnt, this`locked, data
      ensures Valid() && !locked
      ensures r.None? <==> |old(Contents())| == PAGE_SIZE && readOpen
      ensures r.Some? ==> (r.value.Err? <==> !readOpen) && (r.value.Err? ==> r.value.code == EPIPE)
      ensures r.Some? && r.value.Ok? ==> r.value.value == Min(|buf|, PAGE_SIZE - |old(Contents())|)
      ensures Contents() == old(Contents()) + if r.Some? && r.value.Ok? then buf[..r.value.value] else []
    {
      ghost var was := Contents();
      LockAcquire();
      if !readOpen {
        LockRelease();
        return Some(Err(EPIPE));
      }
      if bytecnt == PAGE_SIZE && readOpen {
        LockRelease();
        return None;
      }
      var space := PAGE_SIZE - bytecnt;
      var writeable := if |buf| < space then |buf| else space;
      CopyIn(buf, writeable);
      LockRelease();
      r := Some(Ok(writeable));
    }

    /** The copying loop of pipe_write. */
    method CopyIn(buf: seq<Byte>, n: nat)
      requires Valid() && n <= |buf| && bytecnt + n <= PAGE_SIZE
      modifies this`tpos, this`bytecnt, data
      ensures Valid() && Contents() == old(Contents()) + buf[..n]
    {
      hide Slot, Ring;
      ghost var was, full := Contents(), bytecnt;
      for i := 0 to n
        invariant tpos == Slot(hpos, full + i) && bytecnt == full && Ring(data[..], hpos, full + i) == was + buf[..i]
      {
        RingExtend(data[..], hpos, full + i, buf[i]);
        data[tpos] := buf[i];
        SlotNext(hpos, full + i);
        tpos := (tpos + 1) % PAGE_SIZE;
        assert was + buf[..i] + [buf[i]] == was + buf[..i + 1];
      }
      bytecnt := bytecnt + n;
    }

    /** read_pipe_close: whether the pipe was freed. The caller broadcasts `writeable`. */
    method CloseRead() returns (freed: bool)
      requires Valid() && !locked
      modifies this`readOpen, this`locked
      ensures Valid() && !locked && !readOpen && freed == !writeOpen
    {
      LockAcquire();
      readOpen := false;
      freed := !writeOpen;
      LockRelease();
    }

    /** write_pipe_close: whether the pipe was freed. The caller broadcasts `readable`. */
    method CloseWrite() returns (freed: bool)
      requires Valid() && !locked
      modifies this`writeOpen, this`locked
      ensures Valid() && !locked && !writeOpen && freed == !readOpen
    {
      LockAcquire();
      writeOpen := false;
      freed := !readOpen;
      LockRelease();
    }
  }

  lemma SlotZero(h: nat)
    requires h < PAGE_SIZE
    ensures Slot(h, 0) == h
  {
  }

  lemma SlotNext(h: nat, i: nat)
    ensures (Slot(h, i) + 1) % PAGE_SIZE == Slot(h, i + 1)
  {
  }

  lemma SlotSlot(h: nat, i: nat, j: nat)
    ensures Slot(Slot(h, i), j) == Slot(h, i + j)
  {
    var q := (h + i) / PAGE_SIZE;
    assert h + i + j == PAGE_SIZE * q + (Slot(h, i) + j);
  }

  lemma SlotDiffers(h: nat, i: nat, n: nat)
    requires i < n <= i + PAGE_SIZE - 1
    ensures Slot(h, i) != Slot(h, n)
  {
    var d := (h + n) / PAGE_SIZE - (h + i) / PAGE_SIZE;
    assert Slot(h, n) == Slot(h, i) ==> n - i == PAGE_SIZE * d;
  }

  lemma RingAt(data: seq<Byte>, h: nat, n: nat, i: nat)
    requires |data| == PAGE_SIZE && i < n
    ensures data[Slot(h, i)] == Ring(data, h, n)[i]
  {
  }

  lemma RingDrop(data: seq<Byte>, h: nat, n: nat, k: nat)
    requires |data| == PAGE_SIZE && k <= n
    ensures Ring(data, Slot(h, k), n - k) == Ring(data, h, n)[k..]
  {
    hide Slot;
    var a, b := Ring(data, Slot(h, k), n - k), Ring(data, h, n)[k..];
    forall i: nat | i < n - k ensures a[i] == b[i] {
      SlotSlot(h, k, i);
    }
  }

  /** A byte stored behind `n < PAGE_SIZE` bytes of the ring extends them. */
  lemma RingExtend(data: seq<Byte>, h: nat, n: nat, b: Byte)
    requires |data| == PAGE_SIZE && n < PAGE_SIZE
    ensures Ring(data[Slot(h, n) := b], h, n + 1) == Ring(data, h, n) + [b]
  {
    hide Slot;
    forall i: nat | i < n ensures Slot(h, i) != Slot(h, n) {
      SlotDiffers(h, i, n);
    }
  }
}
