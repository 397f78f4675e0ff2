/** A pipe between threads that read, write, wait and close: each step is the code between two suspensions. */
module PipeRuns {
  import opened Machine
  import opened Results
  import opened Pipes

  datatype Request = ReadReq(bufsz: nat) | WriteReq(buf: seq<Byte>)

  /** `readers` wait for `readable`, `writers` for `writeable`, and `woken` were woken and have not run since.
      `sent` and `got` record the bytes accepted by writes and returned by reads. */
  datatype State = State(ring: seq<Byte>, readOpen: bool, writeOpen: bool, freed: bool,
                         readers: map<nat, Request>, writers: map<nat, Request>, woken: map<nat, Request>,
                         sent: seq<Byte>, got: seq<Byte>)

  const FRESH := State([], true, true, false, map[], map[], map[], [], [])

  datatype Reply = Waits | Returned(bytes: seq<Byte>) | Accepted(n: nat) | Failed(code: int)

  function WakeReaders(s: State): State {
    s.(woken := s.woken + s.readers, readers := map[])
  }

  function WakeWriters(s: State): State {
    s.(woken := s.woken + s.writers, writers := map[])
  }

  /** One round of pipe_read by thread `t`. */
  function Read(s: State, t: nat, bufsz: nat): (State, Reply) {
    if bufsz == 0 then (s, Returned([]))
    else if s.ring == [] && s.writeOpen then (s.(readers := s.readers[t := ReadReq(bufsz)]), Waits)
    else if s.ring == [] then (s, Returned([]))
    else
      var k := Min(bufsz, |s.ring|);
      (WakeWriters(s.(ring := s.ring[k..], got := s.got + s.ring[..k])), Returned(s.ring[..k]))
  }

  /** One round of pipe_write by thread `t`. */
  function Write(s: State, t: nat, buf: seq<Byte>): (State, Reply) {
    if buf == [] then (s, Accepted(0))
    else if !s.readOpen then (s, Failed(EPIPE))
    else if |s.ring| >= PAGE_SIZE then (s.(writers := s.writers[t := WriteReq(buf)]), Waits)
    else
      var k := Min(|buf|, PAGE_SIZE - |s.ring|);
      (WakeReaders(s.(ring := s.ring + buf[..k], sent := s.sent + buf[..k])), Accepted(k))
  }

  function Round(s: State, t: nat, req: Request): (State, Reply) {
    match req
    case ReadReq(n) => Read(s, t, n)
    case WriteReq(buf) => Write(s, t, buf)
  }

  function CloseReadEnd(s: State): State {
    WakeWriters(s.(readOpen := false, freed := !s.writeOpen))
  }

  function CloseWriteEnd(s: State): State {
    WakeReaders(s.(writeOpen := false, freed := !s.readOpen))
  }

  datatype Op = Start(t: nat, req: Request) | Resume(t: nat) | CloseR | CloseW

  predicate Pending(s: State, t: nat) {
    t in s.readers || t in s.writers || t in s.woken
  }

  /** No call on the end is under way. */
  predicate Quiet(s: State, reading: bool) {
    && (if reading then s.readers == map[] else s.writers == map[])
    && forall t :: t in s.woken ==> s.woken[t].ReadReq? != reading
  }

  /** A thread reads or writes an open end, one call at a time; an end is closed once, when no call on it is
      under way. */
  predicate Allowed(s: State, op: Op) {
    match op
    case Start(t, req) => !Pending(s, t) && if req.ReadReq? then s.readOpen else s.writeOpen
    case Resume(t) => t in s.woken
    case CloseR => s.readOpen && Quiet(s, true)
    case CloseW => s.writeOpen && Quiet(s, false)
  }

  function Step(s: State, op: Op): (State, Reply)
    requires Allowed(s, op)
  {
    match op
    case Start(t, req) => Round(s, t, req)
    case Resume(t) => Round(s.(woken := s.woken - {t}), t, s.woken[t])
    case CloseR => (CloseReadEnd(s), Accepted(0))
    case CloseW => (CloseWriteEnd(s), Accepted(0))
  }

  /** The bytes read, followed by those in the ring, are the bytes accepted. A reader waits only for an empty ring
      with the writing end open, a writer only for a full ring with the reading end open: no wakeup is lost. The
      pipe is freed exactly when both ends are closed, and then nobody is inside a call. */
  ghost predicate Inv(s: State) {
    && |s.ring| <= PAGE_SIZE && s.got + s.ring == s.sent
    && (s.readers != map[] ==> s.ring == [] && s.writeOpen && s.readOpen)
    && (s.writers != map[] ==> |s.ring| == PAGE_SIZE && s.readOpen && s.writeOpen)
    && (forall t :: t in s.readers ==> s.readers[t].ReadReq? && s.readers[t].bufsz > 0)
    && (forall t :: t in s.writers ==> s.writers[t].WriteReq? && s.writers[t].buf != [])
    && (forall t :: t in s.woken ==> if s.woken[t].ReadReq? then s.readOpen else s.writeOpen)
    && (s.freed <==> !s.readOpen && !s.writeOpen)
  }

  lemma MoveOut(got: seq<Byte>, ring: seq<Byte>, k: nat)
    requires k <= |ring|
    ensures got + ring[..k] + ring[k..] == got + ring
  {
  }

  lemma ReadInv(s: State, t: nat, bufsz: nat)
    requires Inv(s) && s.readOpen
    ensures Inv(Read(s, t, bufsz).0)
  {
    hide Min;
    if bufsz > 0 && s.ring != [] {
      MinIs(bufsz, |s.ring|);
      MoveOut(s.got, s.ring, Min(bufsz, |s.ring|));
    }
  }

  lemma MinIs(a: nat, b: nat)
    ensures Min(a, b) <= a && Min(a, b) <= b && (a > 0 && b > 0 ==> Min(a, b) > 0)
  {
  }

  lemma WriteInv(s: State, t: nat, buf: seq<Byte>)
    requires Inv(s) && s.writeOpen
    ensures Inv(Write(s, t, buf).0)
  {
    var k := Min(|buf|, PAGE_SIZE - |s.ring|);
    assert s.got + (s.ring + buf[..k]) == s.sent + buf[..k];
  }

  lemma StepInv(s: State, op: Op)
    requires Inv(s) && Allowed(s, op)
    ensures Inv(Step(s, op).0)
  {
    match op
    case Start(t, req) =>
      if req.ReadReq? { ReadInv(s, t, req.bufsz); } else { WriteInv(s, t, req.buf); }
    case Resume(t) =>
      var q, req := s.(woken := s.woken - {t}), s.woken[t];
      assert Inv(q);
      if req.ReadReq? { ReadInv(q, t, req.bufsz); } else { WriteInv(q, t, req.buf); }
    case CloseR =>
    case CloseW =>
  }

  ghost predicate Run(states: seq<State>, ops: seq<Op>) {
    && |states| == |ops| + 1 && states[0] == FRESH
    && forall i :: 0 <= i < |ops| ==> Allowed(states[i], ops[i]) && states[i + 1] == Step(states[i], ops[i]).0
  }

  /** The bytes a step returns to a reader. */
  function Delivered(s: State, op: Op): seq<Byte>
    requires Allowed(s, op)
  {
    var reply := Step(s, op).1;
    if reply.Returned? then reply.bytes else []
  }

  /** What the write of a step was given, cut to what it accepted. */
  function Taken(s: State, op: Op): seq<Byte>
    requires Allowed(s, op)
  {
    var req := if op.Start? then op.req else if op.Resume? then s.woken[op.t] else ReadReq(0);
    var reply := Step(s, op).1;
    if req.WriteReq? && reply.Accepted? && reply.n <= |req.buf| then req.buf[..reply.n] else []
  }

  /** The bytes that the first `n` steps returned to readers, in order. */
  function BytesRead(states: seq<State>, ops: seq<Op>, n: nat): seq<Byte>
    requires n <= |ops| < |states| && forall i :: 0 <= i < |ops| ==> Allowed(states[i], ops[i])
  {
    if n == 0 then [] else BytesRead(states, ops, n - 1) + Delivered(states[n - 1], ops[n - 1])
  }

  /** The bytes that the first `n` steps accepted from writers, in order. */
  function BytesWritten(states: seq<State>, ops: seq<Op>, n: nat): seq<Byte>
    requires n <= |ops| < |states| && forall i :: 0 <= i < |ops| ==> Allowed(states[i], ops[i])
  {
    if n == 0 then [] else BytesWritten(states, ops, n - 1) + Taken(states[n - 1], ops[n - 1])
  }

  lemma RoundRecords(s: State, t: nat, req: Request)
    requires |s.ring| <= PAGE_SIZE
    ensures var (a, reply) := Round(s, t, req);
      && a.got == s.got + (if reply.Returned? then reply.bytes else [])
      && (reply.Accepted? ==> req.WriteReq? && reply.n <= |req.buf|)
      && a.sent == s.sent + (if req.WriteReq? && reply.Accepted? then req.buf[..reply.n] else [])
  {
  }

  lemma StepRecords(s: State, op: Op)
    requires Inv(s) && Allowed(s, op)
    ensures Step(s, op).0.got == s.got + Delivered(s, op) && Step(s, op).0.sent == s.sent + Taken(s, op)
  {
    hide Inv, Round;
    InvParts(s);
    if op.Start? {
      RoundRecords(s, op.t, op.req);
    } else if op.Resume? {
      RoundRecords(s.(woken := s.woken - {op.t}), op.t, s.woken[op.t]);
    }
  }

  /** Over every run: the bytes returned by reads, followed by the contents of the ring, are the bytes accepted
      from writes, in order. */
  lemma {:induction false} StreamKept(states: seq<State>, ops: seq<Op>, n: nat)
    requires Run(states, ops) && n <= |ops|
    ensures Inv(states[n])
    ensures BytesRead(states, ops, n) + states[n].ring == BytesWritten(states, ops, n)
    ensures BytesRead(states, ops, n) == states[n].got && BytesWritten(states, ops, n) == states[n].sent
  {
    hide Inv, Step, Delivered, Taken, Allowed;
    if n == 0 {
      FreshInv();
    } else {
      StreamKept(states, ops, n - 1);
      StepInv(states[n - 1], ops[n - 1]);
      StepRecords(states[n - 1], ops[n - 1]);
      InvParts(states[n]);
    }
  }

  lemma FreshInv()
    ensures Inv(FRESH)
  {
  }

  lemma InvParts(s: State)
    requires Inv(s)
    ensures |s.ring| <= PAGE_SIZE && s.got + s.ring == s.sent
  {
  }

  /** A read into a nonempty buffer returns no bytes only when the writing end is closed and everything accepted
      has been read. A write of a nonempty buffer fails exactly when the reading end is closed, and otherwise
      accepts at least one byte or waits for a full ring. */
  lemma EndOfStream(states: seq<State>, ops: seq<Op>, n: nat, t: nat, req: Request)
    requires Run(states, ops) && n <= |ops| && req != ReadReq(0) && req != WriteReq([])
    ensures var reply := Round(states[n], t, req).1;
      match req
      case ReadReq(_) => reply == Returned([]) <==> !states[n].writeOpen && states[n].got == states[n].sent
      case WriteReq(_) =>
        && (reply == Failed(EPIPE) <==> !states[n].readOpen)
        && (reply.Accepted? ==> reply.n > 0)
        && (reply.Waits? ==> |states[n].ring| == PAGE_SIZE)
  {
    StreamKept(states, ops, n);
  }

  /** A read takes the oldest bytes, as many as were asked for or all there are; a write puts the first bytes of its
      buffer behind those in the ring, all of them or as many as fill it. */
  lemma RoundAmounts(s: State, t: nat, req: Request)
    requires |s.ring| <= PAGE_SIZE
    ensures var (a, reply) := Round(s, t, req);
      && (reply.Returned? ==> req.ReadReq? && reply.bytes + a.ring == s.ring && (|reply.bytes| == req.bufsz || a.ring == []))
      && (reply.Accepted? ==> req.WriteReq? && reply.n <= |req.buf| && a.ring == s.ring + req.buf[..reply.n]
                              && (reply.n == |req.buf| || |a.ring| == PAGE_SIZE))
      && (reply.Waits? || reply.Failed? ==> a.ring == s.ring)
  {
  }

  /** In no reachable state does somebody wait to read while somebody waits to write, and nobody waits once the
      pipe is freed. */
  lemma NeverBothWait(states: seq<State>, ops: seq<Op>, n: nat)
    requires Run(states, ops) && n <= |ops|
    ensures states[n].readers == map[] || states[n].writers == map[]
    ensures states[n].freed ==> states[n].readers == map[] && states[n].writers == map[] && states[n].woken == map[]
  {
    StreamKept(states, ops, n);
    var s := states[n];
    if s.freed {
      assert forall t :: t !in s.woken;
      assert s.woken == map[];
    }
  }

  // ---------------------------------------------------------------- no call is forgotten

  /** The calls under way, by thread. */
  function UnderWay(s: State): map<nat, Request> {
    s.readers + s.writers + s.woken
  }

  /** No thread is in two calls. */
  ghost predicate OneEach(s: State) {
    && (forall t :: t in s.readers ==> t !in s.writers && t !in s.woken)
    && (forall t :: t in s.writers ==> t !in s.woken)
  }

  /** What a step does to the calls under way: only the thread that acts starts a call or leaves it, and a call that has
      to wait keeps its request. */
  function CallsAfter(calls: map<nat, Request>, op: Op, reply: Reply): map<nat, Request> {
    match op
    case Start(t, req) => if reply.Waits? then calls[t := req] else calls
    case Resume(t) => if reply.Waits? then calls else calls - {t}
    case _ => calls
  }

  lemma StepCalls(s: State, op: Op)
    requires Inv(s) && OneEach(s) && Allowed(s, op)
    ensures OneEach(Step(s, op).0) && UnderWay(Step(s, op).0) == CallsAfter(UnderWay(s), op, Step(s, op).1)
  {
    match op
    case Start(t, req) => RoundCalls(s, t, req);
    case Resume(t) =>
      var q := s.(woken := s.woken - {t});
      assert UnderWay(q) == UnderWay(s) - {t};
      RoundCalls(q, t, s.woken[t]);
      assert (UnderWay(s) - {t})[t := s.woken[t]] == UnderWay(s);
    case CloseR => WokenCalls(s.(readOpen := false, freed := !s.writeOpen));
    case CloseW => WokenCalls(s.(writeOpen := false, freed := !s.readOpen));
  }

  lemma WokenCalls(s: State)
    requires OneEach(s)
    ensures OneEach(WakeReaders(s)) && UnderWay(WakeReaders(s)) == UnderWay(s)
    ensures OneEach(WakeWriters(s)) && UnderWay(WakeWriters(s)) == UnderWay(s)
  {
    WokenReaders(s);
    WokenWriters(s);
    hide OneEach, UnderWay, WakeReaders, WakeWriters;
  }

  lemma WokenReaders(s: State)
    requires OneEach(s)
    ensures OneEach(WakeReaders(s)) && UnderWay(WakeReaders(s)) == UnderWay(s)
  {
  }

  lemma WokenWriters(s: State)
    requires OneEach(s)
    ensures OneEach(WakeWriters(s)) && UnderWay(WakeWriters(s)) == UnderWay(s)
  {
  }

  lemma OneMoreReader(s: State, t: nat, req: Request)
    requires OneEach(s) && !Pending(s, t)
    ensures OneEach(s.(readers := s.readers[t := req])) && UnderWay(s.(readers := s.readers[t := req])) == UnderWay(s)[t := req]
  {
    UnionUpdated(s.readers, s.writers, s.woken, t, req);
  }

  lemma OneMoreWriter(s: State, t: nat, req: Request)
    requires OneEach(s) && !Pending(s, t)
    ensures OneEach(s.(writers := s.writers[t := req])) && UnderWay(s.(writers := s.writers[t := req])) == UnderWay(s)[t := req]
  {
    UnionUpdated(s.readers, s.writers, s.woken, t, req);
  }

  lemma UnionUpdated(a: map<nat, Request>, b: map<nat, Request>, c: map<nat, Request>, t: nat, req: Request)
    requires t !in a && t !in b && t !in c
    ensures a[t := req] + b + c == (a + b + c)[t := req] == a + b[t := req] + c
  {
  }

  lemma RoundCalls(s: State, t: nat, req: Request)
    requires OneEach(s) && !Pending(s, t)
    ensures var (a, reply) := Round(s, t, req);
      OneEach(a) && UnderWay(a) == if reply.Waits? then UnderWay(s)[t := req] else UnderWay(s)
  {
    hide UnderWay, Read, Write;
    match req
    case ReadReq(n) => ReadCalls(s, t, n);
    case WriteReq(buf) => WriteCalls(s, t, buf);
  }

  lemma SameCalls(s: State, q: State)
    requires OneEach(s) && q.readers == s.readers && q.writers == s.writers && q.woken == s.woken
    ensures OneEach(q) && UnderWay(q) == UnderWay(s)
  {
  }

  lemma ReadCalls(s: State, t: nat, bufsz: nat)
    requires OneEach(s) && !Pending(s, t)
    ensures var (a, reply) := Read(s, t, bufsz);
      OneEach(a) && UnderWay(a) == if reply.Waits? then UnderWay(s)[t := ReadReq(bufsz)] else UnderWay(s)
  {
    OneMoreReader(s, t, ReadReq(bufsz));
    hide WakeWriters, OneEach, UnderWay, Min;
    var k := Min(bufsz, |s.ring|);
    MinIs(bufsz, |s.ring|);
    SameCalls(s, s.(ring := s.ring[k..], got := s.got + s.ring[..k]));
    if bufsz > 0 && s.ring != [] {
      WokenCalls(s.(ring := s.ring[k..], got := s.got + s.ring[..k]));
    }
  }

  lemma WriteCalls(s: State, t: nat, buf: seq<Byte>)
    requires OneEach(s) && !Pending(s, t)
    ensures var (a, reply) := Write(s, t, buf);
      OneEach(a) && UnderWay(a) == if reply.Waits? then UnderWay(s)[t := WriteReq(buf)] else UnderWay(s)
  {
    OneMoreWriter(s, t, WriteReq(buf));
    hide WakeReaders, OneEach, UnderWay, Min;
    if s.readOpen && |s.ring| < PAGE_SIZE {
      var k := Min(|buf|, PAGE_SIZE - |s.ring|);
      MinIs(|buf|, PAGE_SIZE - |s.ring|);
      SameCalls(s, s.(ring := s.ring + buf[..k], sent := s.sent + buf[..k]));
      WokenCalls(s.(ring := s.ring + buf[..k], sent := s.sent + buf[..k]));
    }
  }

  /** The calls started and not yet answered after the first `n` steps, by thread. */
  function Unanswered(states: seq<State>, ops: seq<Op>, n: nat): map<nat, Request>
    requires n <= |ops| < |states| && forall i :: 0 <= i < |ops| ==> Allowed(states[i], ops[i])
  {
    if n == 0 then map[]
    else CallsAfter(Unanswered(states, ops, n - 1), ops[n - 1], Step(states[n - 1], ops[n - 1]).1)
  }

  /** Over every run, exactly the calls started and not yet answered are waiting or woken, each with its request. */
  lemma {:induction false} CallsKept(states: seq<State>, ops: seq<Op>, n: nat)
    requires Run(states, ops) && n <= |ops|
    ensures Inv(states[n]) && OneEach(states[n]) && UnderWay(states[n]) == Unanswered(states, ops, n)
  {
    hide Inv, OneEach, UnderWay, Step, Allowed;
    StreamKept(states, ops, n);
    if n == 0 {
      FreshCalls();
    } else {
      CallsKept(states, ops, n - 1);
      StepCalls(states[n - 1], ops[n - 1]);
    }
  }

  lemma FreshCalls()
    ensures OneEach(FRESH) && UnderWay(FRESH) == map[]
  {
  }

  /** No wakeup is lost: over every run, a reader that has not been answered can go on when there are bytes or the
      writing end is closed, and a writer when there is room or the reading end is closed. */
  lemma NoLostWakeup(states: seq<State>, ops: seq<Op>, n: nat, t: nat)
    requires Run(states, ops) && n <= |ops| && t in Unanswered(states, ops, n)
    ensures var s, req := states[n], Unanswered(states, ops, n)[t];
      && (req.ReadReq? && (s.ring != [] || !s.writeOpen) ==> Allowed(s, Resume(t)) && s.woken[t] == req)
      && (req.WriteReq? && (|s.ring| < PAGE_SIZE || !s.readOpen) ==> Allowed(s, Resume(t)) && s.woken[t] == req)
  {
    hide Unanswered;
    CallsKept(states, ops, n);
  }

  /** A write that accepts bytes, and the close of the writing end, wake every waiting reader; a read that returns bytes,
      and the close of the reading end, wake every waiting writer; each with its request. */
  lemma EveryWaiterWoken(s: State, op: Op)
    requires Inv(s) && OneEach(s) && Allowed(s, op)
    ensures var (a, reply) := Step(s, op);
      && (op.CloseW? || (reply.Accepted? && reply.n > 0) ==> forall t :: t in s.readers ==> t in a.woken && a.woken[t] == s.readers[t])
      && (op.CloseR? || (reply.Returned? && reply.bytes != []) ==> forall t :: t in s.writers ==> t in a.woken && a.woken[t] == s.writers[t])
  {
  }

  // ---------------------------------------------------------------- the ring carries it out

  /** The pipe shows the state, with its lock free. */
  ghost predicate Shows(p: Pipe, s: State)
    reads p, p.data
  {
    p.Valid() && !p.locked && p.Contents() == s.ring && p.readOpen == s.readOpen && p.writeOpen == s.writeOpen
  }

  method DoRead(p: Pipe, buf: array<Byte>, bufsz: nat, ghost s: State, ghost t: nat) returns (r: Option<nat>)
    requires Shows(p, s) && bufsz <= buf.Length && buf != p.data
    modifies p, buf
    ensures Shows(p, Read(s, t, bufsz).0)
    ensures Read(s, t, bufsz).1 == if r.None? then Waits else if r.value <= bufsz then Returned(buf[..r.value]) else Waits
    ensures r.Some? ==> r.value <= bufsz && buf[r.value..] == old(buf[..])[r.value..]
  {
    if bufsz == 0 {
      return Some(0);
    }
    r := p.ReadRound(buf, bufsz);
  }

  method DoWrite(p: Pipe, buf: seq<Byte>, ghost s: State, ghost t: nat) returns (r: Option<Result<nat>>)
    requires Shows(p, s)
    modifies p, p.data
    ensures Shows(p, Write(s, t, buf).0)
    ensures Write(s, t, buf).1 ==
      match r {
        case None => Waits
        case Some(Ok(n)) => Accepted(n)
        case Some(Err(e)) => Failed(e)
      }
  {
    if buf == [] {
      return Some(Ok(0));
    }
    r := p.WriteRound(buf);
  }

  method DoClose(p: Pipe, reading: bool, ghost s: State) returns (freed: bool)
    requires Shows(p, s)
    modifies p
    ensures var after := if reading then CloseReadEnd(s) else CloseWriteEnd(s); Shows(p, after) && freed == after.freed
  {
    if reading {
      freed := p.CloseRead();
    } else {
      freed := p.CloseWrite();
    }
  }
}
