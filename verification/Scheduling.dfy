/** The scheduler, conditions, locks and thread table as values. A step is the code between two
    suspensions of the running thread. */
module Scheduling {
  import opened Results

  const NTHR := 16
  const MAIN_TID := 0
  const IDLE_TID := 15

  /** The condition variables: one per thread for the exits of its children, one per lock, and others. */
  datatype Cond = ChildExit(tid: nat) | LockFreed(lock: nat) | Event(id: nat)

  datatype Status = Waiting(on: Cond) | Self | Ready | Exited

  /** `joins` records what a thread that waits in thread_join waits for: a thread id, or 0 for any child. */
  datatype Thread = Thread(status: Status, parent: Option<nat>, locks: seq<nat>, joins: Option<nat>)

  datatype Lock = Lock(owner: Option<nat>, cnt: nat)

  datatype State = State(threads: map<nat, Thread>, ready: seq<nat>, waits: map<Cond, seq<nat>>, locks: map<nat, Lock>, running: nat)

  function WaitersOn(s: State, c: Cond): seq<nat> {
    if c in s.waits then s.waits[c] else []
  }

  function LockOf(s: State, l: nat): Lock {
    if l in s.locks then s.locks[l] else Lock(None, 0)
  }

  function WithStatus(s: State, t: nat, status: Status): State {
    if t in s.threads then s.(threads := s.threads[t := s.threads[t].(status := status)]) else s
  }

  // ---------------------------------------------------------------- steps

  /** A running thread that can go on is queued last. */
  function Queued(s: State): State {
    if s.running in s.threads && s.threads[s.running].status.Self? then
      WithStatus(s, s.running, Ready).(ready := s.ready + [s.running])
    else s
  }

  /** running_thread_suspend: the first ready thread runs. */
  function Suspend(s: State): State {
    var q := Queued(s);
    if q.ready == [] then q
    else WithStatus(q, q.ready[0], Self).(ready := q.ready[1..], running := q.ready[0])
  }

  /** condition_wait, up to the suspension. */
  function Enqueue(s: State, c: Cond): State {
    WithStatus(s, s.running, Waiting(c)).(waits := s.waits[c := WaitersOn(s, c) + [s.running]])
  }

  function Wait(s: State, c: Cond): State {
    Suspend(Enqueue(s, c))
  }

  /** condition_broadcast: every waiter becomes ready, in order, behind the threads that are ready already. */
  function Broadcast(s: State, c: Cond): State {
    s.(threads := Woken(s.threads, WaitersOn(s, c)), ready := s.ready + WaitersOn(s, c), waits := s.waits[c := []])
  }

  function Woken(threads: map<nat, Thread>, list: seq<nat>): map<nat, Thread> {
    map t | t in threads :: if t in list then threads[t].(status := Ready) else threads[t]
  }

  /** One round of lock_acquire: whether the lock was taken, or the thread waits for it to be freed. */
  function Acquire(s: State, l: nat): (State, bool) {
    var lock := LockOf(s, l);
    if lock.owner == Some(s.running) then (s.(locks := s.locks[l := lock.(cnt := lock.cnt + 1)]), true)
    else if lock.owner.Some? then (Wait(s, LockFreed(l)), false)
    else (Take(s, l), true)
  }

  function Take(s: State, l: nat): State {
    if s.running !in s.threads then s
    else
      var me := s.threads[s.running];
      s.(locks := s.locks[l := Lock(Some(s.running), 1)], threads := s.threads[s.running := me.(locks := [l] + me.locks)])
  }

  /** The list without the first occurrence of `l`. */
  function Without(list: seq<nat>, l: nat): seq<nat> {
    if list == [] then [] else if list[0] == l then list[1..] else [list[0]] + Without(list[1..], l)
  }

  /** Lock `l` of the running thread is freed, whatever its count, and its waiters are woken. */
  function FreeLock(s: State, l: nat): State {
    var b := Broadcast(s, LockFreed(l));
    if s.running !in b.threads then b
    else
      var me := b.threads[s.running];
      b.(locks := b.locks[l := Lock(None, 0)], threads := b.threads[s.running := me.(locks := Without(me.locks, l))])
  }

  /** lock_release by the owner. */
  function Release(s: State, l: nat): State {
    var lock := LockOf(s, l);
    if lock.cnt > 1 then s.(locks := s.locks[l := lock.(cnt := lock.cnt - 1)])
    else FreeLock(s, l)
  }

  /** release_all_thread_locks for the running thread, first lock of its list first. */
  function ReleaseAll(s: State, list: seq<nat>): State
    decreases |list|
  {
    if list == [] then s else ReleaseAll(FreeLock(s, list[0]), list[1..])
  }

  /** running_thread_exit, of a thread other than the main thread. */
  function Exit(s: State): State {
    Suspend(Leave(WithStatus(ReleaseAll(s, LocksOf(s, s.running)), s.running, Exited)))
  }

  function LocksOf(s: State, t: nat): seq<nat> {
    if t in s.threads then s.threads[t].locks else []
  }

  /** The parent is told. */
  function Leave(s: State): State {
    if s.running in s.threads && s.threads[s.running].parent.Some? then Broadcast(s, ChildExit(s.threads[s.running].parent.value)) else s
  }

  /** The first free slot of the thread table from `tid` on; `NTHR` if there is none. */
  function FreeSlot(threads: map<nat, Thread>, tid: nat): nat
    decreases NTHR - tid
  {
    if tid >= NTHR || tid !in threads then tid else FreeSlot(threads, tid + 1)
  }

  /** spawn_thread. */
  function Spawn(s: State): (State, Result<nat>) {
    var tid := FreeSlot(s.threads, 1);
    if tid >= NTHR then (s, Err(EMTHR))
    else
      (s.(threads := s.threads[tid := Thread(Ready, Some(s.running), [], None)], ready := s.ready + [tid],
          waits := s.waits[ChildExit(tid) := []]), Ok(tid))
  }

  /** thread_reclaim: the children pass to the thread's own parent, and the slot is free again. */
  function Reclaim(s: State, tid: nat): State {
    if tid !in s.threads then s
    else
      s.(threads := map t | t in s.threads && t != tid ::
           if t > 0 && s.threads[t].parent == Some(tid) then s.threads[t].(parent := s.threads[tid].parent) else s.threads[t])
  }

  predicate IsChild(s: State, t: nat, of: nat) {
    t in s.threads && s.threads[t].parent == Some(of)
  }

  /** The first child of the running thread, from slot `tid` on, that has exited. */
  function ExitedChild(s: State, tid: nat): Option<nat>
    decreases NTHR - tid
  {
    if tid >= IDLE_TID then None
    else if IsChild(s, tid, s.running) && s.threads[tid].status == Exited then Some(tid)
    else ExitedChild(s, tid + 1)
  }

  function HasChild(s: State, tid: nat): bool
    decreases NTHR - tid
  {
    tid < IDLE_TID && (IsChild(s, tid, s.running) || HasChild(s, tid + 1))
  }

  function WaitJoin(s: State, what: nat): State {
    if s.running !in s.threads then s
    else Wait(s.(threads := s.threads[s.running := s.threads[s.running].(joins := Some(what))]), ChildExit(s.running))
  }

  /** One round of thread_join: its result, or none if the thread waits. `first` says that the call has not
      waited yet. */
  function Join(s: State, tid: int, first: bool): (State, Option<Result<nat>>) {
    if tid != 0 then
      if tid < 0 || tid >= NTHR || tid == IDLE_TID || !IsChild(s, tid, s.running) then (s, Some(Err(EINVAL)))
      else if s.threads[tid].status == Exited then (Reclaim(s, tid), Some(Ok(tid)))
      else (WaitJoin(s, tid), None)
    else
      var child := ExitedChild(s, 1);
      if child.Some? then (Reclaim(s, child.value), Some(Ok(child.value)))
      else if first && !HasChild(s, 1) then (s, Some(Err(EINVAL)))
      else (WaitJoin(s, 0), None)
  }

  /** thread_detach. */
  function Detach(s: State, tid: nat): State {
    if tid in s.threads then s.(threads := s.threads[tid := s.threads[tid].(parent := None)]) else s
  }

  // ---------------------------------------------------------------- lists

  ghost predicate NoDuplicates(list: seq<nat>) {
    forall i: nat, j: nat :: i < j < |list| ==> list[i] != list[j]
  }

  lemma ConcatNoDuplicates(a: seq<nat>, b: seq<nat>)
    requires NoDuplicates(a) && NoDuplicates(b) && forall t :: t in a ==> t !in b
    ensures NoDuplicates(a + b)
  {
    var l := a + b;
    forall i: nat, j: nat | i < j < |l| ensures l[i] != l[j] {
      if i < |a| <= j {
        assert l[i] in a && l[j] in b;
      }
    }
  }

  lemma TailNoDuplicates(list: seq<nat>)
    requires NoDuplicates(list) && list != []
    ensures NoDuplicates(list[1..])
    ensures forall t :: t in list[1..] <==> t in list && t != list[0]
  {
    forall t | t in list && t != list[0] ensures t in list[1..] {
      var i :| 0 <= i < |list| && list[i] == t;
      assert list[1..][i - 1] == t;
    }
  }

  // ---------------------------------------------------------------- placement

  predicate Has(s: State, t: nat, status: Status) {
    t in s.threads && s.threads[t].status == status
  }

  ghost predicate ReadyPlaced(s: State) {
    NoDuplicates(s.ready) && forall t: nat :: t in s.ready <==> Has(s, t, Ready)
  }

  ghost predicate WaitingPlaced(s: State) {
    && (forall c :: NoDuplicates(WaitersOn(s, c)))
    && (forall c, t: nat :: t in WaitersOn(s, c) <==> Has(s, t, Waiting(c)))
  }

  /** Ready threads are exactly those on the ready list, waiting threads exactly those on the list of the
      condition they wait for, each once; nobody but the current thread can be the running one; and the idle
      thread can always run. */
  ghost predicate Placed(s: State) {
    && s.running in s.threads && IDLE_TID in s.threads
    && (forall t :: t in s.threads ==> t < NTHR)
    && ReadyPlaced(s) && WaitingPlaced(s)
    && (forall t: nat :: Has(s, t, Self) ==> t == s.running)
    && (Has(s, IDLE_TID, Ready) || Has(s, IDLE_TID, Self))
  }

  /** Between two steps, exactly the current thread is running. */
  ghost predicate Settled(s: State) {
    Placed(s) && Has(s, s.running, Self)
  }

  /** A change of status of one thread, and what else it does to the lists. */
  lemma StatusChanged(s: State, t: nat, status: Status)
    requires t in s.threads
    ensures forall u: nat, st :: Has(WithStatus(s, t, status), u, st) <==> if u == t then st == status else Has(s, u, st)
    ensures WithStatus(s, t, status) == s.(threads := WithStatus(s, t, status).threads)
    ensures WithStatus(s, t, status).threads.Keys == s.threads.Keys
  {
  }

  lemma QueuedPlaced(s: State)
    requires Placed(s) && !Has(s, s.running, Ready)
    ensures ReadyPlaced(Queued(s)) && WaitingPlaced(Queued(s)) && Queued(s).ready != []
    ensures forall t: nat :: !Has(Queued(s), t, Self)
    ensures Queued(s).threads.Keys == s.threads.Keys
    ensures Has(Queued(s), IDLE_TID, Ready)
    ensures s.ready == [] ==> Has(s, s.running, Self)
  {
    var q := Queued(s);
    if Has(s, s.running, Self) {
      StatusChanged(s, s.running, Ready);
      ConcatNoDuplicates(s.ready, [s.running]);
      forall c ensures WaitersOn(q, c) == WaitersOn(s, c) {
      }
    } else {
      assert IDLE_TID in s.ready;
    }
    assert forall t: nat, st :: Has(q, t, st) <==> if t == s.running && Has(s, t, Self) then st == Ready else Has(s, t, st);
    assert IDLE_TID in q.ready;
  }

  /** A suspension always finds a thread to run, the first one ready, and settles. */
  lemma SuspendSettles(s: State)
    requires Placed(s) && !Has(s, s.running, Ready)
    ensures Settled(Suspend(s))
    ensures s.ready == [] ==> Has(s, s.running, Self)
    ensures var all := s.ready + if Has(s, s.running, Self) then [s.running] else [];
      all != [] && Suspend(s).running == all[0] && Suspend(s).ready == all[1..]
  {
    QueuedPlaced(s);
    var q := Queued(s);
    TailNoDuplicates(q.ready);
    assert Has(q, q.ready[0], Ready);
    StatusChanged(q, q.ready[0], Self);
    forall c ensures WaitersOn(Suspend(s), c) == WaitersOn(q, c) {
    }
    assert forall t: nat, st :: Has(Suspend(s), t, st) <==> if t == q.ready[0] then st == Self else Has(q, t, st);
  }

  lemma EnqueuePlaced(s: State, c: Cond)
    requires Settled(s) && s.running != IDLE_TID
    ensures Placed(Enqueue(s, c)) && Has(Enqueue(s, c), s.running, Waiting(c))
  {
    StatusChanged(s, s.running, Waiting(c));
    var e := Enqueue(s, c);
    ConcatNoDuplicates(WaitersOn(s, c), [s.running]);
    assert forall t: nat, st :: Has(e, t, st) <==> if t == s.running then st == Waiting(c) else Has(s, t, st);
    forall d ensures WaitersOn(e, d) == if d == c then WaitersOn(s, c) + [s.running] else WaitersOn(s, d) {
    }
  }

  lemma BroadcastPlaced(s: State, c: Cond)
    requires Placed(s)
    ensures Placed(Broadcast(s, c)) && WaitersOn(Broadcast(s, c), c) == []
    ensures forall t: nat, st :: Has(Broadcast(s, c), t, st) <==> if Has(s, t, Waiting(c)) then st == Ready else Has(s, t, st)
  {
    var b := Broadcast(s, c);
    assert forall t: nat, st :: Has(b, t, st) <==> if Has(s, t, Waiting(c)) then st == Ready else Has(s, t, st);
    ConcatNoDuplicates(s.ready, WaitersOn(s, c));
    forall d ensures WaitersOn(b, d) == if d == c then [] else WaitersOn(s, d) {
    }
  }

  // ---------------------------------------------------------------- locks and families

  predicate Holds(s: State, t: nat, l: nat) {
    t in s.threads && l in s.threads[t].locks
  }

  /** A lock's owner is the thread that has it on its list, once, with a positive count; a lock somebody waits
      for is owned; and an exited thread owns none. */
  ghost predicate LocksOk(s: State) {
    && (forall l :: LockOf(s, l).owner.Some? <==> LockOf(s, l).cnt > 0)
    && (forall t: nat, l: nat :: LockOf(s, l).owner == Some(t) <==> Holds(s, t, l))
    && (forall t :: t in s.threads ==> NoDuplicates(s.threads[t].locks))
    && (forall t :: t in s.threads && s.threads[t].status == Exited ==> s.threads[t].locks == [])
    && (forall l :: WaitersOn(s, LockFreed(l)) != [] ==> LockOf(s, l).owner.Some?)
  }

  /** A thread that waits to join has nothing to join yet: no child it asked for has exited. */
  ghost predicate JoinPending(s: State, t: nat, what: nat) {
    forall c: nat :: (c == what || (what == 0 && 1 <= c < IDLE_TID)) && IsChild(s, c, t) ==> s.threads[c].status != Exited
  }

  ghost predicate FamilyOk(s: State) {
    && (MAIN_TID in s.threads ==> s.threads[MAIN_TID].parent == None)
    && (forall t: nat, u: nat :: IsChild(s, t, u) ==> u in s.threads)
    && (forall t: nat, u: nat :: Has(s, t, Waiting(ChildExit(u))) ==>
          u == t && s.threads[t].joins.Some? && JoinPending(s, t, s.threads[t].joins.value))
  }

  ghost predicate Inv(s: State) {
    Settled(s) && LocksOk(s) && FamilyOk(s)
  }

  /** Threads only moved between ready and running; waiting lists and locks stay. */
  ghost predicate SameButRunning(s: State, s': State) {
    && s'.waits == s.waits && s'.locks == s.locks && s'.threads.Keys == s.threads.Keys
    && (forall t :: t in s.threads ==>
          var (a, b) := (s.threads[t], s'.threads[t]);
          b == a.(status := b.status) && (b.status == a.status || ((a.status.Self? || a.status.Ready?) && (b.status.Self? || b.status.Ready?))))
  }

  lemma SuspendSame(s: State)
    requires Placed(s) && !Has(s, s.running, Ready)
    ensures SameButRunning(s, Suspend(s))
  {
    QueuedPlaced(s);
    assert Has(Queued(s), Queued(s).ready[0], Ready);
  }

  lemma SameLocks(s: State, s': State)
    requires SameButRunning(s, s') && LocksOk(s)
    ensures LocksOk(s')
  {
    assert forall t: nat, l: nat :: Holds(s', t, l) <==> Holds(s, t, l);
    assert forall l :: LockOf(s', l) == LockOf(s, l);
    assert forall c :: WaitersOn(s', c) == WaitersOn(s, c);
  }

  lemma SameFamily(s: State, s': State)
    requires SameButRunning(s, s') && FamilyOk(s)
    ensures FamilyOk(s')
  {
    assert forall t: nat, u: nat :: IsChild(s', t, u) <==> IsChild(s, t, u);
    assert forall t: nat, u: nat :: Has(s', t, Waiting(ChildExit(u))) <==> Has(s, t, Waiting(ChildExit(u)));
    forall t: nat, what: nat | JoinPending(s, t, what) ensures JoinPending(s', t, what) {
      assert forall c: nat :: IsChild(s, c, t) ==> (s'.threads[c].status == Exited <==> s.threads[c].status == Exited);
    }
  }

  /** A suspension of a consistent state leads to a consistent state. */
  lemma SuspendInv(s: State)
    requires Placed(s) && !Has(s, s.running, Ready) && LocksOk(s) && FamilyOk(s)
    ensures Inv(Suspend(s))
  {
    SuspendSettles(s);
    SuspendSame(s);
    SameLocks(s, Suspend(s));
    SameFamily(s, Suspend(s));
  }

  /** What a thread may wait for. */
  ghost predicate MayWait(s: State, c: Cond) {
    match c
    case Event(_) => true
    case LockFreed(l) => LockOf(s, l).owner.Some?
    case ChildExit(u) => u == s.running && s.running in s.threads && s.threads[u].joins.Some? && JoinPending(s, u, s.threads[u].joins.value)
  }

  lemma EnqueueLocks(s: State, c: Cond)
    requires LocksOk(s) && Has(s, s.running, Self) && MayWait(s, c)
    ensures LocksOk(Enqueue(s, c))
  {
    var e := Enqueue(s, c);
    assert forall t: nat, l: nat :: Holds(e, t, l) <==> Holds(s, t, l);
    assert forall l :: LockOf(e, l) == LockOf(s, l);
    assert forall d :: WaitersOn(e, d) == if d == c then WaitersOn(s, c) + [s.running] else WaitersOn(s, d);
  }

  lemma EnqueueFamily(s: State, c: Cond)
    requires FamilyOk(s) && Has(s, s.running, Self) && MayWait(s, c)
    ensures FamilyOk(Enqueue(s, c))
  {
    var e := Enqueue(s, c);
    assert forall t: nat, u: nat :: IsChild(e, t, u) <==> IsChild(s, t, u);
    assert forall t: nat, u: nat :: Has(e, t, Waiting(ChildExit(u))) <==>
      Has(s, t, Waiting(ChildExit(u))) || (t == s.running && c == ChildExit(u));
    forall t: nat, what: nat | JoinPending(s, t, what) ensures JoinPending(e, t, what) {
    }
  }

  lemma WaitInv(s: State, c: Cond)
    requires Inv(s) && s.running != IDLE_TID && MayWait(s, c)
    ensures Inv(Wait(s, c))
  {
    hide LocksOk, FamilyOk, MayWait, Suspend;
    EnqueuePlaced(s, c);
    EnqueueLocks(s, c);
    EnqueueFamily(s, c);
    SuspendInv(Enqueue(s, c));
  }

  lemma BroadcastLocks(s: State, c: Cond)
    requires LocksOk(s)
    ensures LocksOk(Broadcast(s, c))
  {
    var b := Broadcast(s, c);
    assert forall t: nat, l: nat :: Holds(b, t, l) <==> Holds(s, t, l);
    assert forall l :: LockOf(b, l) == LockOf(s, l);
    assert forall d :: WaitersOn(b, d) == if d == c then [] else WaitersOn(s, d);
  }

  lemma BroadcastFamily(s: State, c: Cond)
    requires FamilyOk(s) && Placed(s)
    ensures FamilyOk(Broadcast(s, c))
  {
    hide LocksOk;
    BroadcastPlaced(s, c);
    var b := Broadcast(s, c);
    assert forall t: nat, u: nat :: IsChild(b, t, u) <==> IsChild(s, t, u);
    assert forall t: nat, u: nat :: Has(b, t, Waiting(ChildExit(u))) ==> Has(s, t, Waiting(ChildExit(u)));
    forall t: nat, what: nat | JoinPending(s, t, what) ensures JoinPending(b, t, what) {
      assert forall x: nat :: IsChild(s, x, t) && b.threads[x].status == Exited ==> Has(b, x, Exited) && Has(s, x, Exited);
    }
  }

  /** Waking the waiters of a condition keeps everything consistent. */
  lemma BroadcastKeeps(s: State, c: Cond)
    requires Placed(s) && LocksOk(s) && FamilyOk(s)
    ensures Placed(Broadcast(s, c)) && LocksOk(Broadcast(s, c)) && FamilyOk(Broadcast(s, c))
    ensures Broadcast(s, c).threads.Keys == s.threads.Keys && Broadcast(s, c).locks == s.locks
    ensures forall t: nat, st :: Has(Broadcast(s, c), t, st) <==> if Has(s, t, Waiting(c)) then st == Ready else Has(s, t, st)
  {
    hide LocksOk, FamilyOk;
    BroadcastPlaced(s, c);
    BroadcastLocks(s, c);
    BroadcastFamily(s, c);
  }

  // ---------------------------------------------------------------- every step

  lemma YieldInv(s: State)
    requires Inv(s)
    ensures Inv(Suspend(s))
  {
    SuspendInv(s);
  }

  lemma AcquireInv(s: State, l: nat)
    requires Inv(s) && s.running != IDLE_TID
    ensures Inv(Acquire(s, l).0)
    ensures Acquire(s, l).1 ==> LockOf(Acquire(s, l).0, l) == Lock(Some(s.running), if LockOf(s, l).owner.Some? then LockOf(s, l).cnt + 1 else 1)
  {
    var lock, a := LockOf(s, l), Acquire(s, l).0;
    if lock.owner.Some? && lock.owner != Some(s.running) {
      WaitInv(s, LockFreed(l));
    } else {
      LocksChanged(s, a, l);
      if lock.owner.None? {
        TakeInv(s, l);
      } else {
        CountInv(s, a, l);
      }
    }
  }

  /** A positive count of an owned lock may change. */
  lemma CountInv(s: State, a: State, l: nat)
    requires LocksOk(s) && a == s.(locks := s.locks[l := LockOf(a, l)]) && LockOf(s, l).owner.Some?
    requires LockOf(a, l).owner == LockOf(s, l).owner && LockOf(a, l).cnt > 0
    ensures LocksOk(a)
  {
    assert forall t: nat, k: nat :: Holds(a, t, k) <==> Holds(s, t, k);
    assert forall k :: LockOf(a, k) == if k == l then LockOf(a, l) else LockOf(s, k);
    assert forall c :: WaitersOn(a, c) == WaitersOn(s, c);
  }

  lemma TakeInv(s: State, l: nat)
    requires Inv(s) && LockOf(s, l).owner.None?
    ensures LocksOk(Take(s, l))
  {
    var a := Take(s, l);
    assert !Holds(s, s.running, l);
    ConcatNoDuplicates([l], s.threads[s.running].locks);
    assert forall t: nat, k: nat :: Holds(a, t, k) <==> Holds(s, t, k) || (t == s.running && k == l);
    assert forall k :: LockOf(a, k) == if k == l then Lock(Some(s.running), 1) else LockOf(s, k);
  }

  /** A change to a lock and to the lock lists only. */
  lemma LocksChanged(s: State, a: State, l: nat)
    requires Placed(s) && FamilyOk(s) && a == s.(locks := a.locks, threads := a.threads) && a.threads.Keys == s.threads.Keys
    requires forall t :: t in s.threads ==> a.threads[t] == s.threads[t].(locks := a.threads[t].locks)
    ensures Placed(a) && FamilyOk(a) && (Settled(s) ==> Settled(a))
  {
    assert forall t: nat, st :: Has(a, t, st) <==> Has(s, t, st);
    assert forall t: nat, u: nat :: IsChild(a, t, u) <==> IsChild(s, t, u);
    assert forall c :: WaitersOn(a, c) == WaitersOn(s, c);
    forall t: nat, u: nat | Has(a, t, Waiting(ChildExit(u)))
      ensures u == t && a.threads[t].joins.Some? && JoinPending(a, t, a.threads[t].joins.value)
    {
      assert Has(s, t, Waiting(ChildExit(u)));
    }
  }

  lemma {:induction false} WithoutIs(list: seq<nat>, l: nat)
    requires NoDuplicates(list)
    ensures NoDuplicates(Without(list, l)) && forall k :: k in Without(list, l) <==> k in list && k != l
  {
    if list != [] {
      TailNoDuplicates(list);
      WithoutIs(list[1..], l);
      if list[0] != l {
        ConcatNoDuplicates([list[0]], Without(list[1..], l));
      }
    }
  }

  /** A lock of thread `t` is freed, with nobody waiting for it. */
  lemma FreedInv(s: State, a: State, t: nat, l: nat)
    requires LocksOk(s) && LockOf(s, l).owner == Some(t) && t in s.threads && WaitersOn(s, LockFreed(l)) == []
    requires a == s.(locks := s.locks[l := Lock(None, 0)],
                     threads := s.threads[t := s.threads[t].(locks := Without(s.threads[t].locks, l))])
    ensures LocksOk(a)
  {
    WithoutIs(s.threads[t].locks, l);
    assert forall u: nat, k: nat :: Holds(a, u, k) <==> Holds(s, u, k) && !(u == t && k == l);
    assert forall k :: LockOf(a, k) == if k == l then Lock(None, 0) else LockOf(s, k);
    assert forall c :: WaitersOn(a, c) == WaitersOn(s, c);
  }

  lemma OwnerIsThread(s: State, l: nat)
    requires LocksOk(s)
    ensures forall t :: LockOf(s, l).owner == Some(t) ==> t in s.threads
  {
  }

  lemma FreeLockInv(s: State, l: nat)
    requires Inv(s) && LockOf(s, l).owner == Some(s.running)
    ensures Inv(FreeLock(s, l)) && FreeLock(s, l).running == s.running
    ensures LockOf(FreeLock(s, l), l) == Lock(None, 0) && LocksOf(FreeLock(s, l), s.running) == Without(LocksOf(s, s.running), l)
    ensures FreeLock(s, l).ready == s.ready + WaitersOn(s, LockFreed(l))
  {
    hide FamilyOk, LocksOk;
    var b, f := Broadcast(s, LockFreed(l)), FreeLock(s, l);
    OwnerIsThread(s, l);
    BroadcastKeeps(s, LockFreed(l));
    assert WaitersOn(b, LockFreed(l)) == [];
    assert Has(b, s.running, Self) && LockOf(b, l) == LockOf(s, l);
    FreedInv(b, f, s.running, l);
    LocksChanged(b, f, l);
  }

  /** A release by the owner keeps everything consistent; at the last one, the lock is free and its waiters are
      ready, in order, behind the threads that were ready. */
  lemma ReleaseInv(s: State, l: nat)
    requires Inv(s) && LockOf(s, l).owner == Some(s.running)
    ensures Inv(Release(s, l))
    ensures LockOf(Release(s, l), l) == if LockOf(s, l).cnt > 1 then LockOf(s, l).(cnt := LockOf(s, l).cnt - 1) else Lock(None, 0)
    ensures Release(s, l).ready == s.ready + if LockOf(s, l).cnt > 1 then [] else WaitersOn(s, LockFreed(l))
  {
    if LockOf(s, l).cnt > 1 {
      LocksChanged(s, Release(s, l), l);
      CountInv(s, Release(s, l), l);
    } else {
      FreeLockInv(s, l);
    }
  }

  lemma {:induction false} ReleaseAllInv(s: State, list: seq<nat>)
    requires Inv(s) && LocksOf(s, s.running) == list
    ensures Inv(ReleaseAll(s, list)) && LocksOf(ReleaseAll(s, list), s.running) == [] && ReleaseAll(s, list).running == s.running
    ensures s.ready <= ReleaseAll(s, list).ready && ReleaseAll(s, list).threads.Keys == s.threads.Keys
    decreases |list|
  {
    if list != [] {
      assert Holds(s, s.running, list[0]);
      FreeLockInv(s, list[0]);
      ReleaseAllInv(FreeLock(s, list[0]), list[1..]);
    }
  }

  /** The running thread is marked as exited. */
  lemma MarkExited(s: State)
    requires Inv(s) && s.running != IDLE_TID && LocksOf(s, s.running) == []
    ensures var e := WithStatus(s, s.running, Exited); Placed(e) && LocksOk(e) && Has(e, s.running, Exited)
    ensures FamilyOk(Leave(WithStatus(s, s.running, Exited))) && Placed(Leave(WithStatus(s, s.running, Exited)))
    ensures LocksOk(Leave(WithStatus(s, s.running, Exited))) && Has(Leave(WithStatus(s, s.running, Exited)), s.running, Exited)
    ensures s.ready <= Leave(WithStatus(s, s.running, Exited)).ready && Leave(WithStatus(s, s.running, Exited)).running == s.running
  {
    var me, e := s.running, WithStatus(s, s.running, Exited);
    StatusChanged(s, me, Exited);
    assert forall t: nat, l: nat :: Holds(e, t, l) <==> Holds(s, t, l);
    assert forall t: nat, u: nat :: IsChild(e, t, u) <==> IsChild(s, t, u);
    assert forall l :: LockOf(e, l) == LockOf(s, l);
    assert forall c :: WaitersOn(e, c) == WaitersOn(s, c);
    assert Placed(e) && LocksOk(e);
    LeaveFamily(s, e);
  }

  lemma LeaveFamily(s: State, e: State)
    requires Inv(s) && e == WithStatus(s, s.running, Exited) && Placed(e) && LocksOk(e) && s.running != IDLE_TID
    ensures FamilyOk(Leave(e)) && Placed(Leave(e)) && LocksOk(Leave(e)) && Has(Leave(e), s.running, Exited)
    ensures e.ready <= Leave(e).ready && Leave(e).running == s.running
  {
    hide LocksOk, Settled, Placed;
    var me, l := s.running, Leave(e);
    PlacedHasRunning(s);
    if e.threads[me].parent.Some? {
      BroadcastPlaced(e, ChildExit(e.threads[me].parent.value));
      BroadcastLocks(e, ChildExit(e.threads[me].parent.value));
    }
    forall t: nat, u: nat | Has(l, t, Waiting(ChildExit(u))) ensures Has(s, t, Waiting(ChildExit(u))) && !IsChild(s, me, u) {
      assert Has(e, t, Waiting(ChildExit(u)));
    }
    LeftFamily(s, l, me);
  }

  lemma LeftFamily(s: State, l: State, me: nat)
    requires FamilyOk(s) && l.threads.Keys == s.threads.Keys
    requires forall t :: t in s.threads ==>
               l.threads[t] == s.threads[t].(status := l.threads[t].status) && (t == me || (l.threads[t].status == Exited ==> s.threads[t].status == Exited))
    requires forall t: nat, u: nat :: Has(l, t, Waiting(ChildExit(u))) ==> Has(s, t, Waiting(ChildExit(u))) && !IsChild(s, me, u)
    ensures FamilyOk(l)
  {
    assert forall t: nat, u: nat :: IsChild(l, t, u) <==> IsChild(s, t, u);
    forall t: nat, what: nat | JoinPending(s, t, what) && !IsChild(s, me, t) ensures JoinPending(l, t, what) {
    }
  }

  lemma PlacedHasRunning(s: State)
    requires Inv(s)
    ensures s.running in s.threads && Has(s, s.running, Self)
  {
  }

  lemma ExitInv(s: State)
    requires Inv(s) && s.running != IDLE_TID
    ensures Inv(Exit(s))
  {
    var r := ReleaseAll(s, LocksOf(s, s.running));
    ReleaseAllInv(s, LocksOf(s, s.running));
    MarkExited(r);
    SuspendInv(Leave(WithStatus(r, s.running, Exited)));
  }

  lemma {:induction false} FreeSlotIs(threads: map<nat, Thread>, tid: nat)
    requires tid <= NTHR
    ensures tid <= FreeSlot(threads, tid) <= NTHR
    ensures FreeSlot(threads, tid) < NTHR ==> FreeSlot(threads, tid) !in threads
    ensures forall t :: tid <= t < FreeSlot(threads, tid) ==> t in threads
    decreases NTHR - tid
  {
    if tid < NTHR && tid in threads {
      FreeSlotIs(threads, tid + 1);
    }
  }

  /** A new thread takes the first free slot and is queued last; there is none exactly when all are taken. */
  lemma SpawnInv(s: State)
    requires Inv(s)
    ensures Inv(Spawn(s).0)
    ensures Spawn(s).1.Err? ==> Spawn(s) == (s, Err(EMTHR)) && forall t :: 1 <= t < NTHR ==> t in s.threads
    ensures Spawn(s).1.Ok? ==>
      && 1 <= Spawn(s).1.value < NTHR && Spawn(s).1.value !in s.threads && IsChild(Spawn(s).0, Spawn(s).1.value, s.running)
      && Spawn(s).0.ready == s.ready + [Spawn(s).1.value] && (forall t :: 1 <= t < Spawn(s).1.value ==> t in s.threads)
  {
    FreeSlotIs(s.threads, 1);
    var tid := FreeSlot(s.threads, 1);
    if tid < NTHR {
      var a := Spawn(s).0;
      assert tid !in s.ready by { assert !Has(s, tid, Ready); }
      ConcatNoDuplicates(s.ready, [tid]);
      NoStrangers(s, tid);
      assert forall t: nat, st :: Has(a, t, st) <==> if t == tid then st == Ready else Has(s, t, st);
      assert forall c :: WaitersOn(a, c) == WaitersOn(s, c);
      SpawnLocks(s, a, tid);
      SpawnFamily(s, a, tid);
    }
  }

  lemma SomeMember(list: seq<nat>)
    ensures list != [] ==> exists t: nat :: t in list
  {
    if list != [] {
      assert list[0] in list;
    }
  }

  /** Nobody waits for the exits of the children of a thread that does not exist. */
  lemma NoStrangers(s: State, tid: nat)
    requires Inv(s) && tid !in s.threads
    ensures WaitersOn(s, ChildExit(tid)) == []
  {
    assert forall t: nat :: t in WaitersOn(s, ChildExit(tid)) ==> Has(s, t, Waiting(ChildExit(tid)));
    SomeMember(WaitersOn(s, ChildExit(tid)));
  }

  lemma SpawnLocks(s: State, a: State, tid: nat)
    requires Inv(s) && tid !in s.threads && a == Spawn(s).0 && tid == FreeSlot(s.threads, 1) < NTHR
    requires forall c :: WaitersOn(a, c) == WaitersOn(s, c)
    ensures LocksOk(a)
  {
    assert forall t: nat, l: nat :: Holds(a, t, l) <==> Holds(s, t, l);
    assert forall l :: LockOf(a, l) == LockOf(s, l);
  }

  lemma SpawnFamily(s: State, a: State, tid: nat)
    requires Inv(s) && tid !in s.threads && a == Spawn(s).0 && tid == FreeSlot(s.threads, 1) < NTHR && 1 <= tid
    ensures FamilyOk(a)
  {
    hide LocksOk;
    assert forall t: nat, u: nat :: IsChild(a, t, u) <==> IsChild(s, t, u) || (t == tid && u == s.running);
    forall t: nat, what: nat | JoinPending(s, t, what) && t != s.running ensures JoinPending(a, t, what) {
    }
    assert forall t: nat, u: nat :: Has(a, t, Waiting(ChildExit(u))) ==> Has(s, t, Waiting(ChildExit(u))) && t != s.running;
  }

  /** An exited child of the running thread is reclaimed. */
  lemma ReclaimInv(s: State, tid: nat)
    requires Inv(s) && IsChild(s, tid, s.running) && s.threads[tid].status == Exited && tid != IDLE_TID
    ensures Inv(Reclaim(s, tid)) && tid !in Reclaim(s, tid).threads && Reclaim(s, tid).ready == s.ready
  {
    ReclaimPlaced(s, tid);
    ReclaimLocks(s, tid);
    ReclaimFamily(s, tid);
  }

  lemma ReclaimPlaced(s: State, tid: nat)
    requires Settled(s) && Has(s, tid, Exited) && tid != IDLE_TID
    ensures Settled(Reclaim(s, tid))
  {
    var a := Reclaim(s, tid);
    assert forall t: nat, st :: Has(a, t, st) <==> t != tid && Has(s, t, st);
    assert forall c :: WaitersOn(a, c) == WaitersOn(s, c);
    assert a.ready == s.ready && a.running == s.running;
  }

  lemma ReclaimLocks(s: State, tid: nat)
    requires LocksOk(s) && Has(s, tid, Exited)
    ensures LocksOk(Reclaim(s, tid))
  {
    var a := Reclaim(s, tid);
    assert forall c :: WaitersOn(a, c) == WaitersOn(s, c);
    assert forall t: nat, l: nat :: Holds(a, t, l) <==> Holds(s, t, l);
    assert forall l :: LockOf(a, l) == LockOf(s, l);
  }

  lemma ReclaimFamily(s: State, tid: nat)
    requires Settled(s) && FamilyOk(s) && IsChild(s, tid, s.running) && Has(s, tid, Exited)
    ensures FamilyOk(Reclaim(s, tid))
  {
    var a, me := Reclaim(s, tid), s.running;
    assert me != tid;
    forall t: nat, u: nat | IsChild(a, t, u) ensures u in a.threads && (u != me ==> IsChild(s, t, u)) {
      assert t != 0 && (IsChild(s, t, u) || (IsChild(s, t, tid) && u == me));
    }
    forall t: nat, what: nat | JoinPending(s, t, what) && t != me ensures JoinPending(a, t, what) {
    }
    assert forall t: nat, u: nat :: Has(a, t, Waiting(ChildExit(u))) ==> Has(s, t, Waiting(ChildExit(u))) && t != me;
  }

  lemma DetachInv(s: State, tid: nat)
    requires Inv(s)
    ensures Inv(Detach(s, tid)) && Detach(s, tid).ready == s.ready
  {
    var a := Detach(s, tid);
    assert forall t: nat, st :: Has(a, t, st) <==> Has(s, t, st);
    assert forall c :: WaitersOn(a, c) == WaitersOn(s, c);
    assert forall t: nat, l: nat :: Holds(a, t, l) <==> Holds(s, t, l);
    assert forall l :: LockOf(a, l) == LockOf(s, l);
    DetachFamily(s, tid);
  }

  lemma DetachFamily(s: State, tid: nat)
    requires FamilyOk(s)
    ensures FamilyOk(Detach(s, tid))
  {
    var a := Detach(s, tid);
    assert forall t: nat, u: nat :: IsChild(a, t, u) <==> t != tid && IsChild(s, t, u);
    forall t: nat, what: nat | JoinPending(s, t, what) ensures JoinPending(a, t, what) {
    }
    assert forall t: nat, u: nat :: Has(a, t, Waiting(ChildExit(u))) <==> Has(s, t, Waiting(ChildExit(u)));
  }

  // ---------------------------------------------------------------- joining

  lemma {:induction false} ExitedChildIs(s: State, tid: nat)
    ensures var c := ExitedChild(s, tid);
      if c.Some? then
        && tid <= c.value < IDLE_TID && IsChild(s, c.value, s.running) && Has(s, c.value, Exited)
        && forall d: nat :: tid <= d < c.value && IsChild(s, d, s.running) ==> s.threads[d].status != Exited
      else forall c: nat :: tid <= c < IDLE_TID && IsChild(s, c, s.running) ==> s.threads[c].status != Exited
    decreases NTHR - tid
  {
    if tid < IDLE_TID {
      ExitedChildIs(s, tid + 1);
    }
  }

  lemma {:induction false} HasChildIs(s: State, tid: nat)
    ensures HasChild(s, tid) <==> exists c: nat :: tid <= c < IDLE_TID && IsChild(s, c, s.running)
    decreases NTHR - tid
  {
    if tid < IDLE_TID {
      HasChildIs(s, tid + 1);
    }
  }

  /** A round of thread_join reclaims a child that has exited, the one asked for; or reports that there is none
      to wait for; or waits, and then no child asked for has exited. */
  lemma JoinInv(s: State, tid: int, first: bool)
    requires Inv(s) && s.running != IDLE_TID
    ensures Inv(Join(s, tid, first).0)
    ensures var (a, r) := Join(s, tid, first);
      match r
      case Some(Ok(c)) =>
        && (tid != 0 ==> c == tid) && IsChild(s, c, s.running) && Has(s, c, Exited) && c !in a.threads && a.ready == s.ready
        && (tid == 0 ==> forall d: nat :: 1 <= d < c && IsChild(s, d, s.running) ==> s.threads[d].status != Exited)
      case Some(Err(e)) =>
        && e == EINVAL && a == s
        && (if tid == 0 then first && (forall c: nat :: 1 <= c < IDLE_TID ==> !IsChild(s, c, s.running))
            else tid < 0 || tid == IDLE_TID || tid >= NTHR || !IsChild(s, tid, s.running))
      case None => tid >= 0 && JoinPending(s, s.running, tid)
  {
    if tid == 0 {
      ExitedChildIs(s, 1);
      HasChildIs(s, 1);
      var child := ExitedChild(s, 1);
      if child.Some? {
        ReclaimInv(s, child.value);
      } else if !(first && !HasChild(s, 1)) {
        WaitJoinInv(s, 0);
      }
    } else if tid > 0 && tid < NTHR && tid != IDLE_TID && IsChild(s, tid, s.running) {
      if s.threads[tid].status == Exited {
        ReclaimInv(s, tid);
      } else {
        WaitJoinInv(s, tid);
      }
    }
  }

  lemma WaitJoinInv(s: State, what: nat)
    requires Inv(s) && s.running != IDLE_TID && JoinPending(s, s.running, what)
    ensures Inv(WaitJoin(s, what))
  {
    var a := s.(threads := s.threads[s.running := s.threads[s.running].(joins := Some(what))]);
    assert forall t: nat, st :: Has(a, t, st) <==> Has(s, t, st);
    assert forall c :: WaitersOn(a, c) == WaitersOn(s, c);
    assert forall t: nat, l: nat :: Holds(a, t, l) <==> Holds(s, t, l);
    assert forall l :: LockOf(a, l) == LockOf(s, l);
    WaitJoinFamily(s, a, what);
    WaitInv(a, ChildExit(s.running));
  }

  lemma WaitJoinFamily(s: State, a: State, what: nat)
    requires Inv(s) && JoinPending(s, s.running, what)
    requires a == s.(threads := s.threads[s.running := s.threads[s.running].(joins := Some(what))])
    ensures FamilyOk(a) && JoinPending(a, s.running, what)
  {
    assert forall t: nat, u: nat :: IsChild(a, t, u) <==> IsChild(s, t, u);
    forall t: nat, w: nat | JoinPending(s, t, w) ensures JoinPending(a, t, w) {
    }
    assert forall t: nat, u: nat :: Has(a, t, Waiting(ChildExit(u))) ==> Has(s, t, Waiting(ChildExit(u))) && t != s.running;
  }
}
