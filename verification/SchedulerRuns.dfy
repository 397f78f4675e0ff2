/** Runs of the scheduler: every reachable state is consistent, every ready thread gets its turn, and a lock's
    count is the number of acquires not yet undone. */
module SchedulerRuns {
  import opened Results
  import opened Scheduling

  /** What the running thread, or an interrupt (`Signal`), can do next. */
  datatype Op =
    | Yield
    | WaitFor(event: nat)
    | Signal(event: nat)
    | AcquireLock(lock: nat)
    | ReleaseLock(lock: nat)
    | ExitThread
    | SpawnThread
    | JoinThread(tid: int, first: bool)
    | DetachThread(child: nat)

  /** The idle thread only yields; a lock is released by its owner; the main thread's exit halts the system. */
  ghost predicate Allowed(s: State, op: Op) {
    match op
    case WaitFor(_) => s.running != IDLE_TID
    case AcquireLock(_) => s.running != IDLE_TID
    case ReleaseLock(l) => LockOf(s, l).owner == Some(s.running)
    case ExitThread => s.running != IDLE_TID && s.running != MAIN_TID
    case JoinThread(_, _) => s.running != IDLE_TID
    case _ => true
  }

  function Step(s: State, op: Op): State {
    match op
    case Yield => Suspend(s)
    case WaitFor(e) => Wait(s, Event(e))
    case Signal(e) => Broadcast(s, Event(e))
    case AcquireLock(l) => Acquire(s, l).0
    case ReleaseLock(l) => Release(s, l)
    case ExitThread => Exit(s)
    case SpawnThread => Spawn(s).0
    case JoinThread(tid, first) => Join(s, tid, first).0
    case DetachThread(tid) => Detach(s, tid)
  }

  /** The steps that suspend the running thread. */
  predicate Suspends(s: State, op: Op) {
    match op
    case Yield => true
    case WaitFor(_) => true
    case ExitThread => true
    case AcquireLock(l) => !Acquire(s, l).1
    case JoinThread(tid, first) => Join(s, tid, first).1.None?
    case _ => false
  }

  /** Every step keeps the placement, lock and family invariants. */
  lemma StepInv(s: State, op: Op)
    requires Inv(s) && Allowed(s, op)
    ensures Inv(Step(s, op))
  {
    hide Inv;
    match op
    case Yield => YieldInv(s);
    case WaitFor(e) => WaitInv(s, Event(e));
    case Signal(e) => SignalInv(s, e);
    case AcquireLock(l) => AcquireInv(s, l);
    case ReleaseLock(l) => ReleaseInv(s, l);
    case ExitThread => ExitInv(s);
    case SpawnThread => SpawnInv(s);
    case JoinThread(tid, first) => JoinInv(s, tid, first);
    case DetachThread(tid) => DetachInv(s, tid);
  }

  lemma SignalInv(s: State, e: nat)
    requires Inv(s)
    ensures Inv(Broadcast(s, Event(e)))
  {
    BroadcastKeeps(s, Event(e));
  }

  /** The boot state: the main thread runs and the idle thread is ready. */
  const BOOT := State(map[MAIN_TID := Thread(Self, None, [], None), IDLE_TID := Thread(Ready, Some(MAIN_TID), [], None)],
                      [IDLE_TID], map[], map[], MAIN_TID)

  lemma BootInv()
    ensures Inv(BOOT)
  {
    assert forall t: nat, u: nat :: IsChild(BOOT, t, u) <==> t == IDLE_TID && u == MAIN_TID;
  }

  ghost predicate Run(states: seq<State>, ops: seq<Op>) {
    && |states| == |ops| + 1
    && forall i :: 0 <= i < |ops| ==> Allowed(states[i], ops[i]) && states[i + 1] == Step(states[i], ops[i])
  }

  /** Every state of every run from the boot state is consistent. */
  lemma {:induction false} RunInv(states: seq<State>, ops: seq<Op>, n: nat)
    requires Run(states, ops) && states[0] == BOOT && n <= |ops|
    ensures Inv(states[n])
  {
    hide Inv, Step, Allowed;
    if n == 0 {
      BootInv();
    } else {
      RunInv(states, ops, n - 1);
      StepInv(states[n - 1], ops[n - 1]);
    }
  }

  // ---------------------------------------------------------------- bounded waiting

  /** A step that does not suspend only adds to the end of the ready list; a suspension runs the first ready
      thread, and the others move up. */
  lemma StepOrder(s: State, op: Op)
    requires Inv(s) && Allowed(s, op) && s.ready != []
    ensures if Suspends(s, op) then Step(s, op).running == s.ready[0] && s.ready[1..] <= Step(s, op).ready
            else Step(s, op).running == s.running && s.ready <= Step(s, op).ready
  {
    match op
    case Yield => SuspendSettles(s);
    case WaitFor(e) => WaitOrder(s, Event(e));
    case AcquireLock(l) =>
      if LockOf(s, l).owner.Some? && LockOf(s, l).owner != Some(s.running) {
        WaitOrder(s, LockFreed(l));
      }
    case ReleaseLock(l) => ReleaseInv(s, l);
    case ExitThread => ExitOrder(s);
    case SpawnThread => SpawnInv(s);
    case JoinThread(tid, first) => JoinOrder(s, tid, first);
    case _ =>
  }

  lemma WaitOrder(s: State, c: Cond)
    requires Settled(s) && s.ready != [] && s.running != IDLE_TID
    ensures Wait(s, c).running == s.ready[0] && Wait(s, c).ready == s.ready[1..]
  {
    EnqueuePlaced(s, c);
    SuspendSettles(Enqueue(s, c));
  }

  lemma ExitOrder(s: State)
    requires Inv(s) && s.ready != [] && s.running != IDLE_TID
    ensures Exit(s).running == s.ready[0] && s.ready[1..] <= Exit(s).ready
  {
    var r := ReleaseAll(s, LocksOf(s, s.running));
    ReleaseAllInv(s, LocksOf(s, s.running));
    MarkExited(r);
    SuspendSettles(Leave(WithStatus(r, s.running, Exited)));
  }

  lemma JoinOrder(s: State, tid: int, first: bool)
    requires Inv(s) && s.ready != [] && s.running != IDLE_TID
    ensures if Join(s, tid, first).1.None? then
        Join(s, tid, first).0.running == s.ready[0] && s.ready[1..] <= Join(s, tid, first).0.ready
      else Join(s, tid, first).0.running == s.running && s.ready <= Join(s, tid, first).0.ready
  {
    hide LocksOk, FamilyOk, JoinPending, Enqueue, Suspend;
    JoinInv(s, tid, first);
    if Join(s, tid, first).1.None? {
      var a := s.(threads := s.threads[s.running := s.threads[s.running].(joins := Some(tid))]);
      assert forall t: nat, st :: Has(a, t, st) <==> Has(s, t, st);
      assert forall c :: WaitersOn(a, c) == WaitersOn(s, c);
      WaitOrder(a, ChildExit(s.running));
    }
  }

  /** Number of suspensions among the first `n` steps of a run. */
  function Suspensions(states: seq<State>, ops: seq<Op>, n: nat): nat
    requires n <= |ops| < |states|
  {
    if n == 0 then 0 else Suspensions(states, ops, n - 1) + if Suspends(states[n - 1], ops[n - 1]) then 1 else 0
  }

  /** A thread at position `k` of the ready list moves up by one with each suspension, whatever else happens. */
  lemma {:induction false} MovesUp(states: seq<State>, ops: seq<Op>, t: nat, k: nat, n: nat)
    requires Run(states, ops) && Inv(states[0]) && k < |states[0].ready| && states[0].ready[k] == t && n <= |ops|
    requires Suspensions(states, ops, n) <= k
    ensures Inv(states[n]) && k - Suspensions(states, ops, n) < |states[n].ready|
    ensures states[n].ready[k - Suspensions(states, ops, n)] == t
  {
    hide Inv, Step, Allowed, Suspends;
    if n > 0 {
      MovesUp(states, ops, t, k, n - 1);
      StepInv(states[n - 1], ops[n - 1]);
      StepOrder(states[n - 1], ops[n - 1]);
    }
  }

  /** Bounded waiting: with the suspension number `k + 1`, a thread at position `k` runs. */
  lemma RunsInTurn(states: seq<State>, ops: seq<Op>, t: nat, k: nat, n: nat)
    requires Run(states, ops) && Inv(states[0]) && k < |states[0].ready| && states[0].ready[k] == t && n < |ops|
    requires Suspensions(states, ops, n) == k && Suspends(states[n], ops[n])
    ensures states[n + 1].running == t && Has(states[n + 1], t, Self)
  {
    hide Inv, Step, Allowed, Suspends, Suspensions;
    MovesUp(states, ops, t, k, n);
    StepOrder(states[n], ops[n]);
    StepInv(states[n], ops[n]);
    RunningIsSelf(states[n + 1]);
  }

  lemma RunningIsSelf(s: State)
    requires Inv(s)
    ensures Has(s, s.running, Self)
  {
  }

  // ---------------------------------------------------------------- nesting

  /** How many acquires of lock `l` its owner has not undone after the first `n` steps. */
  function Nesting(states: seq<State>, ops: seq<Op>, l: nat, n: nat): int
    requires n <= |ops| < |states|
  {
    if n == 0 then 0
    else
      var (before, s) := (Nesting(states, ops, l, n - 1), states[n - 1]);
      match ops[n - 1]
      case AcquireLock(k) => if k == l && Acquire(s, k).1 then before + 1 else before
      case ReleaseLock(k) => if k == l then before - 1 else before
      case ExitThread => if Holds(s, s.running, l) then 0 else before
      case _ => before
  }

  lemma FreeLockOthers(s: State, k: nat, l: nat)
    requires k != l
    ensures LockOf(FreeLock(s, k), l) == LockOf(s, l)
  {
  }

  lemma {:induction false} ReleaseAllLocks(s: State, list: seq<nat>, l: nat)
    requires Inv(s) && LocksOf(s, s.running) == list
    ensures LockOf(ReleaseAll(s, list), l) == if l in list then Lock(None, 0) else LockOf(s, l)
    decreases |list|
  {
    if list != [] {
      assert Holds(s, s.running, list[0]);
      FreeLockInv(s, list[0]);
      TailNoDuplicates(list);
      ReleaseAllLocks(FreeLock(s, list[0]), list[1..], l);
      if l != list[0] {
        FreeLockOthers(s, list[0], l);
      }
    }
  }

  lemma SuspendLocks(s: State)
    ensures Suspend(s).locks == s.locks
  {
  }

  lemma StepCounts(s: State, op: Op, l: nat)
    requires Inv(s) && Allowed(s, op)
    ensures LockOf(Step(s, op), l).cnt ==
      match op {
        case AcquireLock(k) => if k == l && Acquire(s, k).1 then LockOf(s, l).cnt + 1 else LockOf(s, l).cnt
        case ReleaseLock(k) => if k == l then LockOf(s, l).cnt - 1 else LockOf(s, l).cnt
        case ExitThread => if Holds(s, s.running, l) then 0 else LockOf(s, l).cnt
        case _ => LockOf(s, l).cnt
      }
  {
    hide Suspend, Enqueue, Woken;
    match op
    case Yield => SuspendLocks(s);
    case WaitFor(e) => EnqueueLocks(s, Event(e));
    case AcquireLock(k) => EnqueueLocks(s, LockFreed(k));
    case ReleaseLock(k) =>
      ReleaseInv(s, k);
      if k != l {
        FreeLockOthers(s, k, l);
      }
    case ExitThread => ExitLocks(s, l);
    case JoinThread(tid, first) => JoinLocks(s, tid, first);
    case _ =>
  }

  lemma EnqueueLocks(s: State, c: Cond)
    ensures Wait(s, c).locks == s.locks
  {
    SuspendLocks(Enqueue(s, c));
  }

  lemma JoinLocks(s: State, tid: int, first: bool)
    ensures Join(s, tid, first).0.locks == s.locks
  {
    if s.running in s.threads && tid >= 0 {
      EnqueueLocks(s.(threads := s.threads[s.running := s.threads[s.running].(joins := Some(tid))]), ChildExit(s.running));
    }
  }

  lemma ExitLocks(s: State, l: nat)
    requires Inv(s)
    ensures LockOf(Exit(s), l) == if Holds(s, s.running, l) then Lock(None, 0) else LockOf(s, l)
  {
    var r := ReleaseAll(s, LocksOf(s, s.running));
    ReleaseAllLocks(s, LocksOf(s, s.running), l);
    SuspendLocks(Leave(WithStatus(r, s.running, Exited)));
  }

  /** Over every run from the boot state, a lock's count is the number of nested acquires, and it is positive
      exactly while the lock is owned. */
  lemma {:induction false} CountIsNesting(states: seq<State>, ops: seq<Op>, l: nat, n: nat)
    requires Run(states, ops) && states[0] == BOOT && n <= |ops|
    ensures LockOf(states[n], l).cnt == Nesting(states, ops, l, n)
    ensures LockOf(states[n], l).owner.Some? <==> Nesting(states, ops, l, n) > 0
  {
    hide Step, Allowed;
    RunInv(states, ops, n);
    if n > 0 {
      CountIsNesting(states, ops, l, n - 1);
      RunInv(states, ops, n - 1);
      StepCounts(states[n - 1], ops[n - 1], l);
    }
  }
}
