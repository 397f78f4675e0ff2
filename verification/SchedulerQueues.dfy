/** The order in which waiters are served, and the family tree, as the steps of a run change them. */
module SchedulerQueues {
  import opened Results
  import opened Scheduling
  import opened SchedulerRuns

  // ---------------------------------------------------------------- wait lists

  /** The condition that the running thread waits for in this step, if it does. */
  function WaitsFor(s: State, op: Op): Option<Cond> {
    match op
    case WaitFor(e) => Some(Event(e))
    case AcquireLock(l) =>
      if LockOf(s, l).owner.Some? && LockOf(s, l).owner != Some(s.running) then Some(LockFreed(l)) else None
    case JoinThread(tid, first) => if Join(s, tid, first).1.None? then Some(ChildExit(s.running)) else None
    case _ => None
  }

  /** The step broadcasts the condition: an event is signalled, a lock is freed, or the parent of a thread that exits
      is told. */
  predicate Wakes(s: State, op: Op, c: Cond) {
    match op
    case Signal(e) => c == Event(e)
    case ReleaseLock(l) => c == LockFreed(l) && LockOf(s, l).cnt <= 1
    case ExitThread =>
      || (c.LockFreed? && Holds(s, s.running, c.lock))
      || (c.ChildExit? && IsChild(s, s.running, c.tid))
    case _ => false
  }

  lemma WaitQueue(s: State, c: Cond, d: Cond)
    ensures WaitersOn(Wait(s, c), d) == WaitersOn(s, d) + if d == c then [s.running] else []
  {
  }

  lemma FreeQueue(s: State, l: nat, d: Cond)
    requires s.running in s.threads
    ensures WaitersOn(FreeLock(s, l), d) == if d == LockFreed(l) then [] else WaitersOn(s, d)
    ensures FreeLock(s, l).ready == s.ready + WaitersOn(s, LockFreed(l))
  {
  }

  lemma {:induction false} FreeQueues(s: State, list: seq<nat>, d: Cond)
    requires Inv(s) && LocksOf(s, s.running) == list
    ensures WaitersOn(ReleaseAll(s, list), d) == if d.LockFreed? && d.lock in list then [] else WaitersOn(s, d)
    decreases |list|
  {
    if list != [] {
      assert Holds(s, s.running, list[0]);
      FreeLockInv(s, list[0]);
      FreeQueue(s, list[0], d);
      FreeQueues(FreeLock(s, list[0]), list[1..], d);
    }
  }

  /** A wait puts the running thread at the end of the condition's list, a broadcast empties it, and no other step
      changes it. */
  lemma StepQueue(s: State, op: Op, c: Cond)
    requires Inv(s) && Allowed(s, op)
    ensures WaitersOn(Step(s, op), c) ==
      if WaitsFor(s, op) == Some(c) then WaitersOn(s, c) + [s.running]
      else if Wakes(s, op, c) then []
      else WaitersOn(s, c)
  {
    hide Inv, Wait, FreeLock, Suspend;
    match op
    case Yield => SuspendQueue(s, c);
    case WaitFor(e) => WaitQueue(s, Event(e), c);
    case Signal(_) =>
    case AcquireLock(l) =>
      if LockOf(s, l).owner.Some? && LockOf(s, l).owner != Some(s.running) {
        WaitQueue(s, LockFreed(l), c);
      }
    case ReleaseLock(l) =>
      RunningThere(s);
      FreeQueue(s, l, c);
    case ExitThread => ExitQueue(s, c);
    case SpawnThread => SpawnQueue(s, c);
    case JoinThread(tid, first) => JoinQueue(s, tid, first, c);
    case DetachThread(_) =>
  }

  lemma RunningThere(s: State)
    requires Inv(s)
    ensures s.running in s.threads
  {
  }

  lemma SuspendQueue(s: State, c: Cond)
    ensures WaitersOn(Suspend(s), c) == WaitersOn(s, c)
  {
  }

  lemma ExitQueue(s: State, c: Cond)
    requires Inv(s)
    ensures WaitersOn(Exit(s), c) == if Wakes(s, ExitThread, c) then [] else WaitersOn(s, c)
  {
    hide Suspend, ReleaseAll;
    var list := LocksOf(s, s.running);
    var r := ReleaseAll(s, list);
    FreeQueues(s, list, c);
    ReleaseAllInv(s, list);
    ReleaseAllParents(s, list);
    SuspendQueue(Leave(WithStatus(r, s.running, Exited)), c);
  }

  lemma {:induction false} ReleaseAllParents(s: State, list: seq<nat>)
    requires Inv(s) && LocksOf(s, s.running) == list
    ensures forall t, u :: IsChild(ReleaseAll(s, list), t, u) <==> IsChild(s, t, u)
    decreases |list|
  {
    hide Inv, FreeLock, LocksOf, Without, LockOf;
    if list != [] {
      FirstHeld(s, list);
      FreeLockInv(s, list[0]);
      WithoutFirst(list);
      FreeParents(s, list[0]);
      hide IsChild;
      ReleaseAllParents(FreeLock(s, list[0]), list[1..]);
    }
  }

  lemma FreeParents(s: State, l: nat)
    ensures forall t, u :: IsChild(FreeLock(s, l), t, u) <==> IsChild(s, t, u)
  {
  }

  lemma SpawnQueue(s: State, c: Cond)
    requires Inv(s)
    ensures WaitersOn(Spawn(s).0, c) == WaitersOn(s, c)
  {
    SpawnInv(s);
    var tid := FreeSlot(s.threads, 1);
    if tid < NTHR {
      NoStrangers(s, tid);
    }
  }

  lemma JoinQueue(s: State, tid: int, first: bool, c: Cond)
    requires Inv(s) && s.running != IDLE_TID
    ensures WaitersOn(Join(s, tid, first).0, c) ==
            WaitersOn(s, c) + if Join(s, tid, first).1.None? && c == ChildExit(s.running) then [s.running] else []
  {
    hide Wait, Inv;
    JoinInv(s, tid, first);
    RunningThere(s);
    if Join(s, tid, first).1.None? {
      WaitQueue(s.(threads := s.threads[s.running := s.threads[s.running].(joins := Some(tid))]), ChildExit(s.running), c);
    }
  }

  // ---------------------------------------------------------------- first come, first served

  /** `part` stands in `list` from index `k` on. */
  ghost predicate StandsAt(part: seq<nat>, list: seq<nat>, k: nat) {
    k + |part| <= |list| && list[k..k + |part|] == part
  }

  lemma AppendStands(part: seq<nat>, list: seq<nat>, longer: seq<nat>, k: nat)
    requires StandsAt(part, list, k) && list <= longer
    ensures StandsAt(part, longer, k)
  {
  }

  lemma {:induction false} FreedStand(s: State, list: seq<nat>, l: nat) returns (k: nat)
    requires Inv(s) && LocksOf(s, s.running) == list && l in list
    ensures |s.ready| <= k && StandsAt(WaitersOn(s, LockFreed(l)), ReleaseAll(s, list).ready, k)
    decreases |list|
  {
    hide Inv, FreeLock, LocksOf, Without, LockOf;
    FirstHeld(s, list);
    FreeLockInv(s, list[0]);
    WithoutFirst(list);
    FreeQueue(s, list[0], LockFreed(l));
    var f := FreeLock(s, list[0]);
    if l == list[0] {
      k := |s.ready|;
      ReleaseAllInv(f, list[1..]);
      assert StandsAt(WaitersOn(s, LockFreed(l)), f.ready, k);
      AppendStands(WaitersOn(s, LockFreed(l)), f.ready, ReleaseAll(f, list[1..]).ready, k);
    } else {
      k := FreedStand(f, list[1..], l);
    }
  }

  /** A broadcast puts the waiters on the ready list as they stood on the condition's list, behind all threads that
      were ready. */
  lemma StepWoken(s: State, op: Op, c: Cond) returns (k: nat)
    requires Inv(s) && Allowed(s, op) && Wakes(s, op, c)
    ensures |s.ready| <= k + (if op.ExitThread? then 1 else 0) && StandsAt(WaitersOn(s, c), Step(s, op).ready, k)
  {
    hide Inv;
    match op
    case Signal(_) => k := |s.ready|;
    case ReleaseLock(l) =>
      RunningThere(s);
      FreeQueue(s, l, c);
      k := |s.ready|;
    case ExitThread => k := ExitWoken(s, c);
  }

  lemma ExitWoken(s: State, c: Cond) returns (k: nat)
    requires Inv(s) && s.running != IDLE_TID && Wakes(s, ExitThread, c)
    ensures |s.ready| <= k + 1 && StandsAt(WaitersOn(s, c), Exit(s).ready, k)
  {
    hide Inv, ReleaseAll, Leave, Suspend, Placed, Settled, LocksOk, FamilyOk;
    var list := LocksOf(s, s.running);
    var r := ReleaseAll(s, list);
    ReleaseAllInv(s, list);
    MarkExited(r);
    IdleReady(s);
    var l := Leave(WithStatus(r, s.running, Exited));
    if c.LockFreed? {
      k := FreedStand(s, list, c.lock);
      AppendStands(WaitersOn(s, c), r.ready, l.ready, k);
    } else {
      k := |r.ready|;
      ReleaseAllParents(s, list);
      FreeQueues(s, list, c);
      LeaveWakes(r, c.tid);
      assert StandsAt(WaitersOn(s, c), l.ready, k);
    }
    SuspendSettles(l);
    assert l.ready + [] == l.ready && Exit(s).ready == l.ready[1..];
    TailStands(WaitersOn(s, c), l.ready, k);
    k := k - 1;
  }

  lemma LeaveWakes(r: State, parent: nat)
    requires IsChild(r, r.running, parent)
    ensures StandsAt(WaitersOn(r, ChildExit(parent)), Leave(WithStatus(r, r.running, Exited)).ready, |r.ready|)
  {
  }

  lemma TailStands(part: seq<nat>, list: seq<nat>, k: nat)
    requires StandsAt(part, list, k) && k > 0
    ensures StandsAt(part, list[1..], k - 1)
  {
    assert list[1..][k - 1..k - 1 + |part|] == list[k..k + |part|];
  }

  lemma IdleReady(s: State)
    requires Inv(s) && s.running != IDLE_TID
    ensures s.ready != []
  {
    assert Has(s, IDLE_TID, Ready);
  }

  /** While a condition is not broadcast, its list only grows at the end. */
  lemma {:induction false} QueueGrows(states: seq<State>, ops: seq<Op>, c: Cond, m: nat, n: nat)
    requires Run(states, ops) && Inv(states[0]) && m <= n <= |ops|
    requires forall k :: m <= k < n ==> !Wakes(states[k], ops[k], c)
    ensures WaitersOn(states[m], c) <= WaitersOn(states[n], c)
    decreases n
  {
    hide Inv, Step, Allowed, Wakes, WaitsFor;
    if m < n {
      QueueGrows(states, ops, c, m, n - 1);
      RunKeeps(states, ops, n - 1);
      StepQueue(states[n - 1], ops[n - 1], c);
    }
  }

  lemma {:induction false} RunKeeps(states: seq<State>, ops: seq<Op>, n: nat)
    requires Run(states, ops) && Inv(states[0]) && n <= |ops|
    ensures Inv(states[n])
  {
    hide Inv, Step, Allowed;
    if n > 0 {
      RunKeeps(states, ops, n - 1);
      StepInv(states[n - 1], ops[n - 1]);
    }
  }

  /** First come, first served: of two threads that came to wait for the same condition and have not been woken
      since, the next broadcast puts the first before the second on the ready list. */
  lemma FirstComeFirstServed(states: seq<State>, ops: seq<Op>, c: Cond, i: nat, j: nat, n: nat) returns (a: nat, b: nat)
    requires Run(states, ops) && Inv(states[0]) && i < j < n < |ops|
    requires WaitsFor(states[i], ops[i]) == WaitsFor(states[j], ops[j]) == Some(c)
    requires (forall k :: i < k < n ==> !Wakes(states[k], ops[k], c)) && Wakes(states[n], ops[n], c)
    ensures a < b < |states[n + 1].ready|
    ensures states[n + 1].ready[a] == states[i].running && states[n + 1].ready[b] == states[j].running
  {
    hide Inv, Step, Allowed, Wakes, WaitsFor;
    RunKeeps(states, ops, i);
    RunKeeps(states, ops, j);
    RunKeeps(states, ops, n);
    StepQueue(states[i], ops[i], c);
    StepQueue(states[j], ops[j], c);
    QueueGrows(states, ops, c, i + 1, j);
    QueueGrows(states, ops, c, j + 1, n);
    var x, y, list := |WaitersOn(states[i], c)|, |WaitersOn(states[j], c)|, WaitersOn(states[n], c);
    assert list[x] == states[i].running && list[y] == states[j].running;
    var k := StepWoken(states[n], ops[n], c);
    assert forall z :: 0 <= z < |list| ==> list[z] == states[n + 1].ready[k..k + |list|][z];
    a, b := k + x, k + y;
  }

  /** The waiters for the locks of a list, lock by lock. */
  function WaitersForAll(s: State, list: seq<nat>): seq<nat> {
    if list == [] then [] else WaitersOn(s, LockFreed(list[0])) + WaitersForAll(s, list[1..])
  }

  lemma {:induction false} SameWaiters(s: State, f: State, list: seq<nat>)
    requires forall l :: l in list ==> WaitersOn(f, LockFreed(l)) == WaitersOn(s, LockFreed(l))
    ensures WaitersForAll(f, list) == WaitersForAll(s, list)
  {
    if list != [] {
      SameWaiters(s, f, list[1..]);
    }
  }

  lemma {:induction false} ReleaseAllReady(s: State, list: seq<nat>)
    requires Inv(s) && LocksOf(s, s.running) == list
    ensures ReleaseAll(s, list).ready == s.ready + WaitersForAll(s, list)
    decreases |list|
  {
    hide Inv, FreeLock, LocksOf, Without, LockOf;
    if list != [] {
      var f := FreeLock(s, list[0]);
      FirstHeld(s, list);
      FreeLockInv(s, list[0]);
      WithoutFirst(list);
      FreeQueue(s, list[0], LockFreed(list[0]));
      OtherQueues(s, list);
      ReleaseAllReady(f, list[1..]);
      calc {
        ReleaseAll(s, list).ready;
        f.ready + WaitersForAll(f, list[1..]);
        s.ready + WaitersOn(s, LockFreed(list[0])) + WaitersForAll(s, list[1..]);
        s.ready + WaitersForAll(s, list);
      }
    }
  }

  lemma OtherQueues(s: State, list: seq<nat>)
    requires list != [] && NoDuplicates(list) && s.running in s.threads
    ensures WaitersForAll(FreeLock(s, list[0]), list[1..]) == WaitersForAll(s, list[1..])
  {
    hide FreeLock;
    TailNoDuplicates(list);
    forall l | l in list[1..]
      ensures WaitersOn(FreeLock(s, list[0]), LockFreed(l)) == WaitersOn(s, LockFreed(l))
    {
      FreeQueue(s, list[0], LockFreed(l));
    }
    SameWaiters(s, FreeLock(s, list[0]), list[1..]);
  }

  lemma WithoutFirst(list: seq<nat>)
    requires list != []
    ensures Without(list, list[0]) == list[1..]
  {
  }

  lemma FirstHeld(s: State, list: seq<nat>)
    requires Inv(s) && LocksOf(s, s.running) == list && list != []
    ensures LockOf(s, list[0]).owner == Some(s.running) && NoDuplicates(list) && s.running in s.threads
  {
    assert Holds(s, s.running, list[0]);
  }

  lemma SameParent(s: State, r: State, t: nat)
    requires t in s.threads && t in r.threads && forall u :: IsChild(r, t, u) <==> IsChild(s, t, u)
    ensures r.threads[t].parent == s.threads[t].parent
  {
    if r.threads[t].parent.Some? {
      assert IsChild(r, t, r.threads[t].parent.value);
    }
    if s.threads[t].parent.Some? {
      assert IsChild(s, t, s.threads[t].parent.value);
    }
  }

  /** An exit readies the waiters for the thread's locks, the lock taken last first, and then its parent. */
  lemma ExitReady(s: State)
    requires Inv(s) && s.running != IDLE_TID
    ensures s.ready != [] && s.running in s.threads
    ensures var parent := s.threads[s.running].parent;
      Exit(s).ready == s.ready[1..] + WaitersForAll(s, LocksOf(s, s.running)) + if parent.Some? then WaitersOn(s, ChildExit(parent.value)) else []
  {
    hide Inv, ReleaseAll, Suspend, Placed, Settled, LocksOk, FamilyOk;
    RunningThere(s);
    IdleReady(s);
    var list := LocksOf(s, s.running);
    var r := ReleaseAll(s, list);
    ReleaseAllReady(s, list);
    ReleaseAllInv(s, list);
    ReleaseAllParents(s, list);
    MarkExited(r);
    SuspendSettles(Leave(WithStatus(r, s.running, Exited)));
    var parent := s.threads[s.running].parent;
    SameParent(s, r, s.running);
    if parent.Some? {
      FreeQueues(s, list, ChildExit(parent.value));
    }
  }

  /** The locks a thread has, the one taken last first: a lock taken anew is put in front, one freed is taken out. */
  lemma StepHeld(s: State, op: Op, t: nat)
    requires Inv(s) && Allowed(s, op)
    ensures LocksOf(Step(s, op), t) ==
      if t != s.running then LocksOf(s, t)
      else match op {
        case AcquireLock(l) => if LockOf(s, l).owner.None? then [l] + LocksOf(s, t) else LocksOf(s, t)
        case ReleaseLock(l) => if LockOf(s, l).cnt > 1 then LocksOf(s, t) else Without(LocksOf(s, t), l)
        case ExitThread => []
        case _ => LocksOf(s, t)
      }
  {
    hide Suspend, ReleaseAll, Inv, Wait, Enqueue, Join, Exit;
    RunningThere(s);
    match op
    case Yield => SuspendHeld(s, t);
    case WaitFor(e) => WaitHeld(s, Event(e), t);
    case AcquireLock(l) => WaitHeld(s, LockFreed(l), t);
    case ExitThread => ExitHeld(s, t);
    case SpawnThread => SpawnInv(s);
    case JoinThread(tid, first) => JoinHeld(s, tid, first, t);
    case _ =>
  }

  lemma SuspendHeld(s: State, t: nat)
    ensures LocksOf(Suspend(s), t) == LocksOf(s, t)
  {
  }

  lemma WaitHeld(s: State, c: Cond, t: nat)
    ensures LocksOf(Wait(s, c), t) == LocksOf(s, t)
  {
    SuspendHeld(Enqueue(s, c), t);
  }

  lemma {:induction false} ReleaseAllHeld(s: State, list: seq<nat>, t: nat)
    requires Inv(s) && LocksOf(s, s.running) == list
    ensures LocksOf(ReleaseAll(s, list), t) == if t == s.running then [] else LocksOf(s, t)
    decreases |list|
  {
    if list != [] {
      assert Holds(s, s.running, list[0]);
      FreeLockInv(s, list[0]);
      ReleaseAllHeld(FreeLock(s, list[0]), list[1..], t);
    }
  }

  lemma ExitHeld(s: State, t: nat)
    requires Inv(s)
    ensures LocksOf(Exit(s), t) == if t == s.running then [] else LocksOf(s, t)
  {
    hide Suspend, ReleaseAll, Inv;
    var list := LocksOf(s, s.running);
    ReleaseAllHeld(s, list, t);
    ReleaseAllInv(s, list);
    SuspendHeld(Leave(WithStatus(ReleaseAll(s, list), s.running, Exited)), t);
  }

  lemma JoinHeld(s: State, tid: int, first: bool, t: nat)
    requires Inv(s) && s.running != IDLE_TID
    ensures LocksOf(Join(s, tid, first).0, t) == LocksOf(s, t)
  {
    hide Wait, Inv;
    JoinInv(s, tid, first);
    RunningThere(s);
    var r := Join(s, tid, first).1;
    if r.None? {
      var a := s.(threads := s.threads[s.running := s.threads[s.running].(joins := Some(tid))]);
      WaitHeld(a, ChildExit(s.running), t);
    } else if r.value.Ok? {
      ExitedHoldsNone(s, r.value.value);
    }
  }

  lemma ExitedHoldsNone(s: State, c: nat)
    requires Inv(s) && Has(s, c, Exited)
    ensures LocksOf(s, c) == []
  {
  }

  // ---------------------------------------------------------------- the family tree

  /** Who is whose child: a new thread is the running thread's, a detached one is nobody's, and the children of a
      thread that is reclaimed become its parent's. */
  lemma StepFamily(s: State, op: Op, t: nat, u: nat)
    requires Inv(s) && Allowed(s, op)
    ensures IsChild(Step(s, op), t, u) <==>
      match op {
        case SpawnThread => IsChild(s, t, u) || (Spawn(s).1 == Ok(t) && u == s.running)
        case DetachThread(tid) => IsChild(s, t, u) && t != tid
        case JoinThread(tid, first) =>
          var r := Join(s, tid, first).1;
          if r.Some? && r.value.Ok? then
            var c := r.value.value;
            t != c && if IsChild(s, t, c) then IsChild(s, c, u) else IsChild(s, t, u)
          else IsChild(s, t, u)
        case _ => IsChild(s, t, u)
      }
  {
    hide Inv, Suspend, Wait, Exit, Join;
    FreeParents(s, if op.ReleaseLock? then op.lock else 0);
    hide FreeLock;
    match op
    case Yield => SuspendFamily(s, t, u);
    case WaitFor(e) => WaitFamily(s, Event(e), t, u);
    case AcquireLock(l) => WaitFamily(s, LockFreed(l), t, u);
    case ExitThread => ExitFamily(s, t, u);
    case SpawnThread => SpawnInv(s);
    case JoinThread(tid, first) => JoinFamily(s, tid, first, t, u);
    case _ =>
  }

  lemma SuspendFamily(s: State, t: nat, u: nat)
    ensures IsChild(Suspend(s), t, u) <==> IsChild(s, t, u)
  {
  }

  lemma WaitFamily(s: State, c: Cond, t: nat, u: nat)
    ensures IsChild(Wait(s, c), t, u) <==> IsChild(s, t, u)
  {
    SuspendFamily(Enqueue(s, c), t, u);
  }

  lemma ExitFamily(s: State, t: nat, u: nat)
    requires Inv(s)
    ensures IsChild(Exit(s), t, u) <==> IsChild(s, t, u)
  {
    hide Suspend, ReleaseAll, Inv;
    var list := LocksOf(s, s.running);
    ReleaseAllParents(s, list);
    SuspendFamily(Leave(WithStatus(ReleaseAll(s, list), s.running, Exited)), t, u);
  }

  lemma JoinFamily(s: State, tid: int, first: bool, t: nat, u: nat)
    requires Inv(s) && s.running != IDLE_TID
    ensures var (a, r) := Join(s, tid, first);
      IsChild(a, t, u) <==>
        if r.Some? && r.value.Ok? then
          var c := r.value.value;
          t != c && if IsChild(s, t, c) then IsChild(s, c, u) else IsChild(s, t, u)
        else IsChild(s, t, u)
  {
    hide Wait;
    JoinInv(s, tid, first);
    var r := Join(s, tid, first).1;
    if r.None? {
      WaitFamily(s.(threads := s.threads[s.running := s.threads[s.running].(joins := Some(tid))]), ChildExit(s.running), t, u);
    } else if r.value.Ok? {
      var c := r.value.value;
      assert Join(s, tid, first).0 == Reclaim(s, c);
    }
  }
}
