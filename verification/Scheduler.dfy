/** The thread manager as the kernel keeps it, updated step by step. */
module Scheduler {
  import opened Results
  import opened Scheduling

  class Kernel {
    var threads: map<nat, Thread>
    var ready: seq<nat>
    var waits: map<Cond, seq<nat>>
    var locks: map<nat, Lock>
    var running: nat

    constructor ()
      ensures View() == State(map[MAIN_TID := Thread(Self, None, [], None), IDLE_TID := Thread(Ready, Some(MAIN_TID), [], None)],
                              [IDLE_TID], map[], map[], MAIN_TID)
    {
      threads := map[MAIN_TID := Thread(Self, None, [], None), IDLE_TID := Thread(Ready, Some(MAIN_TID), [], None)];
      ready, waits, locks, running := [IDLE_TID], map[], map[], MAIN_TID;
    }

    function View(): State
      reads this
    {
      State(threads, ready, waits, locks, running)
    }

    ghost predicate Consistent()
      reads this
    {
      Inv(View())
    }

    method SetState(t: nat, status: Status)
      requires t in threads
      modifies this`threads
      ensures View() == WithStatus(old(View()), t, status)
    {
      threads := threads[t := threads[t].(status := status)];
    }

    /** running_thread_suspend. There is always a thread to run. */
    method RunningThreadSuspend()
      requires Placed(View()) && !Has(View(), running, Ready)
      modifies this
      ensures View() == Suspend(old(View()))
    {
      ghost var s := View();
      QueuedPlaced(s);
      if threads[running].status.Self? {
        SetState(running, Ready);
        ready := ready + [running];
      }
      assert View() == Queued(s);
      var next := ready[0];
      assert Has(View(), next, Ready);
      ready := ready[1..];
      SetState(next, Self);
      running := next;
    }

    /** condition_wait. */
    method ConditionWait(c: Cond)
      requires Settled(View()) && running != IDLE_TID
      modifies this
      ensures View() == Wait(old(View()), c)
      ensures WaitersOn(View(), c) == old(WaitersOn(View(), c)) + [old(running)]
    {
      ghost var s := View();
      EnqueuePlaced(s, c);
      SetState(running, Waiting(c));
      waits := waits[c := WaitersOn(View(), c) + [running]];
      RunningThreadSuspend();
    }

    /** condition_broadcast: the waiters are made ready one by one, then the lists are joined. */
    method ConditionBroadcast(c: Cond)
      requires WaitingPlaced(View())
      modifies this`threads, this`ready, this`waits
      ensures View() == Broadcast(old(View()), c)
      ensures WaitersOn(View(), c) == [] && ready == old(ready) + old(WaitersOn(View(), c))
    {
      var list := WaitersOn(View(), c);
      ghost var was := threads;
      for i := 0 to |list|
        invariant threads == Woken(was, list[..i]) && ready == old(ready) && waits == old(waits)
      {
        assert list[i] in list;
        SetState(list[i], Ready);
        assert list[..i + 1] == list[..i] + [list[i]];
      }
      assert list[..|list|] == list;
      ready := ready + list;
      waits := waits[c := []];
    }

    /** One round of the loop of lock_acquire: whether the lock is the caller's now. */
    method LockAcquireRound(l: nat) returns (done: bool)
      requires Consistent() && running != IDLE_TID
      modifies this
      ensures (View(), done) == Acquire(old(View()), l) && Consistent()
    {
      AcquireInv(View(), l);
      var lock := LockOf(View(), l);
      if lock.owner != Some(running) {
        if lock.owner != None {
          ConditionWait(LockFreed(l));
          return false;
        }
        locks := locks[l := Lock(Some(running), 1)];
        threads := threads[running := threads[running].(locks := [l] + threads[running].locks)];
      } else {
        locks := locks[l := lock.(cnt := lock.cnt + 1)];
      }
      done := true;
    }

    /** lock_release. */
    method LockRelease(l: nat)
      requires Consistent() && LockOf(View(), l).owner == Some(running)
      modifies this
      ensures View() == Release(old(View()), l) && Consistent()
    {
      ReleaseInv(View(), l);
      var lock := LockOf(View(), l);
      if lock.cnt > 1 {
        locks := locks[l := lock.(cnt := lock.cnt - 1)];
      } else {
        LockReleaseCompletely(l);
      }
    }

    /** The walk along the lock list, which takes the lock out. */
    method RemoveLock(l: nat)
      requires running in threads
      modifies this`threads
      ensures threads == old(threads)[running := old(threads)[running].(locks := Without(old(threads)[running].locks, l))]
    {
      hide Without;
      var list := threads[running].locks;
      var i := 0;
      while i < |list| && list[i] != l
        invariant 0 <= i <= |list| && forall j :: 0 <= j < i ==> list[j] != l
      {
        i := i + 1;
      }
      WithoutAt(list, l, i);
      var rest := if i < |list| then list[..i] + list[i + 1..] else list;
      threads := threads[running := threads[running].(locks := rest)];
    }

    /** lock_release_completely: the waiters are woken, and the lock leaves its owner's list. */
    method LockReleaseCompletely(l: nat)
      requires WaitingPlaced(View()) && running in threads
      modifies this`threads, this`ready, this`waits, this`locks
      ensures View() == FreeLock(old(View()), l)
    {
      hide Without, WaitingPlaced;
      ConditionBroadcast(LockFreed(l));
      RemoveLock(l);
      locks := locks[l := Lock(None, 0)];
    }

    /** running_thread_exit, of a thread other than the main thread. */
    method RunningThreadExit()
      requires Consistent() && running != IDLE_TID && running != MAIN_TID
      modifies this
      ensures View() == Exit(old(View())) && Consistent()
    {
      ghost var s := View();
      ExitInv(s);
      ReleaseAllThreadLocks();
      ghost var r := View();
      ReleaseAllInv(s, LocksOf(s, s.running));
      MarkExited(r);
      SetState(running, Exited);
      var parent := threads[running].parent;
      if parent != None {
        ConditionBroadcast(ChildExit(parent.value));
      }
      RunningThreadSuspend();
    }

    /** release_all_thread_locks, for the running thread. */
    method ReleaseAllThreadLocks()
      requires Consistent()
      modifies this`threads, this`ready, this`waits, this`locks
      ensures View() == ReleaseAll(old(View()), old(LocksOf(View(), running)))
    {
      ghost var s := View();
      var head := threads[running].locks;
      while head != []
        invariant Consistent() && running == s.running && threads[running].locks == head
        invariant ReleaseAll(View(), head) == ReleaseAll(s, LocksOf(s, s.running))
        decreases |head|
      {
        assert Holds(View(), running, head[0]);
        FreeLockInv(View(), head[0]);
        LockReleaseCompletely(head[0]);
        head := head[1..];
      }
    }

    /** The search of create_thread for a free slot. */
    method FindFreeSlot() returns (tid: nat)
      ensures tid == FreeSlot(threads, 1)
    {
      tid := 1;
      while tid < NTHR && tid in threads
        invariant tid <= NTHR && FreeSlot(threads, tid) == FreeSlot(threads, 1)
      {
        tid := tid + 1;
      }
    }

    /** spawn_thread. */
    method SpawnThread() returns (r: Result<nat>)
      requires Consistent()
      modifies this
      ensures (View(), r) == Spawn(old(View())) && Consistent()
    {
      SpawnInv(View());
      var tid := FindFreeSlot();
      if tid >= NTHR {
        return Err(EMTHR);
      }
      threads := threads[tid := Thread(Ready, Some(running), [], None)];
      waits := waits[ChildExit(tid) := []];
      ready := ready + [tid];
      r := Ok(tid);
    }

    /** thread_reclaim: the loop over the slots hands the children on. */
    method ThreadReclaim(tid: nat)
      requires tid in threads && forall t :: t in threads ==> t < NTHR
      modifies this`threads
      ensures View() == Reclaim(old(View()), tid)
    {
      ghost var s := View();
      var thr := threads[tid];
      for ctid := 1 to NTHR
        invariant threads.Keys == s.threads.Keys
        invariant forall t :: t in threads ==>
          threads[t] == if 0 < t < ctid && s.threads[t].parent == Some(tid) then s.threads[t].(parent := thr.parent) else s.threads[t]
      {
        if ctid in threads && threads[ctid].parent == Some(tid) {
          threads := threads[ctid := threads[ctid].(parent := thr.parent)];
        }
      }
      threads := threads - {tid};
    }

    /** thread_detach. */
    method ThreadDetach(tid: nat)
      requires Consistent() && tid in threads
      modifies this
      ensures View() == Detach(old(View()), tid) && Consistent()
    {
      DetachInv(View(), tid);
      threads := threads[tid := threads[tid].(parent := None)];
    }

    /** The search of thread_join for a child that has exited, and whether there is any child. */
    method FindExitedChild() returns (child: Option<nat>, haveChild: bool)
      ensures child == ExitedChild(View(), 1) && (child.None? ==> haveChild == HasChild(View(), 1))
    {
      haveChild := false;
      for i := 1 to IDLE_TID
        invariant ExitedChild(View(), i) == ExitedChild(View(), 1)
        invariant haveChild || HasChild(View(), i) <==> HasChild(View(), 1)
      {
        if IsChild(View(), i, running) {
          haveChild := true;
          if threads[i].status == Exited {
            return Some(i), true;
          }
        }
      }
      child := None;
    }

    /** One round of thread_join: its result, or none if the thread has waited. */
    method ThreadJoinRound(tid: int, first: bool) returns (r: Option<Result<nat>>)
      requires Consistent() && running != IDLE_TID
      modifies this
      ensures (View(), r) == Join(old(View()), tid, first) && Consistent()
    {
      ghost var s := View();
      JoinInv(s, tid, first);
      if tid != 0 {
        if tid < 0 || tid >= NTHR || tid == IDLE_TID || !IsChild(View(), tid, running) {
          return Some(Err(EINVAL));
        }
        if threads[tid].status == Exited {
          ThreadReclaim(tid);
          return Some(Ok(tid));
        }
      } else {
        var child, haveChild := FindExitedChild();
        if child.Some? {
          ExitedChildIs(View(), 1);
          ThreadReclaim(child.value);
          return Some(Ok(child.value));
        }
        if first && !haveChild {
          return Some(Err(EINVAL));
        }
      }
      threads := threads[running := threads[running].(joins := Some(tid))];
      WaitJoinSettled(s, tid);
      ConditionWait(ChildExit(running));
      r := None;
    }
  }

  lemma {:induction false} WithoutAt(list: seq<nat>, l: nat, i: nat)
    requires i <= |list| && (forall j :: 0 <= j < i ==> list[j] != l) && (i < |list| ==> list[i] == l)
    ensures Without(list, l) == if i < |list| then list[..i] + list[i + 1..] else list
  {
    if i > 0 {
      WithoutAt(list[1..], l, i - 1);
      assert i < |list| ==> [list[0]] + (list[1..][..i - 1] + list[1..][i..]) == list[..i] + list[i + 1..];
    }
  }

  lemma WaitJoinSettled(s: State, what: nat)
    requires Inv(s)
    ensures Settled(s.(threads := s.threads[s.running := s.threads[s.running].(joins := Some(what))]))
  {
    var a := s.(threads := s.threads[s.running := s.threads[s.running].(joins := Some(what))]);
    assert forall t: nat, st :: Has(a, t, st) <==> Has(s, t, st);
    assert forall c :: WaitersOn(a, c) == WaitersOn(s, c);
  }
}
