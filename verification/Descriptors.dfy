/** Descriptor tables and reference counts: every open endpoint counts the slots that name it, over all
    processes, and is closed exactly once, when the last one goes. */
module Descriptors {
  import opened Results

  const UIOMAX := 16

  type Table = t: seq<Option<nat>> | |t| == 16 witness seq(16, _ => None)

  function EmptyTable(): Table {
    seq(16, _ => None)
  }

  /** The slots, over all processes, that name endpoint `u`. */
  ghost function Slots(tabs: map<nat, Table>, u: nat): set<(nat, nat)> {
    set p, fd | p in tabs && 0 <= fd < UIOMAX && tabs[p][fd] == Some(u) :: (p, fd)
  }

  function WithSlot(tabs: map<nat, Table>, p: nat, fd: nat, slot: Option<nat>): map<nat, Table>
    requires p in tabs && fd < UIOMAX
  {
    tabs[p := tabs[p][fd := slot]]
  }

  /** Naming an endpoint in an empty slot adds that slot; emptying a slot removes it. */
  lemma SlotsFilled(tabs: map<nat, Table>, p: nat, fd: nat, u: nat, v: nat)
    requires p in tabs && fd < UIOMAX && tabs[p][fd] == None
    ensures Slots(WithSlot(tabs, p, fd, Some(u)), v) == if u == v then Slots(tabs, v) + {(p, fd)} else Slots(tabs, v)
    ensures (p, fd) !in Slots(tabs, v)
  {
    var after := WithSlot(tabs, p, fd, Some(u));
    assert forall q, d :: (q, d) in Slots(after, v) <==> q in after && 0 <= d < UIOMAX && after[q][d] == Some(v);
  }

  lemma SlotsEmptied(tabs: map<nat, Table>, p: nat, fd: nat, v: nat)
    requires p in tabs && fd < UIOMAX
    ensures Slots(WithSlot(tabs, p, fd, None), v) == Slots(tabs, v) - {(p, fd)}
    ensures (p, fd) in Slots(tabs, v) <==> tabs[p][fd] == Some(v)
  {
    var after := WithSlot(tabs, p, fd, None);
    assert forall q, d :: (q, d) in Slots(after, v) <==> q in after && 0 <= d < UIOMAX && after[q][d] == Some(v);
  }

  /** A process with an empty table names nothing. */
  lemma SlotsOfNew(tabs: map<nat, Table>, p: nat, v: nat)
    requires p !in tabs
    ensures Slots(tabs[p := EmptyTable()], v) == Slots(tabs, v)
  {
  }

  lemma SlotsOfGone(tabs: map<nat, Table>, p: nat, v: nat)
    requires p in tabs && tabs[p] == EmptyTable()
    ensures Slots(tabs - {p}, v) == Slots(tabs, v)
  {
  }

  /** The first empty slot from `i` on other than `skip`; `UIOMAX` if there is none. */
  function FirstFree(tab: Table, skip: int, i: nat): (f: nat)
    requires i <= UIOMAX
    ensures i <= f <= UIOMAX && (f < UIOMAX ==> tab[f] == None && f != skip)
    decreases UIOMAX - i
  {
    if i == UIOMAX || (tab[i] == None && i != skip) then i else FirstFree(tab, skip, i + 1)
  }

  lemma {:induction false} FirstFreeIs(tab: Table, skip: int, i: nat)
    requires i <= UIOMAX
    ensures forall j :: i <= j < FirstFree(tab, skip, i) ==> tab[j] != None || j == skip
    decreases UIOMAX - i
  {
    if i < UIOMAX && !(tab[i] == None && i != skip) {
      FirstFreeIs(tab, skip, i + 1);
    }
  }

  /** Counts are numbers of slots; an endpoint has been closed once if no slot names it, and never otherwise. */
  ghost predicate Counted(tabs: map<nat, Table>, refcnt: map<nat, nat>, closes: map<nat, nat>) {
    && closes.Keys == refcnt.Keys
    && (forall p, fd: nat :: p in tabs && fd < UIOMAX && tabs[p][fd].Some? ==> tabs[p][fd].value in refcnt)
    && (forall u :: u in refcnt ==> CountedOne(tabs, u, refcnt[u], closes[u]))
  }

  ghost predicate CountedOne(tabs: map<nat, Table>, u: nat, cnt: nat, closed: nat) {
    cnt == |Slots(tabs, u)| && closed == if cnt == 0 then 1 else 0
  }

  /** Filling an empty slot is right with one more reference, to an endpoint that is new or in use. */
  lemma FilledCounted(tabs: map<nat, Table>, refcnt: map<nat, nat>, closes: map<nat, nat>, p: nat, fd: nat, u: nat)
    requires Counted(tabs, refcnt, closes) && p in tabs && fd < UIOMAX && tabs[p][fd] == None
    requires u in refcnt ==> refcnt[u] > 0
    ensures Counted(WithSlot(tabs, p, fd, Some(u)), refcnt[u := if u in refcnt then refcnt[u] + 1 else 1], closes[u := 0])
  {
    hide Slots;
    var tabs' := WithSlot(tabs, p, fd, Some(u));
    var (refcnt', closes') := (refcnt[u := if u in refcnt then refcnt[u] + 1 else 1], closes[u := 0]);
    forall v | v in refcnt' ensures CountedOne(tabs', v, refcnt'[v], closes'[v]) {
      SlotsFilled(tabs, p, fd, u, v);
      if v in refcnt {
        assert CountedOne(tabs, v, refcnt[v], closes[v]);
      } else {
        Unnamed(tabs, refcnt, closes, v);
      }
    }
  }

  lemma Unnamed(tabs: map<nat, Table>, refcnt: map<nat, nat>, closes: map<nat, nat>, u: nat)
    requires Counted(tabs, refcnt, closes) && u !in refcnt
    ensures Slots(tabs, u) == {}
  {
  }

  lemma CountedKeys(tabs: map<nat, Table>, refcnt: map<nat, nat>, closes: map<nat, nat>)
    requires Counted(tabs, refcnt, closes)
    ensures closes.Keys == refcnt.Keys
  {
  }

  /** Emptying a slot is right with one reference less, and a close when it was the last. */
  lemma EmptiedCounted(tabs: map<nat, Table>, refcnt: map<nat, nat>, closes: map<nat, nat>, p: nat, fd: nat)
    requires Counted(tabs, refcnt, closes) && p in tabs && fd < UIOMAX && tabs[p][fd].Some?
    ensures var u := tabs[p][fd].value;
      && u in refcnt && refcnt[u] > 0 && u in closes && closes[u] == 0
      && Counted(WithSlot(tabs, p, fd, None), refcnt[u := refcnt[u] - 1], closes[u := if refcnt[u] == 1 then 1 else 0])
  {
    hide Slots;
    var u := tabs[p][fd].value;
    SlotsEmptied(tabs, p, fd, u);
    assert CountedOne(tabs, u, refcnt[u], closes[u]);
    var tabs' := WithSlot(tabs, p, fd, None);
    var (refcnt', closes') := (refcnt[u := refcnt[u] - 1], closes[u := if refcnt[u] == 1 then 1 else 0]);
    forall v | v in refcnt' ensures CountedOne(tabs', v, refcnt'[v], closes'[v]) {
      SlotsEmptied(tabs, p, fd, v);
      assert CountedOne(tabs, v, refcnt[v], closes[v]);
    }
  }

  /** A process with an empty table changes no count. */
  lemma NewCounted(tabs: map<nat, Table>, refcnt: map<nat, nat>, closes: map<nat, nat>, p: nat)
    requires Counted(tabs, refcnt, closes) && p !in tabs
    ensures Counted(tabs[p := EmptyTable()], refcnt, closes)
  {
    hide Slots;
    forall v | v in refcnt ensures CountedOne(tabs[p := EmptyTable()], v, refcnt[v], closes[v]) {
      SlotsOfNew(tabs, p, v);
      assert CountedOne(tabs, v, refcnt[v], closes[v]);
    }
  }

  lemma GoneCounted(tabs: map<nat, Table>, refcnt: map<nat, nat>, closes: map<nat, nat>, p: nat)
    requires Counted(tabs, refcnt, closes) && p in tabs && tabs[p] == EmptyTable()
    ensures Counted(tabs - {p}, refcnt, closes)
  {
    hide Slots;
    forall v | v in refcnt ensures CountedOne(tabs - {p}, v, refcnt[v], closes[v]) {
      SlotsOfGone(tabs, p, v);
      assert CountedOne(tabs, v, refcnt[v], closes[v]);
    }
  }

  /** The tables determine the counts. */
  lemma CountsAgree(tabs: map<nat, Table>, refcnt: map<nat, nat>, closes: map<nat, nat>, refcnt': map<nat, nat>, closes': map<nat, nat>)
    requires Counted(tabs, refcnt, closes) && Counted(tabs, refcnt', closes') && refcnt'.Keys == refcnt.Keys
    ensures refcnt' == refcnt && closes' == closes
  {
    forall u | u in refcnt ensures refcnt'[u] == refcnt[u] && closes'[u] == closes[u] {
      assert CountedOne(tabs, u, refcnt[u], closes[u]) && CountedOne(tabs, u, refcnt'[u], closes'[u]);
    }
  }

  function OneMore(refcnt: map<nat, nat>, u: nat): map<nat, nat> {
    if u in refcnt then refcnt[u := refcnt[u] + 1] else refcnt
  }

  function OneLess(refcnt: map<nat, nat>, u: nat): map<nat, nat> {
    if u in refcnt && refcnt[u] > 0 then refcnt[u := refcnt[u] - 1] else refcnt
  }

  class Files {
    var tabs: map<nat, Table>
    var refcnt: map<nat, nat>
    /** How often the close method of each endpoint has run. */
    ghost var closes: map<nat, nat>

    constructor (p: nat)
      ensures Consistent() && tabs == map[p := EmptyTable()] && refcnt == map[]
    {
      tabs, refcnt, closes := map[p := EmptyTable()], map[], map[];
    }

    ghost predicate Consistent()
      reads this
    {
      Counted(tabs, refcnt, closes)
    }

    /** An endpoint the caller has just been given, with count 1, goes into an empty slot. */
    method Install(p: nat, fd: nat, u: nat)
      requires Consistent() && p in tabs && fd < UIOMAX && tabs[p][fd] == None && u !in refcnt
      modifies this
      ensures Consistent() && tabs == WithSlot(old(tabs), p, fd, Some(u)) && refcnt == old(refcnt)[u := 1]
    {
      FilledCounted(tabs, refcnt, closes, p, fd, u);
      tabs := tabs[p := tabs[p][fd := Some(u)]];
      refcnt, closes := refcnt[u := 1], closes[u := 0];
    }

    /** Another slot names an endpoint in use; uio_addref. */
    method Share(p: nat, fd: nat, u: nat)
      requires Consistent() && p in tabs && fd < UIOMAX && tabs[p][fd] == None && u in refcnt && refcnt[u] > 0
      modifies this
      ensures Consistent() && tabs == WithSlot(old(tabs), p, fd, Some(u)) && refcnt == OneMore(old(refcnt), u)
    {
      FilledCounted(tabs, refcnt, closes, p, fd, u);
      assert CountedOne(tabs, u, refcnt[u], closes[u]);
      assert closes[u := 0] == closes;
      tabs := tabs[p := tabs[p][fd := Some(u)]];
      refcnt := refcnt[u := refcnt[u] + 1];
    }

    /** uio_close of the endpoint in a slot, which is then cleared: its close method runs if this was the last. */
    method Drop(p: nat, fd: nat) returns (closed: bool)
      requires Consistent() && p in tabs && fd < UIOMAX && tabs[p][fd].Some?
      modifies this
      ensures Consistent() && tabs == WithSlot(old(tabs), p, fd, None)
      ensures var u := old(tabs)[p][fd].value;
        u in refcnt && refcnt == OneLess(old(refcnt), u) && closed == (refcnt[u] == 0)
    {
      hide Counted;
      EmptiedCounted(tabs, refcnt, closes, p, fd);
      var u := tabs[p][fd].value;
      CountedKeys(tabs, refcnt, closes);
      ghost var was := refcnt[u];
      if refcnt[u] > 0 {
        refcnt := refcnt[u := refcnt[u] - 1];
      }
      closed := refcnt[u] == 0;
      if closed {
        closes := closes[u := closes[u] + 1];
      }
      assert closes == old(closes)[u := if was == 1 then 1 else 0];
      tabs := tabs[p := tabs[p][fd := None]];
    }

    /** The loops that look for an empty slot. */
    method FindFree(p: nat, skip: int) returns (i: nat)
      requires p in tabs
      ensures i == FirstFree(tabs[p], skip, 0)
    {
      i := 0;
      while i < UIOMAX && !(tabs[p][i] == None && i != skip)
        invariant i <= UIOMAX && FirstFree(tabs[p], skip, i) == FirstFree(tabs[p], skip, 0)
      {
        i := i + 1;
      }
    }

    /** The descriptor asked for, or for a negative one the first that is free; negative if there is none. */
    method Choose(p: nat, fd: int, skip: int) returns (slot: int)
      requires p in tabs
      ensures slot == if fd >= 0 then fd else if FirstFree(tabs[p], skip, 0) < UIOMAX then FirstFree(tabs[p], skip, 0) else fd
    {
      slot := fd;
      if slot < 0 {
        var i := FindFree(p, skip);
        if i < UIOMAX {
          slot := i;
        }
      }
    }

    /** sysopen; `file` is what opening the path gives, a new endpoint or an error. */
    method Open(p: nat, fd: int, file: Result<nat>) returns (r: Result<nat>)
      requires Consistent() && p in tabs && (file.Ok? ==> file.value !in refcnt)
      modifies this
      ensures Consistent() && r == OpenResult(old(tabs)[p], fd, file)
      ensures if r.Ok? then tabs == WithSlot(old(tabs), p, r.value, Some(file.value)) && refcnt == old(refcnt)[file.value := 1]
              else tabs == old(tabs) && refcnt == old(refcnt)
    {
      if fd < -1 || fd >= UIOMAX {
        return Err(EBADFD);
      }
      var slot := fd;
      if slot == -1 {
        var i := FindFree(p, -1);
        if i < UIOMAX {
          slot := i;
        }
      }
      if slot == -1 {
        return Err(EMFILE);
      }
      if tabs[p][slot] != None {
        return Err(EBADFD);
      }
      if file.Err? {
        return Err(file.code);
      }
      Install(p, slot, file.value);
      r := Ok(slot);
    }

    /** sysclose. */
    method Close(p: nat, fd: int) returns (r: Result<nat>)
      requires Consistent() && p in tabs
      modifies this
      ensures Consistent()
      ensures if 0 <= fd < UIOMAX && old(tabs)[p][fd].Some? then
                r == Ok(0) && tabs == WithSlot(old(tabs), p, fd, None)
                && refcnt == OneLess(old(refcnt), old(tabs)[p][fd].value)
              else r == Err(EBADFD) && tabs == old(tabs) && refcnt == old(refcnt)
    {
      if fd < 0 || fd >= UIOMAX {
        return Err(EBADFD);
      }
      if tabs[p][fd] == None {
        return Err(EBADFD);
      }
      var closed := Drop(p, fd);
      r := Ok(0);
    }

    /** sysuiodup. */
    method Dup(p: nat, oldfd: int, newfd: int) returns (r: Result<nat>)
      requires Consistent() && p in tabs
      modifies this
      ensures Consistent() && r == DupResult(old(tabs)[p], oldfd, newfd)
      ensures if r.Ok? then
                var u := old(tabs)[p][oldfd].value;
                tabs == WithSlot(old(tabs), p, r.value, Some(u)) && refcnt == OneMore(old(refcnt), u)
              else tabs == old(tabs) && refcnt == old(refcnt)
    {
      hide Counted, FirstFree;
      if oldfd < 0 || oldfd >= UIOMAX {
        return Err(EBADFD);
      }
      if tabs[p][oldfd] == None {
        return Err(EBADFD);
      }
      var slot := Choose(p, newfd, -1);
      if slot < 0 {
        return Err(EMFILE);
      }
      if slot >= UIOMAX {
        return Err(EBADFD);
      }
      if tabs[p][slot] != None {
        return Err(EBADFD);
      }
      EmptiedCounted(tabs, refcnt, closes, p, oldfd);
      Share(p, slot, tabs[p][oldfd].value);
      r := Ok(slot);
    }

    /** syspipe, with the new pipe's two endpoints `wio` and `rio`. */
    method MakePipe(p: nat, wfd: int, rfd: int, wio: nat, rio: nat) returns (r: Result<(nat, nat)>)
      requires Consistent() && p in tabs && wio !in refcnt && rio !in refcnt && wio != rio
      modifies this
      ensures Consistent() && r == PipeResult(old(tabs)[p], wfd, rfd)
      ensures if r.Ok? then
                && tabs == WithSlot(WithSlot(old(tabs), p, r.value.0, Some(wio)), p, r.value.1, Some(rio))
                && refcnt == old(refcnt)[wio := 1][rio := 1]
              else tabs == old(tabs) && refcnt == old(refcnt)
    {
      hide Counted, FirstFree;
      var w := Choose(p, wfd, rfd);
      if w < 0 || w >= UIOMAX {
        return Err(EBADFD);
      }
      if tabs[p][w] != None {
        return Err(EBUSY);
      }
      var d := Choose(p, rfd, w);
      if d < 0 || d >= UIOMAX {
        return Err(EBADFD);
      }
      if tabs[p][d] != None {
        return Err(EBUSY);
      }
      if w == d {
        return Err(EBADFD);
      }
      Install(p, w, wio);
      Install(p, d, rio);
      r := Ok((w, d));
    }

    /** The loop of process_fork that copies the table and takes references. */
    method CopyTable(from: nat, to: nat)
      requires Consistent() && from in tabs && to in tabs && from != to && tabs[to] == EmptyTable()
      modifies this
      ensures Consistent() && tabs == old(tabs)[to := old(tabs)[from]] && refcnt.Keys == old(refcnt).Keys
    {
      hide Counted;
      for i := 0 to UIOMAX
        invariant Consistent() && tabs.Keys == old(tabs).Keys && refcnt.Keys == old(refcnt).Keys
        invariant forall q :: q in tabs && q != to ==> tabs[q] == old(tabs)[q]
        invariant forall j :: 0 <= j < UIOMAX ==> tabs[to][j] == if j < i then tabs[from][j] else None
      {
        if tabs[from][i] != None {
          EmptiedCounted(tabs, refcnt, closes, from, i);
          Share(to, i, tabs[from][i].value);
        }
      }
      assert tabs[to] == tabs[from];
    }

    /** The loops that close every endpoint of a table. */
    method CloseAll(p: nat)
      requires Consistent() && p in tabs
      modifies this
      ensures Consistent() && tabs == old(tabs)[p := EmptyTable()] && refcnt.Keys == old(refcnt).Keys
    {
      hide Counted;
      for i := 0 to UIOMAX
        invariant Consistent() && tabs.Keys == old(tabs).Keys && refcnt.Keys == old(refcnt).Keys
        invariant forall q :: q in tabs && q != p ==> tabs[q] == old(tabs)[q]
        invariant forall j :: 0 <= j < UIOMAX ==> tabs[p][j] == if j < i then None else old(tabs)[p][j]
      {
        if tabs[p][i] != None {
          EmptiedCounted(tabs, refcnt, closes, p, i);
          var closed := Drop(p, i);
        }
      }
      assert tabs[p] == EmptyTable();
    }

    /** process_fork, as far as descriptors go: the child gets a copy of the table; when the thread cannot be made
        the references are given back, and everything is as before. */
    method Fork(p: nat, child: nat, spawned: bool)
      requires Consistent() && p in tabs && child !in tabs
      modifies this
      ensures Consistent()
      ensures if spawned then tabs == old(tabs)[child := old(tabs)[p]] else tabs == old(tabs) && refcnt == old(refcnt) && closes == old(closes)
    {
      hide Counted;
      ghost var was := tabs;
      NewCounted(tabs, refcnt, closes, child);
      tabs := tabs[child := EmptyTable()];
      CopyTable(p, child);
      if !spawned {
        CloseAll(child);
        GoneCounted(tabs, refcnt, closes, child);
        tabs := tabs - {child};
        assert tabs == was;
        CountsAgree(tabs, old(refcnt), old(closes), refcnt, closes);
      }
    }

    /** process_exit: every slot is given up. */
    method Exit(p: nat)
      requires Consistent() && p in tabs
      modifies this
      ensures Consistent() && tabs == old(tabs) - {p}
    {
      hide Counted;
      CloseAll(p);
      GoneCounted(tabs, refcnt, closes, p);
      tabs := tabs - {p};
    }
  }

  function OpenResult(tab: Table, fd: int, file: Result<nat>): (r: Result<nat>)
    ensures r.Ok? ==> r.value < UIOMAX && tab[r.value] == None && file.Ok? && (fd >= 0 ==> r.value == fd)
  {
    var free := FirstFree(tab, -1, 0);
    if fd < -1 || fd >= UIOMAX then Err(EBADFD)
    else if fd == -1 && free == UIOMAX then Err(EMFILE)
    else
      var slot := if fd == -1 then free else fd;
      if tab[slot] != None then Err(EBADFD) else if file.Err? then Err(file.code) else Ok(slot)
  }

  function DupResult(tab: Table, oldfd: int, newfd: int): (r: Result<nat>)
    ensures r.Ok? ==> 0 <= oldfd < UIOMAX && tab[oldfd].Some? && r.value < UIOMAX && tab[r.value] == None && (newfd >= 0 ==> r.value == newfd)
  {
    var free := FirstFree(tab, -1, 0);
    if oldfd < 0 || oldfd >= UIOMAX || tab[oldfd] == None then Err(EBADFD)
    else if newfd < 0 && free == UIOMAX then Err(EMFILE)
    else
      var slot := if newfd < 0 then free else newfd;
      if slot >= UIOMAX || tab[slot] != None then Err(EBADFD) else Ok(slot)
  }

  function PipeResult(tab: Table, wfd: int, rfd: int): (r: Result<(nat, nat)>)
    ensures r.Ok? ==> r.value.0 < UIOMAX && r.value.1 < UIOMAX && r.value.0 != r.value.1 && tab[r.value.0] == tab[r.value.1] == None
  {
    var w := if wfd < 0 then FirstFree(tab, rfd, 0) else wfd;
    if w >= UIOMAX then Err(EBADFD)
    else if tab[w] != None then Err(EBUSY)
    else
      var d := if rfd < 0 then FirstFree(tab, w, 0) else rfd;
      if d >= UIOMAX then Err(EBADFD)
      else if tab[d] != None then Err(EBUSY)
      else if w == d then Err(EBADFD)
      else Ok((w, d))
  }

  ghost predicate AllTaken(tab: Table, skip: int) {
    forall j :: 0 <= j < UIOMAX && j != skip ==> tab[j] != None
  }

  lemma FirstFreeOrNone(tab: Table, skip: int)
    ensures FirstFree(tab, skip, 0) == UIOMAX <==> AllTaken(tab, skip)
    ensures forall j :: 0 <= j < FirstFree(tab, skip, 0) ==> tab[j] != None || j == skip
  {
    FirstFreeIs(tab, skip, 0);
  }

  /** sysopen, case by case: the errors in their order, and the slot. */
  lemma OpenResultIs(tab: Table, fd: int, file: Result<nat>)
    ensures var r := OpenResult(tab, fd, file);
      if fd < -1 || fd >= UIOMAX then r == Err(EBADFD)
      else if fd == -1 && AllTaken(tab, -1) then r == Err(EMFILE)
      else if fd >= 0 && tab[fd].Some? then r == Err(EBADFD)
      else if file.Err? then r == Err(file.code)
      else r.Ok? && r.value < UIOMAX && tab[r.value] == None
           && if fd >= 0 then r.value == fd else forall j :: 0 <= j < r.value ==> tab[j] != None
  {
    FirstFreeOrNone(tab, -1);
  }

  /** sysuiodup, case by case. */
  lemma DupResultIs(tab: Table, oldfd: int, newfd: int)
    ensures var r := DupResult(tab, oldfd, newfd);
      if oldfd < 0 || oldfd >= UIOMAX || tab[oldfd] == None then r == Err(EBADFD)
      else if newfd < 0 && AllTaken(tab, -1) then r == Err(EMFILE)
      else if newfd >= UIOMAX || (newfd >= 0 && tab[newfd].Some?) then r == Err(EBADFD)
      else r.Ok? && r.value < UIOMAX && tab[r.value] == None
           && if newfd >= 0 then r.value == newfd else forall j :: 0 <= j < r.value ==> tab[j] != None
  {
    FirstFreeOrNone(tab, -1);
  }

  /** syspipe succeeds exactly when two different empty slots are as asked for; EBUSY means that a slot asked for is
      taken, the reading end's only if there is one for the writing end. */
  lemma PipeResultIs(tab: Table, wfd: int, rfd: int)
    ensures PipeResult(tab, wfd, rfd).Ok? <==>
      exists w, d :: 0 <= w < UIOMAX && 0 <= d < UIOMAX && w != d && tab[w] == None && tab[d] == None
                     && (wfd >= 0 ==> w == wfd) && (rfd >= 0 ==> d == rfd)
    ensures PipeResult(tab, wfd, rfd) == Err(EBUSY) <==>
      || (0 <= wfd < UIOMAX && tab[wfd].Some?)
      || (0 <= rfd < UIOMAX && tab[rfd].Some? && if wfd >= 0 then wfd < UIOMAX && tab[wfd] == None else !AllTaken(tab, rfd))
    ensures PipeResult(tab, wfd, rfd).Err? ==> PipeResult(tab, wfd, rfd).code in {EBADFD, EBUSY} && EBADFD != EBUSY
  {
    FirstFreeOrNone(tab, rfd);
    FirstFreeOrNone(tab, if wfd < 0 then FirstFree(tab, rfd, 0) else wfd);
  }

  /** The descriptors a pipe gets were empty, are two, and are the ones asked for or the first that fit. */
  lemma PipeResultFits(tab: Table, wfd: int, rfd: int)
    requires PipeResult(tab, wfd, rfd).Ok?
    ensures var (w, d) := PipeResult(tab, wfd, rfd).value;
      && (wfd >= 0 ==> w == wfd) && (rfd >= 0 ==> d == rfd)
      && (wfd < 0 ==> forall j :: 0 <= j < w ==> tab[j] != None || j == rfd)
      && (rfd < 0 ==> forall j :: 0 <= j < d ==> tab[j] != None || j == w)
  {
    FirstFreeIs(tab, rfd, 0);
    if wfd < 0 {
      FirstFreeIs(tab, FirstFree(tab, rfd, 0), 0);
    } else {
      FirstFreeIs(tab, wfd, 0);
    }
  }

  /** An endpoint has been closed at most once, and once exactly when no slot names it any more. */
  lemma ClosedOnce(tabs: map<nat, Table>, refcnt: map<nat, nat>, closes: map<nat, nat>, u: nat)
    requires Counted(tabs, refcnt, closes) && u in refcnt
    ensures closes[u] <= 1
    ensures closes[u] == 1 <==> forall p, fd: nat :: p in tabs && fd < UIOMAX ==> tabs[p][fd] != Some(u)
  {
    assert CountedOne(tabs, u, refcnt[u], closes[u]);
    if refcnt[u] == 0 {
      forall p, fd: nat | p in tabs && fd < UIOMAX ensures tabs[p][fd] != Some(u) {
        SlotsEmptied(tabs, p, fd, u);
      }
    } else {
      var slot :| slot in Slots(tabs, u);
      assert tabs[slot.0][slot.1] == Some(u);
    }
  }

  /** process_exec gives the console `u` to slots 2, 0 and 1 when slot 2 is empty, without a look at the others. */
  function ConsoleTable(tab: Table, u: nat): Table {
    tab[2 := Some(u)][0 := Some(u)][1 := Some(u)]
  }

  /** The counts stay right exactly when slots 0 and 1 were empty as well. */
  lemma ConsoleCounted(tabs: map<nat, Table>, refcnt: map<nat, nat>, closes: map<nat, nat>, p: nat, u: nat)
    requires Counted(tabs, refcnt, closes) && p in tabs && tabs[p][2] == None && u !in refcnt
    ensures Counted(tabs[p := ConsoleTable(tabs[p], u)], refcnt[u := 3], closes[u := 0]) <==> tabs[p][0] == None && tabs[p][1] == None
  {
    hide Slots;
    var after := tabs[p := ConsoleTable(tabs[p], u)];
    if tabs[p][0] == None && tabs[p][1] == None {
      FilledCounted(tabs, refcnt, closes, p, 2, u);
      var t := WithSlot(tabs, p, 2, Some(u));
      FilledCounted(t, refcnt[u := 1], closes[u := 0], p, 0, u);
      var t' := WithSlot(t, p, 0, Some(u));
      assert refcnt[u := 1][u := 2] == refcnt[u := 2] && closes[u := 0][u := 0] == closes[u := 0];
      FilledCounted(t', refcnt[u := 2], closes[u := 0], p, 1, u);
      assert after == WithSlot(t', p, 1, Some(u)) && refcnt[u := 3] == refcnt[u := 2][u := 3];
    } else {
      var fd := if tabs[p][0] != None then 0 else 1;
      OverwrittenLost(tabs, refcnt, closes, after, p, fd, u);
    }
  }

  /** A process with an endpoint, 10, in slot 0 and none in slot 2 gets the console, 20: the counts were right
      before, and afterwards 10 still has its reference, though no slot names it and so none can give it up. */
  lemma ConsoleOverwrites()
    ensures var tab := EmptyTable()[0 := Some(10)];
      && tab[2] == None && Counted(map[0 := tab], map[10 := 1], map[10 := 0])
      && var after := map[0 := ConsoleTable(tab, 20)];
        !Counted(after, map[10 := 1, 20 := 3], map[10 := 0, 20 := 0]) && Slots(after, 10) == {}
  {
    hide Slots;
    var empty: map<nat, Table> := map[0 := EmptyTable()];
    var tab := EmptyTable()[0 := Some(10)];
    assert Counted(empty, map[], map[]);
    FilledCounted(empty, map[], map[], 0, 0, 10);
    assert WithSlot(empty, 0, 0, Some(10)) == map[0 := tab];
    var refcnt: map<nat, nat>, closes: map<nat, nat> := map[10 := 1], map[10 := 0];
    assert map[][10 := 1] == refcnt && map[][10 := 0] == closes;
    ConsoleCounted(map[0 := tab], refcnt, closes, 0, 20);
    assert map[0 := tab][0 := ConsoleTable(tab, 20)] == map[0 := ConsoleTable(tab, 20)];
    assert refcnt[20 := 3] == map[10 := 1, 20 := 3] && closes[20 := 0] == map[10 := 0, 20 := 0];
    NoSlot(map[0 := ConsoleTable(tab, 20)], 10);
  }

  lemma NoSlot(tabs: map<nat, Table>, u: nat)
    requires forall p, fd: nat :: p in tabs && fd < UIOMAX ==> tabs[p][fd] != Some(u)
    ensures Slots(tabs, u) == {}
  {
  }

  lemma OverwrittenLost(tabs: map<nat, Table>, refcnt: map<nat, nat>, closes: map<nat, nat>, after: map<nat, Table>, p: nat, fd: nat, u: nat)
    requires Counted(tabs, refcnt, closes) && p in tabs && fd < 2 && tabs[p][fd].Some? && u !in refcnt && tabs[p][2] == None
    requires after == tabs[p := ConsoleTable(tabs[p], u)]
    ensures !Counted(after, refcnt[u := 3], closes[u := 0])
  {
    var v := tabs[p][fd].value;
    assert CountedOne(tabs, v, refcnt[v], closes[v]);
    assert (p, fd) in Slots(tabs, v) && (p, fd) !in Slots(after, v);
    forall q, d | (q, d) in Slots(after, v) ensures (q, d) in Slots(tabs, v) {
    }
    Smaller(Slots(after, v), Slots(tabs, v), (p, fd));
    assert !CountedOne(after, v, refcnt[u := 3][v], closes[u := 0][v]);
  }

  lemma Smaller(a: set<(nat, nat)>, b: set<(nat, nat)>, x: (nat, nat))
    requires a <= b && x in b && x !in a
    ensures |a| < |b|
  {
    assert a <= b - {x};
    SubsetSize(a, b - {x});
  }

  lemma {:induction false} SubsetSize(a: set<(nat, nat)>, b: set<(nat, nat)>)
    requires a <= b
    ensures |a| <= |b|
    decreases |a|
  {
    if x :| x in a {
      SubsetSize(a - {x}, b - {x});
    }
  }
}
