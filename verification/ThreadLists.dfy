/** The intrusive thread lists: each thread holds the link to the next one of the list it is on. */
module ThreadLists {

  class Thread {
    var listNext: Thread?

    constructor ()
      ensures listNext == null
    {
      listNext := null;
    }
  }

  function Following(list: seq<Thread>, i: nat): Thread? {
    if i + 1 < |list| then list[i + 1] else null
  }

  ghost predicate Distinct(list: seq<Thread>) {
    forall i: nat, j: nat :: i < j < |list| ==> list[i] != list[j]
  }

  /** The threads reached from `head` are those of `list`, in that order, and `tail` is the last. */
  ghost predicate Linked(head: Thread?, tail: Thread?, list: seq<Thread>)
    reads list`listNext
  {
    && Distinct(list)
    && (if list == [] then head == tail == null else head == list[0] && tail == list[|list| - 1])
    && (forall i: nat :: i < |list| ==> list[i].listNext == Following(list, i))
  }

  lemma DistinctAppend(l0: seq<Thread>, l1: seq<Thread>)
    requires Distinct(l0) && Distinct(l1) && forall t :: t in l0 ==> t !in l1
    ensures Distinct(l0 + l1)
    ensures forall i: nat, j: nat :: i < |l0| && j < |l1| ==> l0[i] != l1[j]
  {
    forall i: nat, j: nat | i < |l0| && j < |l1| ensures l0[i] != l1[j] {
      assert l0[i] in l0 && l1[j] in l1;
    }
    var l := l0 + l1;
    forall i: nat, j: nat | i < j < |l| ensures l[i] != l[j] {
      assert l[i] == if i < |l0| then l0[i] else l1[i - |l0|];
    }
  }

  lemma FollowingAppend(l0: seq<Thread>, l1: seq<Thread>, i: nat)
    requires i < |l0| + |l1|
    ensures (l0 + l1)[i] == if i < |l0| then l0[i] else l1[i - |l0|]
    ensures Following(l0 + l1, i) == if i + 1 < |l0| then Following(l0, i) else if i >= |l0| then Following(l1, i - |l0|)
                                     else if l1 == [] then null else l1[0]
  {
  }

  lemma DistinctEmpty()
    ensures Distinct([])
  {
  }

  lemma LastOnly(list: seq<Thread>, i: nat)
    requires Distinct(list)
    ensures i + 1 < |list| ==> list[i] != list[|list| - 1]
    ensures i + 1 == |list| ==> Following(list, i) == null
  {
  }

  class ThreadList {
    var head: Thread?
    var tail: Thread?
    ghost var contents: seq<Thread>

    constructor ()
      ensures Valid() && contents == []
    {
      head, tail, contents := null, null, [];
    }

    ghost predicate Valid()
      reads this, contents`listNext
    {
      Linked(head, tail, contents)
    }

    /** tlclear: forgets the list without touching its threads. */
    method Clear()
      modifies this
      ensures Valid() && contents == []
    {
      head, tail, contents := null, null, [];
    }

    /** tlempty. */
    method IsEmpty() returns (empty: bool)
      requires Valid()
      ensures empty == (contents == [])
    {
      empty := head == null;
    }

    /** tlinsert: the thread goes to the end of the list. */
    method Insert(thr: Thread)
      requires Valid() && thr !in contents
      modifies this, contents`listNext, thr`listNext
      ensures Valid() && contents == old(contents) + [thr]
    {
      thr.listNext := null;
      if tail != null {
        tail.listNext := thr;
      } else {
        head := thr;
      }
      tail := thr;
      contents := contents + [thr];
    }

    /** tlremove: the first thread of the list, which leaves it; null if there is none. */
    method Remove() returns (thr: Thread?)
      requires Valid()
      modifies this, contents`listNext
      ensures Valid()
      ensures if old(contents) == [] then thr == null && contents == []
              else thr == old(contents)[0] && contents == old(contents)[1..] && thr.listNext == null && thr !in contents
    {
      thr := head;
      if thr == null {
        return;
      }
      ghost var was := contents;
      contents := contents[1..];
      assert forall i: nat :: i < |contents| ==> contents[i] == was[i + 1] && Following(contents, i) == Following(was, i + 1);
      head := thr.listNext;
      if head != null {
        thr.listNext := null;
      } else {
        tail := null;
      }
      thr.listNext := null;
    }

    /** tlappend: the threads of `other` go to the end of the list, in order, and `other` is left empty. */
    method AppendAll(other: ThreadList)
      requires Valid() && other.Valid() && other != this
      requires forall t :: t in contents ==> t !in other.contents
      modifies this, other, contents`listNext
      ensures Valid() && contents == old(contents) + old(other.contents)
      ensures other.Valid() && other.contents == []
    {
      hide Distinct, Following;
      ghost var l0, l1 := contents, other.contents;
      DistinctAppend(l0, l1);
      if head != null {
        if other.head != null {
          tail.listNext := other.head;
          tail := other.tail;
        }
      } else {
        head := other.head;
        tail := other.tail;
      }
      contents := l0 + l1;
      forall i: nat | i < |contents| ensures contents[i].listNext == Following(contents, i) {
        FollowingAppend(l0, l1, i);
        LastOnly(l0, i);
      }
      other.head, other.tail, other.contents := null, null, [];
      DistinctEmpty();
    }
  }
}
