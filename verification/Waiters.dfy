/**
 The list of sleeping waiters of a mutex or semaphore (kernel/include/mutex.h),
 relinked in place while its lock is held.
 */
module Waiters {

  class Waiter {
    const pid: int
    var waiting: bool
    var next: Waiter?

    constructor (pid: int)
      ensures this.pid == pid && !waiting && next == null
    {
      this.pid := pid;
      waiting, next := false, null;
    }
  }

  function After(nodes: seq<Waiter>, i: nat): Waiter?
    requires i < |nodes|
  {
    if i + 1 < |nodes| then nodes[i + 1] else null
  }

  /** `nodes` is the chain that starts at `first` and ends with null. */
  ghost predicate Chained(first: Waiter?, nodes: seq<Waiter>)
    reads nodes
  {
    && (forall i, j :: 0 <= i < j < |nodes| ==> nodes[i] != nodes[j])
    && first == (if nodes == [] then null else nodes[0])
    && (forall i :: 0 <= i < |nodes| ==> nodes[i].next == After(nodes, i))
  }

  function Removed(nodes: seq<Waiter>, k: nat): (r: seq<Waiter>)
    requires k < |nodes|
    ensures |r| == |nodes| - 1 && forall i :: 0 <= i < |r| ==> r[i] == nodes[if i < k then i else i + 1]
  {
    nodes[..k] + nodes[k + 1..]
  }

  lemma RemovedAfter(nodes: seq<Waiter>, k: nat, i: nat)
    requires k < |nodes| && i + 1 < |nodes|
    ensures After(Removed(nodes, k), i) ==
            if i + 1 == k then After(nodes, k) else After(nodes, if i < k then i else i + 1)
  {
    hide Removed;
  }

  lemma AfterIs(nodes: seq<Waiter>, i: nat)
    requires i < |nodes|
    ensures After(nodes, i) == null <==> i + 1 == |nodes|
    ensures i + 1 < |nodes| ==> After(nodes, i) == nodes[i + 1]
  {
  }

  lemma AppendedAfter(nodes: seq<Waiter>, w: Waiter, i: nat)
    requires i <= |nodes|
    ensures After(nodes + [w], i) == if i == |nodes| then null else if i + 1 == |nodes| then w else After(nodes, i)
  {
  }

  class WaiterList {
    var first: Waiter?
    ghost var nodes: seq<Waiter>

    ghost predicate Valid()
      reads this, nodes
    {
      Chained(first, nodes)
    }

    constructor ()
      ensures Valid() && nodes == []
    {
      first, nodes := null, [];
    }

    /** mutex_attach_waiter: the waiter goes to the end. */
    method Attach(waiter: Waiter)
      requires Valid() && waiter !in nodes
      modifies this, nodes, waiter
      ensures Valid() && nodes == old(nodes) + [waiter] && waiter.waiting
      ensures forall w :: w in old(nodes) ==> w.waiting == old(w.waiting)
    {
      hide After;
      waiter.waiting := true;
      waiter.next := null;
      if first == null {
        first := waiter;
      } else {
        var last := first;
        ghost var i := 0;
        AfterIs(nodes, 0);
        while last.next != null
          invariant Chained(first, nodes) && 0 <= i < |nodes| && last == nodes[i]
          invariant last.next == null <==> i + 1 == |nodes|
          invariant i + 1 < |nodes| ==> last.next == nodes[i + 1]
          modifies {}
          decreases |nodes| - i
        {
          last := last.next;
          i := i + 1;
          AfterIs(nodes, i);
        }
        last.next := waiter;
      }
      forall i | 0 <= i <= |nodes| ensures (nodes + [waiter])[i].next == After(nodes + [waiter], i) {
        AppendedAfter(nodes, waiter, i);
      }
      nodes := nodes + [waiter];
    }

    /** mutex_detach_waiter: the waiter is found and taken out; the order of the others stays. */
    method Detach(waiter: Waiter)
      requires Valid() && waiter in nodes
      modifies this, nodes
      ensures Valid()
      ensures exists k :: 0 <= k < |old(nodes)| && old(nodes)[k] == waiter && nodes == Removed(old(nodes), k)
      ensures waiter !in nodes && forall w :: w in old(nodes) ==> w.waiting == old(w.waiting)
    {
      hide Removed, After;
      ghost var k :| 0 <= k < |nodes| && nodes[k] == waiter;
      if first == waiter {
        AfterIs(nodes, 0);
        first := waiter.next;
      } else {
        var parent := first;
        AfterIs(nodes, 0);
        var w := parent.next;
        ghost var i := 1;
        while w != waiter
          invariant Chained(first, nodes) && 1 <= i <= k && w == nodes[i] && parent == nodes[i - 1]
          modifies {}
          decreases k - i
        {
          AfterIs(nodes, i);
          parent := w;
          w := w.next;
          i := i + 1;
          assert w != null;
        }
        parent.next := w.next;
      }
      forall i | 0 <= i < |nodes| - 1 ensures Removed(nodes, k)[i].next == After(Removed(nodes, k), i) {
        RemovedAfter(nodes, k, i);
      }
      nodes := Removed(nodes, k);
    }
  }
}
