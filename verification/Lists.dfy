/** include/utility/list.h: the intrusive doubly linked list every kernel queue is built on. */
module Lists {
  import opened Sequences

  /** A list element: the ordered variants use its rank, the grouping variant its size. */
  class Element<T> {
    var obj: T
    var rank: int
    var queue: nat
    var size: nat
    var prev: Element?<T>
    var next: Element?<T>

    constructor (o: T, r: int)
      ensures obj == o && rank == r && queue == 0 && size == 0 && prev == null && next == null
    {
      obj := o;
      rank := r;
      queue := 0;
      size := 0;
      prev := null;
      next := null;
    }
  }

  class List<T(==)> {
    var size: nat
    var head: Element?<T>
    var tail: Element?<T>
    ghost var nodes: seq<Element<T>>

    ghost predicate Valid()
      reads this, nodes
    {
      && size == |nodes|
      && (|nodes| == 0 ==> head == null && tail == null)
      && (|nodes| > 0 ==>
            && head == nodes[0] && tail == nodes[|nodes| - 1]
            && nodes[0].prev == null && nodes[|nodes| - 1].next == null)
      && (forall i {:trigger nodes[i].prev} :: 1 <= i < |nodes| ==> nodes[i].prev == nodes[i - 1])
      && (forall i {:trigger nodes[i].next} :: 0 <= i < |nodes| - 1 ==> nodes[i].next == nodes[i + 1])
      && Distinct(nodes)
    }

    /** The links of the element at position i. */
    lemma Links(i: nat)
      requires Valid() && i < |nodes|
      ensures nodes[i].prev == (if i > 0 then nodes[i - 1] else null)
      ensures nodes[i].next == (if i + 1 < |nodes| then nodes[i + 1] else null)
      ensures Distinct(nodes)
    {
    }

    lemma EmptyOrNot()
      requires Valid()
      ensures Empty() <==> nodes == []
      ensures nodes != [] ==> head == nodes[0]
    {
    }

    lemma NodesDistinct()
      requires Valid()
      ensures Distinct(nodes)
    {
    }

    lemma SizeIs()
      requires Valid()
      ensures size == |nodes|
    {
    }

    constructor ()
      ensures Valid() && nodes == []
    {
      size := 0;
      head := null;
      tail := null;
      nodes := [];
    }

    predicate Empty()
      reads this
    {
      size == 0
    }

    /** A new rank touches no link. */
    method SetRank(e: Element<T>, r: int)
      requires Valid()
      modifies e`rank
      ensures Valid() && e.rank == r
    {
      hide Distinct;
      e.rank := r;
    }

    method InsertFirst(e: Element<T>)
      requires Valid() && nodes == []
      modifies this, e`prev, e`next
      ensures Valid() && nodes == [e]
    {
      e.prev := null;
      e.next := null;
      head := e;
      tail := e;
      size := size + 1;
      nodes := [e];
    }

    method InsertHead(e: Element<T>)
      requires Valid() && e !in nodes
      modifies this, nodes`prev, e`prev, e`next
      ensures Valid() && nodes == [e] + old(nodes)
    {
      if Empty() {
        InsertFirst(e);
      } else {
        e.prev := null;
        e.next := head;
        head.prev := e;
        head := e;
        size := size + 1;
        nodes := [e] + nodes;
      }
    }

    method InsertTail(e: Element<T>)
      requires Valid() && e !in nodes
      modifies this, nodes`next, e`prev, e`next
      ensures Valid() && nodes == old(nodes) + [e]
    {
      if Empty() {
        InsertFirst(e);
      } else {
        tail.next := e;
        e.prev := tail;
        e.next := null;
        tail := e;
        size := size + 1;
        nodes := nodes + [e];
      }
    }

    /** Insert e between the neighbours p and n, at position k. */
    method InsertBetween(e: Element<T>, p: Element<T>, n: Element<T>, ghost k: nat)
      requires Valid() && e !in nodes
      requires 1 <= k < |nodes| && p == nodes[k - 1] && n == nodes[k]
      modifies this, nodes`prev, nodes`next, e`prev, e`next
      ensures Valid() && nodes == InsertAt(old(nodes), k, e)
    {
      DistinctInsert(nodes, k, e);
      InsertAtAt(nodes, k, e);
      hide InsertAt;
      p.next := e;
      n.prev := e;
      e.prev := p;
      e.next := n;
      size := size + 1;
      nodes := InsertAt(nodes, k, e);
    }

    method RemoveLast() returns (e: Element?<T>)
      requires Valid() && |nodes| == 1
      modifies this
      ensures Valid() && nodes == [] && e == old(nodes)[0]
    {
      e := head;
      head := null;
      tail := null;
      size := size - 1;
      nodes := [];
    }

    method RemoveHead() returns (e: Element?<T>)
      requires Valid()
      modifies this, nodes`prev
      ensures Valid()
      ensures old(nodes) == [] ==> e == null && nodes == []
      ensures old(nodes) != [] ==>
        && e == old(nodes)[0] && nodes == old(nodes)[1..]
        && e.prev == old(nodes[0].prev) && e.next == old(nodes[0].next)
    {
      if Empty() {
        return null;
      }
      if size == 1 {
        e := RemoveLast();
        return;
      }
      Links(0);
      Links(1);
      ghost var rest := nodes[1..];
      assert rest[0] == nodes[1] && rest[|rest| - 1] == tail;
      e := head;
      head := head.next;
      head.prev := null;
      size := size - 1;
      nodes := rest;
    }

    method RemoveTail() returns (e: Element?<T>)
      requires Valid()
      modifies this, nodes`next
      ensures Valid()
      ensures old(nodes) == [] ==> e == null && nodes == []
      ensures old(nodes) != [] ==>
        && e == old(nodes)[|old(nodes)| - 1] && nodes == old(nodes)[..|old(nodes)| - 1]
        && e.next == old(nodes[|nodes| - 1].next)
    {
      if Empty() {
        return null;
      }
      if size == 1 {
        e := RemoveLast();
        return;
      }
      Links(|nodes| - 1);
      Links(|nodes| - 2);
      ghost var rest := nodes[..|nodes| - 1];
      assert rest[0] == head && rest[|rest| - 1] == tail.prev;
      e := tail;
      tail := tail.prev;
      tail.next := null;
      size := size - 1;
      nodes := rest;
    }

    /** Unlink e from the neighbours it has on both sides: e is at position k or, for k behind the end, not in the list,
        and then its neighbours are whatever they have become. */
    method Unlink(e: Element<T>, p: Element<T>, n: Element<T>, ghost k: nat)
      requires Valid() && k <= |nodes| && p == e.prev && n == e.next
      requires k < |nodes| ==> 1 <= k < |nodes| - 1 && e == nodes[k] && p == nodes[k - 1] && n == nodes[k + 1]
      modifies this, p`next, n`prev
      ensures k < |old(nodes)| ==> Valid() && nodes == Without(old(nodes), k)
      ensures k == |old(nodes)| ==> nodes == old(nodes) && Miscounts() && p.next == n && n.prev == p
      ensures e.next == old(e.next) && e.prev == old(e.prev)
    {
      if k < |nodes| {
        DistinctWithout(nodes, k);
        WithoutAt(nodes, k);
        ghost var rest := Without(nodes, k);
        assert rest[k - 1] == p && rest[k] == n && rest[0] == head && rest[|rest| - 1] == tail;
        nodes := rest;
      }
      hide Without;
      p.next := n;
      n.prev := p;
      size := if size > 0 then size - 1 else 0xFFFF_FFFF_FFFF_FFFF;
    }

    /** One element less was counted than there are, modulo 2^64. */
    ghost predicate Miscounts()
      reads this
    {
      size == if |nodes| > 0 then |nodes| - 1 else 0xFFFF_FFFF_FFFF_FFFF
    }

    /** Does remove(e) take e for the only element, the head or the tail? */
    predicate Detachable(e: Element<T>)
      reads this, e
    {
      size == 1 || e.prev == null || e.next == null
    }

    /** Does remove(e) leave a list? */
    ghost predicate Removable(e: Element<T>)
      reads this, e
    {
      e in nodes || Detachable(e)
    }

    /** The elements outside the list that remove(e) writes to: the neighbours that a stray still points at. */
    ghost function Rewired(e: Element<T>): (ns: set<Element<T>>)
      reads this, e
    {
      if Removable(e) then {} else {e.prev, e.next}
    }

    /** Take e, found at position k, out; its own links keep pointing at its old neighbours. If e is not in the list,
        the list gives up its head or its tail instead, or the neighbours e points at are linked with each other and
        the size falls short by one. */
    method Remove(e: Element<T>) returns (ghost k: nat)
      requires Valid()
      modifies this, nodes`prev, nodes`next, Rewired(e)`prev, Rewired(e)`next
      ensures e.next == old(e.next) && e.prev == old(e.prev)
      ensures old(Removable(e)) ==> Valid()
      ensures e in old(nodes) ==>
        && k < |old(nodes)| && e == old(nodes)[k] && nodes == Without(old(nodes), k)
        && e.next == (if k + 1 < |old(nodes)| then old(nodes)[k + 1] else null)
      ensures e !in old(nodes) && old(Removable(e)) ==> nodes == Shorter(old(nodes), e.prev == null)
      ensures !old(Removable(e)) ==>
        nodes == old(nodes) && Miscounts() && e.prev.next == e.next && e.next.prev == e.prev
    {
      hide Valid, Without, Distinct;
      k := if e in nodes then Index(nodes, e) else |nodes|;
      SizeIs();
      if k < |nodes| {
        Links(k);
        WithoutEnds(nodes, k);
      }
      if size == 1 {
        var _ := RemoveLast();
      } else if e.prev == null {
        var _ := RemoveHead();
      } else if e.next == null {
        var _ := RemoveTail();
      } else {
        Unlink(e, e.prev, e.next, k);
      }
    }

    /** The first element whose object is o, or null. */
    method Search(o: T) returns (e: Element?<T>)
      requires Valid()
      ensures e == null ==> forall n :: n in nodes ==> n.obj != o
      ensures e != null ==> e in nodes && e.obj == o
    {
      e := head;
      ghost var i := 0;
      while e != null && e.obj != o
        invariant 0 <= i <= |nodes|
        invariant if i < |nodes| then e == nodes[i] else e == null
        invariant forall j :: 0 <= j < i ==> nodes[j].obj != o
        decreases |nodes| - i
      {
        e := e.next;
        i := i + 1;
      }
    }
  }
}
