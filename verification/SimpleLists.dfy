/** include/utility/list.h: Simple_List and Simple_Ordered_List, the singly linked list of a hash's synonyms. */
module SimpleLists {
  import opened Sequences
  import opened Lists
  import opened Ranks

  class SimpleOrderedList<T(==)> {
    var size: nat
    var head: Element?<T>
    var tail: Element?<T>
    ghost var nodes: seq<Element<T>>

    ghost predicate Valid()
      reads this, nodes
    {
      && size == |nodes|
      && (if nodes == [] then head == null && tail == null
          else head == nodes[0] && tail == nodes[|nodes| - 1] && nodes[|nodes| - 1].next == null)
      && (forall i {:trigger nodes[i].next} :: 0 <= i < |nodes| - 1 ==> nodes[i].next == nodes[i + 1])
      && Distinct(nodes)
    }

    ghost function Keys(): (ks: seq<int>)
      reads nodes, this
      ensures |ks| == |nodes| && forall i :: 0 <= i < |ks| ==> ks[i] == nodes[i].rank
    {
      seq(|nodes|, i requires 0 <= i < |nodes| reads this, nodes => nodes[i].rank)
    }

    constructor ()
      ensures Valid() && nodes == []
    {
      size, head, tail := 0, null, null;
      nodes := [];
    }

    lemma Links(i: nat)
      requires Valid() && i < |nodes|
      ensures nodes[i].next == (if i + 1 < |nodes| then nodes[i + 1] else null)
    {
    }

    method InsertFirst(e: Element<T>)
      requires Valid() && nodes == []
      modifies this, e`next
      ensures Valid() && nodes == [e]
    {
      e.next := null;
      head := e;
      tail := e;
      size := size + 1;
      nodes := [e];
    }

    method InsertHead(e: Element<T>)
      requires Valid() && e !in nodes && nodes != []
      modifies this, e`next
      ensures Valid() && nodes == [e] + old(nodes)
    {
      e.next := head;
      head := e;
      size := size + 1;
      nodes := [e] + nodes;
    }

    method InsertTail(e: Element<T>)
      requires Valid() && e !in nodes && nodes != []
      modifies this, nodes`next, e`next
      ensures Valid() && nodes == old(nodes) + [e]
    {
      tail.next := e;
      e.next := null;
      tail := e;
      size := size + 1;
      nodes := nodes + [e];
    }

    method InsertBetween(e: Element<T>, p: Element<T>, n: Element<T>, ghost k: nat)
      requires Valid() && e !in nodes && 0 < k < |nodes| && p == nodes[k - 1] && n == nodes[k]
      modifies this, nodes`next, e`next
      ensures Valid() && nodes == InsertAt(old(nodes), k, e)
    {
      DistinctInsert(nodes, k, e);
      InsertAtAt(nodes, k, e);
      hide InsertAt;
      p.next := e;
      e.next := n;
      size := size + 1;
      nodes := InsertAt(nodes, k, e);
    }

    /** Walk to where e goes: in front of next, or behind it if it is the last. */
    method Walk(e: Element<T>) returns (next: Element<T>, prev: Element?<T>, ghost i: nat)
      requires Valid() && nodes != []
      ensures i < |nodes| && next == nodes[i] && (if i == 0 then prev == null else prev == nodes[i - 1])
      ensures if next.rank <= e.rank then i + 1 == |nodes| == Position(Keys(), e.rank, false)
              else i == Position(Keys(), e.rank, false)
    {
      ghost var ks, k := Keys(), Position(Keys(), e.rank, false);
      PositionSplits(ks, e.rank);
      hide Position;
      next := head;
      prev := null;
      i := 0;
      while next.rank <= e.rank && next.next != null
        invariant i < |nodes| && next == nodes[i] && i <= k
        invariant if i == 0 then prev == null else prev == nodes[i - 1]
        decreases |nodes| - i
      {
        prev := next;
        next := next.next;
        i := i + 1;
      }
    }

    /** Insert by key, behind its equals. */
    method Insert(e: Element<T>)
      requires Valid() && e !in nodes
      modifies this, nodes`next, e`next
      ensures Valid() && nodes == InsertAt(old(nodes), Position(old(Keys()), e.rank, false), e)
    {
      hide Position, Distinct;
      if size == 0 {
        InsertFirst(e);
        return;
      }
      var next, prev, i := Walk(e);
      InsertAtEnds(nodes, e);
      if next.rank <= e.rank {
        InsertTail(e);
      } else if prev == null {
        InsertHead(e);
      } else {
        InsertBetween(e, prev, next, i);
      }
    }

    lemma InsertAtEnds(s: seq<Element<T>>, e: Element<T>)
      ensures InsertAt(s, |s|, e) == s + [e] && InsertAt(s, 0, e) == [e] + s
    {
    }

    /** The first element with this key, or null. */
    method SearchRank(key: int) returns (e: Element?<T>)
      requires Valid()
      ensures e == null ==> forall n :: n in nodes ==> n.rank != key
      ensures e != null ==>
        && e.rank == key
        && exists i :: 0 <= i < |nodes| && nodes[i] == e && forall j :: 0 <= j < i ==> nodes[j].rank != key
    {
      e := head;
      ghost var i := 0;
      while e != null && e.rank != key
        invariant 0 <= i <= |nodes|
        invariant if i < |nodes| then e == nodes[i] else e == null
        invariant forall j :: 0 <= j < i ==> nodes[j].rank != key
        decreases |nodes| - i
      {
        e := e.next;
        i := i + 1;
      }
    }

    method RemoveLast()
      requires Valid() && |nodes| == 1
      modifies this
      ensures Valid() && nodes == []
    {
      head := null;
      tail := null;
      size := size - 1;
      nodes := [];
    }

    method RemoveHead()
      requires Valid() && |nodes| > 1
      modifies this
      ensures Valid() && nodes == old(nodes)[1..]
    {
      ghost var rest := nodes[1..];
      assert rest[0] == nodes[1] && rest[|rest| - 1] == tail;
      head := head.next;
      size := size - 1;
      nodes := rest;
    }

    lemma Ends()
      requires Valid()
      ensures size == |nodes| && (nodes != [] ==> head == nodes[0])
      ensures Distinct(nodes)
    {
    }

    /** Unlink e, found by walking up to its predecessor. */
    method Remove(e: Element<T>)
      requires Valid() && e in nodes
      modifies this, nodes`next
      ensures Valid() && nodes == Without(old(nodes), Index(old(nodes), e))
    {
      Ends();
      ghost var k := Index(nodes, e);
      WithoutEnds(nodes, k);
      hide Valid, Without;
      if size == 1 {
        RemoveLast();
      } else if e == head {
        RemoveHead();
      } else {
        var p := Predecessor(e, k);
        Unlink(e, p, k);
      }
    }

    /** The element in front of e. */
    method Predecessor(e: Element<T>, ghost k: nat) returns (p: Element<T>)
      requires Valid() && 0 < k < |nodes| && e == nodes[k]
      ensures p == nodes[k - 1]
    {
      p := head;
      ghost var i := 0;
      while p.next != null && p.next != e
        invariant 0 <= i < k && p == nodes[i]
        decreases k - i
      {
        Links(i);
        assert i + 1 != k;
        p := p.next;
        i := i + 1;
      }
      Links(i);
      assert nodes[i + 1] == e;
    }

    method Unlink(e: Element<T>, p: Element<T>, ghost k: nat)
      requires Valid() && 0 < k < |nodes| && e == nodes[k] && p == nodes[k - 1]
      modifies this, nodes`next
      ensures Valid() && nodes == Without(old(nodes), k)
    {
      Links(k);
      WithoutAt(nodes, k);
      DistinctWithout(nodes, k);
      ghost var rest := Without(nodes, k);
      assert rest[0] == head && rest[|rest| - 1] == if e == tail then p else tail;
      hide Without;
      p.next := e.next;
      if e == tail {
        tail := p;
      }
      size := size - 1;
      nodes := rest;
    }
  }
}
