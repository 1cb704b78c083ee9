/** include/utility/list.h: Scheduling_List and Multihead_Scheduling_List. The former is the one-head instance. */
module SchedulingLists {
  import opened Sequences
  import opened Lists
  import opened Ranks
  import opened OrderedLists
  import opened SchedulingMachine

  function ItemOf<T>(e: Element<T>): Item<Element<T>>
    reads e
  {
    Item(e, e.rank, e.queue)
  }

  /** q describes nodes, element by element. */
  ghost predicate Listed<T>(q: seq<Item<Element<T>>>, nodes: seq<Element<T>>)
    reads nodes
  {
    && |q| == |nodes|
    && forall i :: 0 <= i < |q| ==> q[i] == ItemOf(nodes[i])
  }

  lemma ListedInsert<T>(q: seq<Item<Element<T>>>, nodes: seq<Element<T>>, k: nat, e: Element<T>)
    requires Listed(q, nodes) && k <= |q|
    ensures Listed(InsertAt(q, k, ItemOf(e)), InsertAt(nodes, k, e))
  {
    InsertAtAt(nodes, k, e);
    InsertAtAt(q, k, ItemOf(e));
  }

  lemma ListedWithout<T>(q: seq<Item<Element<T>>>, nodes: seq<Element<T>>, k: nat)
    requires Listed(q, nodes) && k < |q|
    ensures Listed(Without(q, k), Without(nodes, k))
  {
    WithoutAt(nodes, k);
    WithoutAt(q, k);
  }

  lemma ListedAt<T>(q: seq<Item<Element<T>>>, nodes: seq<Element<T>>, k: nat)
    requires Listed(q, nodes) && k < |nodes|
    ensures k < |q| && q[k] == ItemOf(nodes[k])
  {
  }

  /** The position of what remove(e) takes out of nodes, or the length. */
  ghost function Leaver<T>(nodes: seq<Element<T>>, e: Element<T>, first: bool): (k: nat)
    ensures k <= |nodes|
  {
    if e in nodes then Index(nodes, e) else if nodes == [] || first then 0 else |nodes| - 1
  }

  lemma LeaverIs<T>(nodes: seq<Element<T>>, e: Element<T>, first: bool)
    ensures var k := Leaver(nodes, e, first);
      && (k == |nodes| <==> nodes == [])
      && (e in nodes ==> k < |nodes| && nodes[k] == e)
      && (e !in nodes && nodes != [] ==> Shorter(nodes, first) == Without(nodes, k))
  {
  }

  lemma LeavesAt<T>(nodes: seq<Element<T>>, e: Element<T>, first: bool, i: nat)
    requires Distinct(nodes)
    ensures e in nodes && i < |nodes| && nodes[i] == e ==> i == Leaver(nodes, e, first)
    ensures nodes == [] ==> Shorter(nodes, first) == nodes
  {
  }

  lemma OnlyPlace<T>(nodes: seq<T>, e: T, i: nat)
    requires Distinct(nodes)
    ensures e in nodes && i < |nodes| && nodes[i] == e ==> i == Index(nodes, e)
  {
  }

  /** The machine takes out the same position. */
  lemma ListedLeaver<T>(q: seq<Item<Element<T>>>, nodes: seq<Element<T>>, e: Element<T>, first: bool)
    requires Listed(q, nodes) && Distinct(nodes)
    ensures |q| == |nodes| && (ItemOf(e) in q <==> e in nodes)
    ensures var k := Leaver(nodes, e, first);
      Removed(q, ItemOf(e), first) == if k < |q| then Without(q, k) else q
  {
    if e in nodes {
      var k := Index(nodes, e);
      assert q[k] == ItemOf(e);
      OnlyPlace(nodes, e, Index(q, ItemOf(e)));
    }
  }

  class SchedulingList<T(==)> {
    const base: OrderedList<T>
    const chosen: array<Element?<T>>
    ghost var state: Sched<Element<T>>

    constructor (heads: nat)
      ensures Valid() && chosen.Length == heads && fresh(chosen) && fresh(base) && fresh(base.base)
      ensures state == Sched(seq(heads, _ => Empty), []) && Blank()
    {
      base := new OrderedList<T>(false);
      chosen := new Element?<T>[heads](_ => null);
      state := Sched(seq(heads, _ => Empty), []);
    }

    /** Nobody is queued or running. */
    ghost predicate Blank()
      reads this, base, base.base, chosen
    {
      && base.base.nodes == [] && (forall h :: 0 <= h < chosen.Length ==> chosen[h] == null)
      && Valid() && state == Sched(seq(chosen.Length, _ => Empty), [])
    }

    /** The list holds what the state says is queued. */
    ghost predicate Queued()
      reads this, base, base.base, base.base.nodes
    {
      && base.Valid() && !base.relative
      && Listed(state.queue, base.base.nodes)
    }

    /** The slots hold what the state says is chosen. */
    ghost predicate Running()
      reads this, chosen, set h | 0 <= h < chosen.Length :: chosen[h]
    {
      && |state.chosen| == chosen.Length
      && forall h :: 0 <= h < chosen.Length ==>
           state.chosen[h] == if chosen[h] == null then Empty else Taken(ItemOf(chosen[h]))
    }

    ghost predicate Apart()
      reads this, base, base.base, chosen
    {
      && (forall h :: 0 <= h < chosen.Length && chosen[h] != null ==> chosen[h] !in base.base.nodes)
      && (forall g, h :: 0 <= g < h < chosen.Length && chosen[g] != null ==> chosen[g] != chosen[h])
    }

    /** As Apart, except that the thread in slot h may be queued already. */
    ghost predicate ApartBut(h: nat)
      requires h < chosen.Length
      reads this, base, base.base, chosen
    {
      && (forall g :: 0 <= g < chosen.Length && g != h && chosen[g] != null ==>
            chosen[g] !in base.base.nodes && chosen[g] != chosen[h])
      && (forall f, g :: 0 <= f < g < chosen.Length && chosen[f] != null ==> chosen[f] != chosen[g])
    }

    ghost predicate Valid()
      reads this, base, base.base, base.base.nodes, chosen, set h | 0 <= h < chosen.Length :: chosen[h]
    {
      Queued() && Running() && Apart()
    }

    /** An insertion that changes no rank. */
    method InsertFlat(e: Element<T>, ghost q: seq<Item<Element<T>>>) returns (ghost k: nat)
      requires base.Valid() && !base.relative && e !in base.base.nodes && Listed(q, base.base.nodes)
      modifies base, base.base, base.base.nodes`prev, base.base.nodes`next, base.base.nodes`rank
      modifies e`prev, e`next, e`rank
      ensures base.Valid() && e.rank == old(e.rank)
      ensures k == Position(old(base.ranks), e.rank, false)
      ensures base.base.nodes == InsertAt(old(base.base.nodes), k, e) && Listed(q, old(base.base.nodes))
      ensures forall n :: n in base.base.nodes <==> n in old(base.base.nodes) || n == e
      ensures forall n :: n in old(base.base.nodes) ==> n.rank == old(n.rank)
    {
      ghost var rs, nodes, r := base.ranks, base.base.nodes, e.rank;
      assert InsertRank(rs, r, false) == InsertAt(rs, Position(rs, r, false), r);
      hide InsertAt, InsertRank, Position, List.Valid;
      base.NodesDistinct();
      k := base.Insert(e);
      DistinctInsert(nodes, k, e);
      InsertAtAt(nodes, k, e);
      InsertAtAt(rs, k, r);
      forall i | 0 <= i < |nodes|
        ensures nodes[i].rank == rs[i]
      {
        assert base.base.nodes[if i < k then i else i + 1] == nodes[i];
      }
    }

    /** A removal: k is the position of what leaves, or the length if nothing does. */
    method RemoveFlat(e: Element<T>, ghost q: seq<Item<Element<T>>>) returns (ghost k: nat)
      requires base.Valid() && !base.relative && Listed(q, base.base.nodes)
      modifies base, base.base, base.base.nodes`prev, base.base.nodes`next, base.base.nodes`rank
      modifies base.base.Rewired(e)`prev, base.base.Rewired(e)`next
      ensures e.rank == old(e.rank)
      ensures !old(base.base.Removable(e)) ==> base.base.Miscounts()
      ensures old(base.base.Removable(e)) ==>
        && base.Valid() && k <= |old(base.base.nodes)| && Listed(q, old(base.base.nodes))
        && k == Leaver(old(base.base.nodes), e, old(e.prev) == null)
        && base.base.nodes
           == (if k < |old(base.base.nodes)| then Without(old(base.base.nodes), k) else old(base.base.nodes))
        && forall n :: n in old(base.base.nodes) ==> n.rank == old(n.rank)
    {
      hide OrderedList.Valid, Without, RemoveRank, Shorter, Leaver, Distinct;
      ghost var nodes, first := base.base.nodes, e.prev == null;
      base.NodesDistinct();
      LeaverIs(nodes, e, first);
      k := Leaver(nodes, e, first);
      ghost var i := base.Remove(e);
      LeavesAt(nodes, e, first, i);
    }

    /** Taking the head off changes no rank. */
    method RemoveFirstFlat(ghost q: seq<Item<Element<T>>>) returns (e: Element?<T>)
      requires base.Valid() && !base.relative && Listed(q, base.base.nodes)
      modifies base, base.base, base.base.nodes`prev, base.base.nodes`rank
      ensures base.Valid() && Listed(q, old(base.base.nodes))
      ensures e == null <==> old(base.base.nodes) == []
      ensures e == null ==> base.base.nodes == []
      ensures e != null ==> e == old(base.base.nodes)[0] && base.base.nodes == Without(old(base.base.nodes), 0)
      ensures forall n :: n in old(base.base.nodes) ==> n.rank == old(n.rank)
    {
      ghost var rs, nodes := base.ranks, base.base.nodes;
      hide List.Valid, Without, RemoveRank;
      e := base.RemoveFirst();
      if e != null {
        WithoutAt(nodes, 0);
        RemoveRankAt(rs, 0, false);
        forall i | 0 <= i < |nodes|
          ensures nodes[i].rank == rs[i]
        {
          assert i > 0 ==> base.base.nodes[i - 1] == nodes[i];
        }
      }
    }

    lemma EnqueuesAt(x: Item<Element<T>>)
      requires Queued()
      ensures Position(base.ranks, x.rank, false) <= |state.queue|
      ensures SchedulingMachine.Enqueue(state.queue, x)
           == InsertAt(state.queue, Position(base.ranks, x.rank, false), x)
    {
      assert RanksOf(state.queue) == base.ranks;
    }

    /** Base::insert. */
    method Enqueue(e: Element<T>)
      requires Queued() && e !in base.base.nodes
      modifies this, base, base.base, base.base.nodes`prev, base.base.nodes`next, base.base.nodes`rank
      modifies e`prev, e`next, e`rank
      ensures Queued() && e.rank == old(e.rank)
      ensures forall n :: n in old(base.base.nodes) ==> n.rank == old(n.rank)
      ensures forall n :: n in base.base.nodes <==> n in old(base.base.nodes) || n == e
      ensures state == old(state).(queue := SchedulingMachine.Enqueue(old(state.queue), old(ItemOf(e))))
    {
      hide InsertAt, Position, Listed, List.Valid, OrderedList.Valid, RanksOf, SchedulingMachine.Enqueue;
      ghost var q, nodes, x := state.queue, base.base.nodes, ItemOf(e);
      EnqueuesAt(x);
      var k := InsertFlat(e, q);
      ListedInsert(q, nodes, k, e);
      state := state.(queue := InsertAt(q, k, x));
    }

    /** Base::remove_head. */
    method Dequeue() returns (e: Element?<T>)
      requires Queued()
      modifies this, base, base.base, base.base.nodes`prev, base.base.nodes`rank
      ensures Queued()
      ensures forall n :: n in old(base.base.nodes) ==> n.rank == old(n.rank)
      ensures forall n :: n in base.base.nodes <==> n in old(base.base.nodes) && n != e
      ensures state == old(state).(queue := Tail(old(state.queue)))
      ensures HeadSlot(old(state.queue)) == (if e == null then Empty else Taken(ItemOf(e)))
      ensures e != null ==> e in old(base.base.nodes)
    {
      ghost var q, nodes := state.queue, base.base.nodes;
      base.NodesDistinct();
      assert |q| == |nodes|;
      hide Without, Listed, List.Valid, OrderedList.Valid;
      e := RemoveFirstFlat(q);
      if e != null {
        ListedWithout(q, nodes, 0);
        DistinctWithout(nodes, 0);
        ListedAt(q, nodes, 0);
      }
      state := state.(queue := Tail(q));
    }

    /** Base::remove(e). */
    method Unqueue(e: Element<T>)
      requires Queued()
      modifies this, base, base.base, base.base.nodes`prev, base.base.nodes`next, base.base.nodes`rank
      modifies base.base.Rewired(e)`prev, base.base.Rewired(e)`next
      ensures e.rank == old(e.rank)
      ensures !old(base.base.Removable(e)) ==> base.base.Miscounts()
      ensures old(base.base.Removable(e)) ==>
        && Queued()
        && (forall n :: n in old(base.base.nodes) ==> n.rank == old(n.rank))
        && (forall n :: n in base.base.nodes ==> n in old(base.base.nodes) && n != e)
        && (ItemOf(e) in old(state.queue) <==> e in old(base.base.nodes))
        && state == old(state).(queue := Removed(old(state.queue), ItemOf(e), old(e.prev) == null))
    {
      hide Without, Listed, List.Valid, OrderedList.Valid, Removed, Leaver, Shorter, Distinct;
      ghost var q, nodes, first, safe := state.queue, base.base.nodes, e.prev == null, base.base.Removable(e);
      base.NodesDistinct();
      ListedLeaver(q, nodes, e, first);
      LeaverIs(nodes, e, first);
      ghost var k := RemoveFlat(e, q);
      if safe {
        if k < |nodes| {
          ListedWithout(q, nodes, k);
          DistinctWithout(nodes, k);
        }
        state := state.(queue := if k < |nodes| then Without(q, k) else q);
      }
    }

    /** _chosen[h] = e. */
    method Take(h: nat, e: Element?<T>)
      requires Queued() && Running() && h < chosen.Length
      modifies this, chosen
      ensures Queued() && Running() && chosen[..] == old(chosen[..])[h := e]
      ensures state == old(state).(chosen := old(state.chosen)[h := if e == null then Empty else Taken(ItemOf(e))])
    {
      chosen[h] := e;
      state := state.(chosen := state.chosen[h := if e == null then Empty else Taken(ItemOf(e))]);
    }

    /** _chosen[h] = remove_head(). */
    method Next(h: nat)
      requires Queued() && Running() && h < chosen.Length && ApartBut(h)
      modifies this, base, base.base, base.base.nodes`prev, base.base.nodes`rank, chosen
      ensures Valid()
      ensures forall n :: n in old(base.base.nodes) ==> n.rank == old(n.rank)
      ensures forall n :: n in base.base.nodes <==> n in old(base.base.nodes) && n != chosen[h]
      ensures forall g :: 0 <= g < chosen.Length && g != h ==> chosen[g] == old(chosen[g])
      ensures chosen[h] != null ==> chosen[h] in old(base.base.nodes)
      ensures state == Refill(old(state), h)
    {
      hide OrderedList.Valid, Tail, HeadSlot;
      var next := Dequeue();
      Take(h, next);
    }

    /** insert(e) on head h. */
    method Insert(h: nat, e: Element<T>)
      requires Valid() && h < chosen.Length && e !in base.base.nodes && e !in chosen[..]
      modifies this, base, base.base, base.base.nodes`prev, base.base.nodes`next, base.base.nodes`rank
      modifies e`prev, e`next, e`rank, chosen
      ensures Valid() && e.rank == old(e.rank)
      ensures forall n :: n in old(base.base.nodes) ==> n.rank == old(n.rank)
      ensures forall n :: n in base.base.nodes ==> n in old(base.base.nodes) || n == e
      ensures chosen[h] == old(chosen[h]) || chosen[h] == e
      ensures forall g :: 0 <= g < chosen.Length && g != h ==> chosen[g] == old(chosen[g])
      ensures state == SchedulingMachine.Insert(old(state), h, old(ItemOf(e)))
    {
      hide OrderedList.Valid, SchedulingMachine.Enqueue;
      if chosen[h] != null {
        Enqueue(e);
      } else {
        Take(h, e);
      }
    }

    /** Does remove(e) on head h leave a list? */
    ghost predicate Removable(h: nat, e: Element<T>)
      requires h < chosen.Length
      reads chosen, base, base.base, e
    {
      e == chosen[h] || base.base.Removable(e)
    }

    /** What remove(e) on head h writes to outside the list. */
    ghost function Rewired(h: nat, e: Element<T>): set<Element<T>>
      requires h < chosen.Length
      reads chosen, base, base.base, e
    {
      if e == chosen[h] then {} else base.base.Rewired(e)
    }

    /** remove(e) on head h. A thread that neither runs there nor is queued stays where it is, and the list gives up its
        head or its tail, or loses count. */
    method Remove(h: nat, e: Element<T>)
      requires Valid() && h < chosen.Length
      modifies this, base, base.base, base.base.nodes`prev, base.base.nodes`next, base.base.nodes`rank, chosen
      modifies Rewired(h, e)`prev, Rewired(h, e)`next
      ensures e.rank == old(e.rank)
      ensures !old(Removable(h, e)) ==> base.base.Miscounts()
      ensures old(Removable(h, e)) ==>
        && Valid()
        && (forall n :: n in old(base.base.nodes) ==> n.rank == old(n.rank))
        && e !in base.base.nodes && chosen[h] != e
        && (forall n :: n in base.base.nodes ==> n in old(base.base.nodes))
        && (chosen[h] == null || chosen[h] == old(chosen[h]) || chosen[h] in old(base.base.nodes))
        && (forall g :: 0 <= g < chosen.Length && g != h ==> chosen[g] == old(chosen[g]))
        && (Here(old(state), h, old(ItemOf(e))) <==> e == old(chosen[h]) || e in old(base.base.nodes))
        && state == SchedulingMachine.Remove(old(state), h, old(ItemOf(e)), old(e.prev) == null)
    {
      hide OrderedList.Valid, Tail, HeadSlot, Without, Removed, Refill;
      if e == chosen[h] {
        Next(h);
      } else {
        Unqueue(e);
      }
    }

    /** The thread running on head h goes to the list and the head of the list takes the slot. */
    method Requeue(h: nat, running: Element<T>)
      requires Valid() && h < chosen.Length && chosen[h] == running
      modifies this, base, base.base, base.base.nodes, chosen, running
      ensures Valid() && running.rank == old(running.rank) && running.queue == old(running.queue)
      ensures forall n :: n in base.base.nodes ==> n in old(base.base.nodes) || n == running
      ensures chosen[h] == null || chosen[h] == running || chosen[h] in old(base.base.nodes)
      ensures forall g :: 0 <= g < chosen.Length && g != h ==> chosen[g] == old(chosen[g])
      ensures forall n :: n in old(base.base.nodes) ==> n.rank == old(n.rank) && n.queue == old(n.queue)
      ensures var q := SchedulingMachine.Enqueue(old(state.queue), old(ItemOf(running)));
        state == Refill(old(state).(queue := q), h)
    {
      hide OrderedList.Valid, Refill, SchedulingMachine.Enqueue;
      Enqueue(running);
      assert forall i :: 0 <= i < |base.base.nodes| ==>
        base.base.nodes[i] in old(base.base.nodes) || base.base.nodes[i] == running;
      Next(h);
    }

    /** choose() on head h. */
    method Choose(h: nat) returns (e: Element?<T>)
      requires Valid() && h < chosen.Length && (chosen[h] != null || base.base.nodes == [])
      modifies this, base, base.base, base.base.nodes, chosen, chosen[h]
      ensures Valid() && e == chosen[h]
      ensures forall r :: r == old(chosen[h]) && r != null ==> r.rank == old(r.rank) && r.queue == old(r.queue)
      ensures forall n :: n in old(base.base.nodes) ==> n.rank == old(n.rank) && n.queue == old(n.queue)
      ensures forall n :: n in base.base.nodes ==> n in old(base.base.nodes) || n == old(chosen[h])
      ensures chosen[h] == old(chosen[h]) || chosen[h] in old(base.base.nodes)
      ensures forall g :: 0 <= g < chosen.Length && g != h ==> chosen[g] == old(chosen[g])
      ensures state == SchedulingMachine.Choose(old(state), h)
    {
      base.base.EmptyOrNot();
      hide OrderedList.Valid, Refill, SchedulingMachine.Enqueue;
      if !base.base.Empty() {
        Requeue(h, chosen[h]);
      }
      e := chosen[h];
    }

    lemma HeadRank()
      requires Queued()
      ensures base.base.Empty() <==> state.queue == []
      ensures state.queue != [] ==> base.base.head != null && base.base.head.rank == state.queue[0].rank
    {
      base.base.EmptyOrNot();
    }

    /** The head of the list takes the slot and the thread running there goes to the list. */
    method Rotate(h: nat, running: Element<T>)
      requires Valid() && h < chosen.Length && chosen[h] == running
      modifies this, base, base.base, base.base.nodes, chosen, running
      ensures Valid() && running.rank == old(running.rank) && running.queue == old(running.queue)
      ensures forall n :: n in base.base.nodes ==> n in old(base.base.nodes) || n == running
      ensures chosen[h] == null || chosen[h] == running || chosen[h] in old(base.base.nodes)
      ensures forall g :: 0 <= g < chosen.Length && g != h ==> chosen[g] == old(chosen[g])
      ensures forall n :: n in old(base.base.nodes) ==> n.rank == old(n.rank) && n.queue == old(n.queue)
      ensures var t := Refill(old(state), h);
        state == t.(queue := SchedulingMachine.Enqueue(t.queue, old(ItemOf(running))))
    {
      hide OrderedList.Valid, Refill, SchedulingMachine.Enqueue;
      Next(h);
      assert forall i :: 0 <= i < |base.base.nodes| ==> base.base.nodes[i] in old(base.base.nodes);
      Enqueue(running);
    }

    /** choose_another() on head h. */
    method ChooseAnother(h: nat) returns (e: Element?<T>)
      requires Valid() && h < chosen.Length && (chosen[h] != null || base.base.nodes == [])
      modifies this, base, base.base, base.base.nodes, chosen, chosen[h]
      ensures Valid() && e == chosen[h]
      ensures forall r :: r == old(chosen[h]) && r != null ==> r.rank == old(r.rank) && r.queue == old(r.queue)
      ensures forall n :: n in old(base.base.nodes) ==> n.rank == old(n.rank) && n.queue == old(n.queue)
      ensures forall n :: n in base.base.nodes ==> n in old(base.base.nodes) || n == old(chosen[h])
      ensures chosen[h] == old(chosen[h]) || chosen[h] in old(base.base.nodes)
      ensures forall g :: 0 <= g < chosen.Length && g != h ==> chosen[g] == old(chosen[g])
      ensures state == SchedulingMachine.ChooseAnother(old(state), h)
    {
      HeadRank();
      hide OrderedList.Valid, Refill, SchedulingMachine.Enqueue;
      if !base.base.Empty() && base.base.head.rank != IDLE {
        Rotate(h, chosen[h]);
      }
      e := chosen[h];
    }

    /** The thread running on head h gets another rank and queue number. */
    method Retag(h: nat, e: Element<T>, rank: int, queue: nat)
      requires Valid() && h < chosen.Length && e == chosen[h]
      modifies this, e`rank, e`queue
      ensures Valid() && state == old(state).(chosen := old(state.chosen)[h := Taken(Item(e, rank, queue))])
    {
      hide List.Valid;
      e.rank := rank;
      e.queue := queue;
      state := state.(chosen := state.chosen[h := Taken(ItemOf(e))]);
    }
  }
}
