/** include/utility/list.h: Scheduling_Multilist, one scheduling list per queue number. */
module SchedulingMultilists {
  import opened Lists
  import opened OrderedLists
  import opened SchedulingMachine
  import opened SchedulingLists
  import opened MultilistMachine

  twostate predicate Same<T>(n: Element<T>)
    reads n
  {
    n.prev == old(n.prev) && n.next == old(n.next) && n.rank == old(n.rank) && n.queue == old(n.queue)
  }

  /** What l is made of was left alone, except for the links of the threads running there. */
  twostate predicate Untouched<T>(l: SchedulingList<T>)
    reads l, l.base, l.base.base, l.base.base.nodes, l.chosen, set h | 0 <= h < l.chosen.Length :: l.chosen[h]
  {
    && unchanged(l) && unchanged(l.base) && unchanged(l.base.base) && unchanged(l.chosen)
    && (forall i :: 0 <= i < |l.base.base.nodes| ==> Same(l.base.base.nodes[i]))
    && (forall h :: 0 <= h < l.chosen.Length && l.chosen[h] != null ==>
          l.chosen[h].rank == old(l.chosen[h].rank) && l.chosen[h].queue == old(l.chosen[h].queue))
  }

  twostate lemma UntouchedLinks<T>(l: SchedulingList<T>)
    requires old(l.base.base.Valid()) && Untouched(l)
    ensures l.base.base.Valid()
  {
  }

  twostate lemma UntouchedValid<T>(l: SchedulingList<T>)
    requires old(l.Valid()) && Untouched(l)
    ensures l.Valid() && l.state == old(l.state)
  {
    assert l.base.base.Valid() by {
      assert old(l.base.base.Valid());
      UntouchedLinks(l);
    }
    hide List.Valid;
    assert Listed(l.state.queue, l.base.base.nodes);
  }

  /** No two lists share any of what they are made of. */
  ghost predicate Apart<T>(ls: seq<SchedulingList<T>>) {
    forall p, q :: 0 <= p < |ls| && 0 <= q < |ls| && p != q ==>
      && ls[p] != ls[q] && ls[p].base != ls[q].base
      && ls[p].base.base != ls[q].base.base && ls[p].chosen != ls[q].chosen
  }

  class SchedulingMultilist<T(==)> {
    const lists: seq<SchedulingList<T>>
    const heads: nat
    ghost const parts: set<object>  // the lists and what they are made of
    ghost var threads: set<Element<T>>  // what they hold

    ghost function State(): (m: seq<Sched<Element<T>>>)
      reads lists
      ensures |m| == |lists| && forall q :: 0 <= q < |lists| ==> m[q] == lists[q].state
    {
      seq(|lists|, q requires 0 <= q < |lists| reads lists => lists[q].state)
    }

    ghost predicate Separate() {
      Apart(lists)
    }

    ghost predicate AllValid()
      reads *
    {
      forall q :: 0 <= q < |lists| ==> lists[q].Valid() && lists[q].chosen.Length == heads
    }

    /** No thread queued in list p is in another list. */
    ghost predicate Foreign(p: nat)
      requires p < |lists|
      reads *
    {
      forall r, n :: 0 <= r < |lists| && r != p && n in lists[p].base.base.nodes ==>
        n !in lists[r].base.base.nodes && n !in lists[r].chosen[..]
    }

    ghost predicate ContainedAt(q: nat)
      requires q < |lists|
      reads *
    {
      && {lists[q], lists[q].base, lists[q].base.base, lists[q].chosen} <= parts
      && (forall n :: n in lists[q].base.base.nodes ==> n in threads)
      && (forall h :: 0 <= h < lists[q].chosen.Length && lists[q].chosen[h] != null ==> lists[q].chosen[h] in threads)
    }

    ghost predicate Contained()
      reads *
    {
      this !in parts && forall q :: 0 <= q < |lists| ==> ContainedAt(q)
    }

    /** e is in no list, except perhaps list q. */
    ghost predicate GoneBut(q: nat, e: Element<T>)
      reads *
    {
      forall r :: 0 <= r < |lists| && r != q ==> e !in lists[r].base.base.nodes && e !in lists[r].chosen[..]
    }

    ghost predicate Gone(e: Element<T>)
      reads *
    {
      forall r :: 0 <= r < |lists| ==> e !in lists[r].base.base.nodes && e !in lists[r].chosen[..]
    }

    ghost predicate Valid()
      reads *
    {
      Separate() && AllValid() && Contained() && MInv(State(), heads)
    }

    /** The places of a list are those its state tells. */
    lemma Places(q: nat, n: Element<T>)
      requires AllValid() && q < |lists|
      ensures n in lists[q].base.base.nodes ==> exists y :: y in multiset(lists[q].state.queue) && y.id == n
      ensures n in lists[q].chosen[..] ==> exists y :: y in ChosenItems(lists[q].state.chosen) && y.id == n
    {
      var l := lists[q];
      if n in l.base.base.nodes {
        var i :| 0 <= i < |l.base.base.nodes| && l.base.base.nodes[i] == n;
        assert l.state.queue[i] in multiset(l.state.queue);
      }
      if n in l.chosen[..] {
        var h :| 0 <= h < l.chosen.Length && l.chosen[h] == n;
        ChosenMember(l.state.chosen, h);
      }
    }

    lemma OnePlace(p: nat, q: nat, n: Element<T>)
      requires Valid() && p < |lists| && q < |lists| && p != q
      requires n in lists[p].base.base.nodes || n in lists[p].chosen[..]
      ensures n !in lists[q].base.base.nodes && n !in lists[q].chosen[..]
    {
      hide AllValid, MInv, ChosenItems;
      Places(p, n);
      Places(q, n);
      forall y, z | y in Members(State()[p]) && z in Members(State()[q])
        ensures y.id != z.id
      {
        Elsewhere(State(), heads, p, q, y, z);
      }
    }

    lemma ForeignAll(p: nat)
      requires Valid() && p < |lists|
      ensures Foreign(p)
    {
      hide Valid;
      forall r, n | 0 <= r < |lists| && r != p && n in lists[p].base.base.nodes
        ensures n !in lists[r].base.base.nodes && n !in lists[r].chosen[..]
      {
        OnePlace(p, r, n);
      }
    }

    lemma RunningAlone(q: nat, h: nat)
      requires Valid() && q < |lists| && h < heads && lists[q].chosen[h] != null
      ensures forall r :: 0 <= r < |lists| ==> lists[q].chosen[h] !in lists[r].base.base.nodes
      ensures forall r :: 0 <= r < |lists| && r != q ==> lists[q].chosen[h] !in lists[r].chosen[..]
    {
      var x := lists[q].chosen[h];
      assert x in lists[q].chosen[..];
      assert x !in lists[q].base.base.nodes;
      hide Valid;
      forall r | 0 <= r < |lists| && r != q
        ensures x !in lists[r].base.base.nodes && x !in lists[r].chosen[..]
      {
        OnePlace(q, r, x);
      }
    }

    lemma AllBlank()
      requires Separate() && this !in parts && threads == {}
      requires forall q :: 0 <= q < |lists| ==>
        && {lists[q], lists[q].base, lists[q].base.base, lists[q].chosen} <= parts
        && lists[q].Blank() && lists[q].chosen.Length == heads
      ensures Valid() && State() == seq(|lists|, _ => Sched(seq(heads, _ => Empty), []))
      ensures forall e :: Gone(e)
    {
      NobodyYet(State(), heads);
    }

    constructor (queues: nat, heads: nat)
      ensures Valid() && |lists| == queues && this.heads == heads && fresh(parts)
      ensures State() == seq(queues, _ => Sched(seq(heads, _ => Empty), []))
      ensures forall e :: Gone(e)
    {
      hide List.Valid, OrderedList.Valid, SchedulingList.Valid, SchedulingList.Blank;
      var ls: seq<SchedulingList<T>> := [];
      ghost var ps: set<object> := {};
      while |ls| < queues
        invariant |ls| <= queues && fresh(ps)
        invariant forall q :: 0 <= q < |ls| ==>
          {ls[q], ls[q].base, ls[q].base.base, ls[q].chosen} <= ps && ls[q].Blank() && ls[q].chosen.Length == heads
        invariant Apart(ls)
      {
        var l := new SchedulingList<T>(heads);
        ps := ps + {l, l.base, l.base.base, l.chosen};
        ls := ls + [l];
      }
      lists := ls;
      this.heads := heads;
      parts := ps;
      threads := {};
      new;
      AllBlank();
    }

    lemma FrameOf(q: nat)
      requires Contained() && q < |lists|
      ensures {lists[q], lists[q].base, lists[q].base.base, lists[q].chosen} <= parts
      ensures forall n :: n in lists[q].base.base.nodes ==> n in threads
      ensures forall h :: 0 <= h < lists[q].chosen.Length && lists[q].chosen[h] != null ==>
        lists[q].chosen[h] in threads
    {
      assert ContainedAt(q);
    }

    /** Nothing that another list holds is queued in list q. */
    ghost predicate NoneOf(q: nat)
      requires q < |lists|
      reads *
    {
      forall r :: 0 <= r < |lists| && r != q ==>
        && (forall i :: 0 <= i < |lists[r].base.base.nodes| ==>
              && lists[r].base.base.nodes[i] in lists[r].base.base.nodes
              && lists[r].base.base.nodes[i] !in lists[q].base.base.nodes)
        && (forall g :: 0 <= g < lists[r].chosen.Length ==> lists[r].chosen[g] in lists[r].chosen[..])
    }

    lemma ForeignNone(q: nat)
      requires q < |lists| && Foreign(q)
      ensures NoneOf(q)
    {
    }

    /** What lists other than q are made of was left alone: they are as they were. */
    twostate lemma OthersKeep(q: nat)
      requires old(AllValid()) && old(Contained()) && threads == old(threads)
      requires forall r :: 0 <= r < |lists| && r != q ==> Untouched(lists[r])
      ensures forall r :: 0 <= r < |lists| && r != q ==>
        lists[r].Valid() && lists[r].state == old(lists[r].state) && ContainedAt(r)
    {
      forall r | 0 <= r < |lists| && r != q
        ensures lists[r].Valid() && lists[r].state == old(lists[r].state) && ContainedAt(r)
      {
        assert old(ContainedAt(r));
        UntouchedValid(lists[r]);
      }
    }

    /** e becomes one of the threads held. */
    ghost method Adopt(e: Element<T>)
      requires Separate() && AllValid() && Contained()
      modifies `threads
      ensures AllValid() && Contained() && threads == old(threads) + {e} && State() == old(State())
      ensures forall p :: 0 <= p < |lists| && old(Foreign(p)) ==> Foreign(p)
    {
      hide List.Valid, OrderedList.Valid;
      threads := threads + {e};
      forall q | 0 <= q < |lists|
        ensures ContainedAt(q) && lists[q].Valid()
      {
        assert old(ContainedAt(q)) && old(lists[q].Valid());
      }
    }

    method InsertInto(p: nat, h: nat, x: Element<T>)
      requires Separate() && AllValid() && Contained() && p < |lists| && h < heads && Foreign(p)
      requires x !in lists[p].chosen[..] && x in threads
      requires forall r :: 0 <= r < |lists| ==> x !in lists[r].base.base.nodes
      modifies lists[p], lists[p].base, lists[p].base.base, lists[p].chosen, x
      modifies lists[p].base.base.nodes`prev, lists[p].base.base.nodes`next, lists[p].base.base.nodes`rank
      ensures AllValid() && Contained() && x.rank == old(x.rank) && x.queue == old(x.queue)
      ensures forall n :: n in lists[p].base.base.nodes ==> n in old(lists[p].base.base.nodes) || n == x
      ensures forall g :: 0 <= g < heads ==> lists[p].chosen[g] == old(lists[p].chosen[g]) || lists[p].chosen[g] == x
      ensures State() == old(State())[p := SchedulingMachine.Insert(old(lists[p].state), h, old(ItemOf(x)))]
    {
      hide SchedulingMachine.Insert, List.Valid, OrderedList.Valid;
      assert ContainedAt(p);
      ForeignNone(p);
      lists[p].Insert(h, x);
      assert ContainedAt(p);
      forall r | 0 <= r < |lists| && r != p
        ensures Untouched(lists[r])
      {
      }
      OthersKeep(p);
    }

    method RefillSlot(q: nat, h: nat)
      requires Separate() && AllValid() && Contained() && q < |lists| && h < heads && Foreign(q)
      modifies lists[q], lists[q].base, lists[q].base.base, lists[q].chosen
      modifies lists[q].base.base.nodes`prev, lists[q].base.base.nodes`rank
      ensures AllValid() && Contained()
      ensures State() == old(State())[q := Refill(old(lists[q].state), h)]
    {
      hide Refill, List.Valid, OrderedList.Valid;
      assert ContainedAt(q);
      ForeignNone(q);
      lists[q].Next(h);
      assert ContainedAt(q);
      forall r | 0 <= r < |lists| && r != q
        ensures Untouched(lists[r])
      {
      }
      OthersKeep(q);
    }

    method RemoveFrom(q: nat, h: nat, e: Element<T>)
      requires Separate() && AllValid() && Contained() && q < |lists| && h < heads && Foreign(q)
      modifies lists[q], lists[q].base, lists[q].base.base, lists[q].chosen
      modifies lists[q].base.base.nodes`prev, lists[q].base.base.nodes`next, lists[q].base.base.nodes`rank
      modifies lists[q].Rewired(h, e)`prev, lists[q].Rewired(h, e)`next
      ensures !old(lists[q].Removable(h, e)) ==> !AllValid() && lists[q].base.base.Miscounts()
      ensures old(lists[q].Removable(h, e)) ==>
        && AllValid() && Contained() && e.queue == old(e.queue)
        && e !in lists[q].base.base.nodes && lists[q].chosen[h] != e
        && (forall g :: 0 <= g < heads && g != h ==> lists[q].chosen[g] == old(lists[q].chosen[g]))
        && (forall r :: 0 <= r < |lists| && r != q ==>
              && lists[r].base.base.nodes == old(lists[r].base.base.nodes)
              && lists[r].chosen[..] == old(lists[r].chosen[..]))
        && (Here(old(lists[q].state), h, old(ItemOf(e))) <==>
              e == old(lists[q].chosen[h]) || e in old(lists[q].base.base.nodes))
        && lists[q].state == SchedulingMachine.Remove(old(lists[q].state), h, old(ItemOf(e)), old(e.prev) == null)
        && (forall r :: 0 <= r < |lists| && r != q ==> lists[r].state == old(lists[r].state))
    {
      hide SchedulingMachine.Remove, Here, List.Valid, OrderedList.Valid;
      hide SchedulingList.Removable, SchedulingList.Rewired;
      assert ContainedAt(q);
      ForeignNone(q);
      ghost var safe := lists[q].Removable(h, e);
      NothingRewired(q, h, e);
      lists[q].Remove(h, e);
      if safe {
        assert ContainedAt(q);
        forall r | 0 <= r < |lists| && r != q
          ensures Untouched(lists[r])
        {
        }
        OthersKeep(q);
      } else {
        WrongSize(q);
      }
    }

    lemma NothingRewired(q: nat, h: nat, e: Element<T>)
      requires q < |lists| && h < lists[q].chosen.Length
      ensures lists[q].Removable(h, e) ==> lists[q].Rewired(h, e) == {}
    {
    }

    lemma WrongSize(q: nat)
      requires q < |lists| && lists[q].base.base.Miscounts()
      ensures !AllValid()
    {
      assert !lists[q].base.base.Valid();
    }

    method ChooseOn(q: nat, h: nat, another: bool) returns (e: Element?<T>)
      requires Separate() && AllValid() && Contained() && q < |lists| && h < heads && Foreign(q)
      requires lists[q].chosen[h] != null
      requires forall r :: 0 <= r < |lists| ==> lists[q].chosen[h] !in lists[r].base.base.nodes
      modifies lists[q], lists[q].base, lists[q].base.base, lists[q].chosen, lists[q].chosen[h]
      modifies lists[q].base.base.nodes
      ensures AllValid() && Contained() && e == lists[q].chosen[h]
      ensures State() == old(State())[q := if another then SchedulingMachine.ChooseAnother(old(lists[q].state), h)
                                           else SchedulingMachine.Choose(old(lists[q].state), h)]
    {
      hide SchedulingMachine.Choose, SchedulingMachine.ChooseAnother, List.Valid, OrderedList.Valid;
      var x: Element<T> := lists[q].chosen[h];
      assert ContainedAt(q);
      ForeignNone(q);
      if another {
        e := lists[q].ChooseAnother(h);
      } else {
        e := lists[q].Choose(h);
      }
      assert ContainedAt(q);
      forall r | 0 <= r < |lists| && r != q
        ensures Untouched(lists[r])
      {
      }
      OthersKeep(q);
    }

    /** Insert the thread running on head h of list q into the list of its own number, p. */
    method Move(q: nat, h: nat, x: Element<T>, p: nat)
      requires Valid() && Runs(State(), q, h) && x == lists[q].chosen[h] && p == x.queue != q
      modifies lists[p], lists[p].base, lists[p].base.base, lists[p].chosen, x
      modifies lists[p].base.base.nodes`prev, lists[p].base.base.nodes`next, lists[p].base.base.nodes`rank
      ensures AllValid() && Contained() && Foreign(q)
      ensures State() == old(State())[p := SchedulingMachine.Insert(old(lists[p].state), h, old(ItemOf(x)))]
    {
      hide SchedulingMachine.Insert, MInv, List.Valid, OrderedList.Valid;
      ForeignAll(q);
      ForeignAll(p);
      RunningAlone(q, h);
      assert ContainedAt(q);
      InsertInto(p, h, x);
    }

    method ChooseSettled(q: nat, h: nat, another: bool) returns (e: Element?<T>)
      requires Valid() && q < |lists| && h < heads
      requires lists[q].chosen[h] != null || lists[q].state.queue == []
      modifies parts, threads
      ensures Separate() && AllValid() && Contained() && e == lists[q].chosen[h]
      ensures State() == old(State())[q := if another then SchedulingMachine.ChooseAnother(old(State())[q], h)
                                           else SchedulingMachine.Choose(old(State())[q], h)]
    {
      hide SchedulingMachine.Choose, SchedulingMachine.ChooseAnother, MInv, Foreign, List.Valid, OrderedList.Valid;
      e := lists[q].chosen[h];
      if e != null {
        ForeignAll(q);
        RunningAlone(q, h);
        assert ContainedAt(q);
        e := ChooseOn(q, h, another);
      } else {
        NothingToChoose(State()[q], h);
        assert State()[q := State()[q]] == State();
      }
    }

    /** A chosen thread that belongs elsewhere is inserted there, and the list's head takes the slot. */
    method Settle(q: nat, h: nat)
      requires Valid() && Runs(State(), q, h)
      modifies parts, threads
      ensures Valid()
      ensures State() == MultilistMachine.Settle(old(State()), q, h)
    {
      hide SchedulingMachine.Insert, Refill, MInv, Foreign, List.Valid, OrderedList.Valid;
      hide Contained, ContainedAt, Separate, AllMembers;
      var x: Element<T> := lists[q].chosen[h];
      SettleKeeps(State(), heads, q, h);
      FrameOf(q);
      FrameOf(x.queue);
      hide AllValid;
      if x.queue != q {
        Move(q, h, x, x.queue);
        RefillSlot(q, h);
      }
    }

    lemma HeadsOf(q: nat)
      requires Valid() && q < |lists|
      ensures this !in parts && |State()[q].chosen| == lists[q].chosen.Length == heads
    {
    }

    /** The slot shows the thread the state tells. */
    lemma Shows(q: nat, h: nat)
      requires AllValid() && q < |lists| && h < heads
      ensures |State()[q].chosen| == lists[q].chosen.Length == heads
      ensures lists[q].chosen[h] == null <==> State()[q].chosen[h].Empty?
      ensures lists[q].chosen[h] != null ==> State()[q].chosen[h].item.queue == lists[q].chosen[h].queue
    {
      hide List.Valid, OrderedList.Valid;
      assert lists[q].Valid();
    }

    /** choose() for queue q on head h: null exactly when the running thread left for another queue and nobody
        waits here. */
    method Choose(q: nat, h: nat) returns (e: Element?<T>)
      requires Valid() && Runs(State(), q, h)
      modifies parts, threads
      ensures Valid() && e == lists[q].chosen[h]
      ensures State() == MChoose(old(State()), q, h)
      ensures e == null <==> Deserted(old(State()), q, h)
      ensures e != null ==> Best(State()[q], h) && e.queue == q
      ensures AllMembers(State()) == AllMembers(old(State()))
    {
      hide MInv, MChoose, MultilistMachine.Settle, SchedulingMachine.Choose, AllMembers, Best, SchedulingList.Valid;
      hide AllValid, Contained, Separate, Home, Deserted;
      ghost var m := State();
      HeadsOf(q);
      ChooseSteps(m, heads, q, h);
      MChooseKeeps(m, heads, q, h);
      Settle(q, h);
      Shows(q, h);
      e := ChooseSettled(q, h, false);
      Shows(q, h);
    }

    /** choose_another() for queue q on head h. */
    method ChooseAnother(q: nat, h: nat) returns (e: Element?<T>)
      requires Valid() && Runs(State(), q, h)
      modifies parts, threads
      ensures Valid() && e == lists[q].chosen[h]
      ensures State() == MChooseAnother(old(State()), q, h)
      ensures e == null <==> Deserted(old(State()), q, h)
      ensures e != null ==> e.queue == q
      ensures AllMembers(State()) == AllMembers(old(State()))
    {
      hide MInv, MChooseAnother, MultilistMachine.Settle, SchedulingMachine.ChooseAnother, AllMembers;
      hide SchedulingList.Valid, AllValid, Contained, Separate, Home, Deserted;
      ghost var m := State();
      HeadsOf(q);
      ChooseSteps(m, heads, q, h);
      MChooseAnotherKeeps(m, heads, q, h);
      Settle(q, h);
      Shows(q, h);
      e := ChooseSettled(q, h, true);
      Shows(q, h);
    }

    /** insert(e): e goes to the list of its number. */
    method Insert(h: nat, e: Element<T>)
      requires Valid() && HasHead(State(), e.queue, h) && Gone(e)
      modifies parts, threads, e, `threads
      ensures Valid() && e.queue == old(e.queue)
      ensures State() == old(State()[e.queue := SchedulingMachine.Insert(State()[e.queue], h, ItemOf(e))])
      ensures AllMembers(State()) == AllMembers(old(State())) + multiset{old(ItemOf(e))}
    {
      hide MInv, SchedulingMachine.Insert, AllMembers, OneEach, List.Valid, OrderedList.Valid;
      ghost var m, x := State(), ItemOf(e);
      assert h < heads by {
        HomeOf(m, heads, e.queue);
      }
      Absent(e);
      MInsertKeeps(m, heads, h, x);
      ForeignAll(e.queue);
      assert ContainedAt(e.queue);
      hide AllValid, Contained, ContainedAt, Foreign;
      Adopt(e);
      InsertInto(e.queue, h, e);
    }

    /** A thread found nowhere can join: nobody else has its identity. */
    lemma Absent(e: Element<T>)
      requires Valid() && Gone(e)
      ensures OneEach(AllMembers(State()) + multiset{ItemOf(e)})
    {
      var all := AllMembers(State());
      hide AllMembers;
      forall y | y in all
        ensures y.id != e
      {
        var q := Somewhere(State(), y);
        PlaceOf(q, y);
      }
    }

    lemma PlaceOf(q: nat, y: Item<Element<T>>)
      requires AllValid() && q < |lists| && y in Members(lists[q].state)
      ensures y.id in lists[q].base.base.nodes || y.id in lists[q].chosen[..]
    {
      var l := lists[q];
      if y in multiset(l.state.queue) {
        var i :| 0 <= i < |l.state.queue| && l.state.queue[i] == y;
        assert l.base.base.nodes[i] == y.id;
      } else {
        var h := ChosenAt(l.state.chosen, y);
        assert l.chosen[h] == y.id;
      }
    }

    /** remove(e) on head h. e goes, and nothing else, exactly when it is queued in the list of its number or runs there
        on head h; otherwise it stays where it is and another thread goes, or a list loses count. */
    method Remove(h: nat, e: Element<T>)
      requires Valid() && HasHead(State(), e.queue, h) && h < lists[e.queue].chosen.Length
      modifies parts, threads, lists[e.queue].Rewired(h, e)`prev, lists[e.queue].Rewired(h, e)`next
      ensures !old(lists[e.queue].Removable(h, e)) ==> !Valid() && lists[old(e.queue)].base.base.Miscounts()
      ensures old(lists[e.queue].Removable(h, e)) ==>
        && Valid() && e.queue == old(e.queue)
        && State() == MRemove(old(State()), h, old(ItemOf(e)), old(e.prev) == null)
        && (AllMembers(State()) + multiset{old(ItemOf(e))} == AllMembers(old(State())) <==>
              e == old(lists[e.queue].chosen[h]) || e in old(lists[e.queue].base.base.nodes))
      ensures e == old(lists[e.queue].chosen[h]) || e in old(lists[e.queue].base.base.nodes) ==> Gone(e)
    {
      hide MInv, AllMembers, MRemove, Home, Inv, Here, SchedulingMachine.Remove, List.Valid, OrderedList.Valid;
      hide AllValid, Contained, ContainedAt, Foreign, SchedulingList.Valid, Separate;
      RemovalFacts(h, e);
      var p := e.queue;
      ghost var m, x, first, here := State(), ItemOf(e), e.prev == null,
        e == lists[e.queue].chosen[h] || e in lists[e.queue].base.base.nodes;
      ghost var safe := lists[p].Removable(h, e);
      RemoveFrom(p, h, e);
      if safe {
        assert State() == m[p := lists[p].state];
        RemovalIs(m, h, x, first);
        MRemoveKeeps(m, heads, h, x, first);
        MRemoveExactly(m, heads, h, x, first);
        if here {
          forall r | 0 <= r < |lists|
            ensures e !in lists[r].base.base.nodes && e !in lists[r].chosen[..]
          {
          }
        }
      }
    }

    lemma RemovalFacts(h: nat, e: Element<T>)
      requires Valid() && HasHead(State(), e.queue, h) && h < lists[e.queue].chosen.Length
      ensures h < heads && Foreign(e.queue)
      ensures forall r :: 0 <= r < |lists| ==> lists[r].chosen.Length == heads
      ensures {lists[e.queue], lists[e.queue].base, lists[e.queue].base.base, lists[e.queue].chosen} <= parts
      ensures forall n :: n in lists[e.queue].base.base.nodes ==> n in threads
      ensures e == lists[e.queue].chosen[h] || e in lists[e.queue].base.base.nodes ==>
        && lists[e.queue].Removable(h, e) && GoneBut(e.queue, e)
        && forall g :: 0 <= g < heads && g != h ==> lists[e.queue].chosen[g] != e
    {
      hide Members, AllMembers, Inv, List.Valid, OrderedList.Valid;
      HomeOf(State(), heads, e.queue);
      ForeignAll(e.queue);
      FrameOf(e.queue);
      if e == lists[e.queue].chosen[h] || e in lists[e.queue].base.base.nodes {
        Alone(e.queue, h, e);
        assert lists[e.queue].Valid();
      }
    }

    lemma Alone(q: nat, h: nat, e: Element<T>)
      requires Valid() && q < |lists| && h < heads && (e == lists[q].chosen[h] || e in lists[q].base.base.nodes)
      ensures GoneBut(q, e)
    {
      assert e == lists[q].chosen[h] ==> e in lists[q].chosen[..];
      hide Valid;
      forall r | 0 <= r < |lists| && r != q
        ensures e !in lists[r].base.base.nodes && e !in lists[r].chosen[..]
      {
        OnePlace(q, r, e);
      }
    }

    method RetagOn(q: nat, h: nat, x: Element<T>, rank: int, queue: nat)
      requires Separate() && AllValid() && Contained() && q < |lists| && h < heads && lists[q].chosen[h] == x
      requires forall r :: 0 <= r < |lists| && r != q ==> x !in lists[r].base.base.nodes && x !in lists[r].chosen[..]
      modifies lists[q], x`rank, x`queue
      ensures AllValid() && Contained()
      ensures State() == old(State())[q := old(lists[q].state).(
        chosen := old(lists[q].state.chosen)[h := Taken(Item(x, rank, queue))])]
    {
      hide List.Valid, OrderedList.Valid;
      assert ContainedAt(q);
      lists[q].Retag(h, x, rank, queue);
      assert ContainedAt(q);
      forall r | 0 <= r < |lists| && r != q
        ensures Untouched(lists[r])
      {
      }
      OthersKeep(q);
    }

    /** The thread running on head h of queue q gets another rank and queue number. */
    method Retag(q: nat, h: nat, rank: int, queue: nat)
      requires Valid() && Runs(State(), q, h) && queue < |lists|
      modifies parts, threads
      ensures Valid() && State() == MRetag(old(State()), q, h, rank, queue)
    {
      hide MInv, List.Valid, OrderedList.Valid;
      var x: Element<T> := lists[q].chosen[h];
      RunningAlone(q, h);
      assert h < heads && ContainedAt(q);
      MRetagKeeps(State(), heads, q, h, rank, queue);
      RetagOn(q, h, x, rank, queue);
    }
  }
}
