/** src/api/alarm.cc: the alarm queue over a relative list, driven by timer ticks. */
module Alarms {
  import opened Sequences
  import opened Lists
  import opened Ranks
  import opened OrderedLists
  import opened AlarmMachine

  class Alarm {
    var ticks: nat
    var times: nat
    var link: Element?<Alarm>

    constructor (ticks: nat, times: nat)
      ensures this.ticks == ticks && this.times == times
      ensures link != null && fresh(link) && link.obj == this && link.rank == ticks
    {
      this.ticks := ticks;
      this.times := times;
      link := null;
      new;
      link := new Element(this, ticks);
    }
  }

  class AlarmService {
    const request: OrderedList<Alarm>
    var elapsed: int
    ghost var state: State<Alarm>
    ghost var links: set<Element<Alarm>>

    ghost predicate Valid()
      reads this, request, request.base, request.base.nodes, links, state.timing.Keys
    {
      Queued() && Linked() && Inv(state)
    }

    /** The relative list encodes the machine's queue. */
    ghost predicate Queued()
      reads this, request, request.base, request.base.nodes
    {
      && request.Valid() && request.relative
      && elapsed == state.elapsed
      && Encodes(state.queue, request.ranks, elapsed)
      && |state.queue| == |request.base.nodes|
      && forall i :: 0 <= i < |state.queue| ==> state.queue[i].alarm == request.base.nodes[i].obj
    }

    /** Every alarm owns its link, and the queue holds only such links. */
    ghost predicate Linked()
      reads this, request, request.base, request.base.nodes, links, state.timing.Keys
    {
      && (forall a :: a in state.timing ==>
            && a.link != null && a.link in links && a.link.obj == a
            && state.timing[a] == Timing(a.ticks, a.times))
      && (forall n :: n in request.base.nodes ==> n in links && n.obj in state.timing && n.obj.link == n)
    }

    constructor ()
      ensures Valid() && state == State(0, [], map[])
      ensures fresh(request) && fresh(request.base)
    {
      request := new OrderedList<Alarm>(true);
      elapsed := 0;
      state := State(0, [], map[]);
      links := {};
    }

    /** _request.insert(&a->_link). */
    method Arm(a: Alarm)
      requires Queued() && Linked() && a in state.timing && a.link !in request.base.nodes
      modifies this`state, request, request.base
      modifies request.base.nodes`prev, request.base.nodes`next, request.base.nodes`rank
      modifies a.link`prev, a.link`next, a.link`rank
      ensures Queued() && Linked()
      ensures state == old(state).(queue := Enqueue(old(state.queue), Entry(a, elapsed + old(a.link.rank))))
    {
      hide Position, Enqueue, InsertRank, InsertAt, Encodes, List.Valid;
      var link: Element<Alarm> := a.link;
      ghost var nodes, q, e := request.base.nodes, state.queue, Entry(a, elapsed + link.rank);
      EncodesInsert(q, request.ranks, elapsed, e);
      ghost var k := request.Insert(link);
      assert Linked() by {
        MembersInsert(nodes, k, link);
      }
      InsertAtAt(nodes, k, link);
      InsertAtAt(q, k, e);
      state := state.(queue := Enqueue(q, e));
    }

    /** e->rank(alarm->_ticks); _request.insert(e): queued for one period from now. */
    method Rearm(a: Alarm)
      requires Queued() && Linked() && a in state.timing && a.link !in request.base.nodes
      modifies this`state, request, request.base
      modifies request.base.nodes`prev, request.base.nodes`next, request.base.nodes`rank
      modifies a.link`prev, a.link`next, a.link`rank
      ensures Queued() && Linked()
      ensures state == old(state).(queue := Enqueue(old(state.queue), Entry(a, elapsed + a.ticks)))
    {
      hide Enqueue, Encodes, List.Valid;
      request.SetRankOutside(a.link, a.ticks);
      Arm(a);
    }

    /** _request.remove(a). */
    method Disarm(a: Alarm)
      requires Queued() && Linked() && NoAlarmTwice(state.queue) && a in state.timing
      modifies this`state, request, request.base
      modifies request.base.nodes`prev, request.base.nodes`next, request.base.nodes`rank
      ensures Queued() && Linked()
      ensures forall n :: n in request.base.nodes ==> n.obj != a && n in old(request.base.nodes)
      ensures state == old(state).(queue := Dequeue(old(state.queue), a))
    {
      hide Encodes, RemoveRank, List.Valid, Without, NoAlarmTwice, Find, Dequeue;
      ghost var nodes, q := request.base.nodes, state.queue;
      var e, k := request.RemoveObject(a);
      if e != null {
        Found(q, nodes, a, k);
        EncodesRemove(q, old(request.ranks), elapsed, k);
        WithoutAt(q, k);
        WithoutAt(nodes, k);
        MembersWithout(nodes, k);
      } else {
        NotFound(q, nodes, a);
      }
      state := state.(queue := Dequeue(q, a));
    }

    /** The Alarm constructor: queued ticks from now, or run at once when ticks is zero. */
    method Create(ticks: nat, times: nat) returns (a: Alarm, called: bool)
      requires Valid() && (ticks == 0 ==> times == 1)
      modifies this, request, request.base, request.base.nodes
      ensures Valid() && fresh(a)
      ensures a !in old(state.timing) && state == Step(old(state), Created(a, ticks, times))
      ensures called <==> ticks == 0
    {
      hide Enqueue, Encodes, Inv, List.Valid;
      a := new Alarm(ticks, times);
      InvStep(state, Created(a, ticks, times));
      ghost var s := Step(state, Created(a, ticks, times));
      links := links + {a.link};
      state := state.(timing := state.timing[a := Timing(ticks, times)]);
      called := ticks == 0;
      if ticks != 0 {
        Arm(a);
      }
      assert state == s;
    }

    /** The Alarm destructor. */
    method Destroy(a: Alarm)
      requires Valid() && a in state.timing
      modifies this, request, request.base, request.base.nodes
      ensures Valid() && state == Step(old(state), Destroyed(a))
    {
      hide AlarmService.Queued, AlarmService.Linked, Dequeue, Inv, NoAlarmTwice;
      InvStep(state, Destroyed(a));
      InvDistinct(state);
      Disarm(a);
      Forget(a);
    }

    ghost method Forget(a: Alarm)
      requires Queued() && Linked() && forall n :: n in request.base.nodes ==> n.obj != a
      modifies this`state
      ensures Queued() && Linked()
      ensures state == old(state).(timing := old(state.timing) - {a})
    {
      hide Encodes, List.Valid, OrderedList.Valid;
      state := state.(timing := state.timing - {a});
    }

    method Reset(a: Alarm)
      requires Valid() && a in state.timing
      modifies this, request, request.base, request.base.nodes, a.link
      ensures Valid() && state == Step(old(state), WasReset(a))
    {
      hide Enqueue, Dequeue, Encodes, List.Valid, Inv, NoAlarmTwice;
      InvStep(state, WasReset(a));
      InvDistinct(state);
      Disarm(a);
      Rearm(a);
    }

    /** _elapsed++ and promote() on the head: is it dispatched? */
    method TickQueue() returns (due: bool)
      requires Queued() && Linked()
      modifies this`elapsed, this`state, request, request.base.nodes`rank
      ensures Queued() && Linked()
      ensures state == old(state).(elapsed := old(elapsed) + 1)
      ensures due <==> Fires(old(state))
      ensures request.base.nodes == old(request.base.nodes)
    {
      hide Encodes, List.Valid;
      request.base.EmptyOrNot();
      EncodesTick(state.queue, request.ranks, elapsed);
      elapsed := elapsed + 1;
      state := state.(elapsed := elapsed);
      due := false;
      if !request.base.Empty() {
        var r := request.PromoteHead();
        due := r <= 0;
      }
    }

    /** _request.remove(): the head, with its successor taking over its rank. */
    method TakeHead() returns (a: Alarm)
      requires Queued() && Linked() && NoAlarmTwice(state.queue) && state.queue != []
      modifies this`state, request, request.base, request.base.nodes`prev, request.base.nodes`rank
      ensures Queued() && Linked()
      ensures a == old(state.queue)[0].alarm && a in state.timing
      ensures a.link != null && a.link in old(request.base.nodes) && a.link !in request.base.nodes
      ensures forall n :: n in request.base.nodes ==> n.obj != a && n in old(request.base.nodes)
      ensures state == old(state).(queue := Without(old(state.queue), 0))
    {
      hide Encodes, RemoveRank, List.Valid, Without, NoAlarmTwice, Find, Dequeue;
      ghost var nodes, q := request.base.nodes, state.queue;
      var e := request.RemoveFirst();
      a := e.obj;
      Found(q, nodes, a, 0);
      EncodesRemove(q, old(request.ranks), elapsed, 0);
      WithoutAt(q, 0);
      WithoutAt(nodes, 0);
      MembersWithout(nodes, 0);
      state := state.(queue := Without(q, 0));
    }

    /** The head alarm counts down and is queued again while firings are left. */
    method Dispatch() returns (a: Alarm)
      requires Queued() && Linked() && NoAlarmTwice(state.queue) && state.queue != []
      modifies this`state, request, request.base, request.base.nodes, state.timing.Keys`times
      ensures Queued() && Linked()
      ensures a == old(state.queue)[0].alarm
      ensures a in old(state.timing)
      ensures state == Rearmed(old(state), a)
    {
      hide AlarmService.Linked, Encodes, OrderedList.Valid, List.Valid, Enqueue, Without, NoAlarmTwice, CountDown;
      a := TakeHead();
      CountOff(a);
      if a.times > 0 {
        Rearm(a);
      }
    }

    /** One firing less, of a finite number. */
    method CountOff(a: Alarm)
      requires Queued() && Linked() && a in state.timing
      modifies this`state, a`times
      ensures Queued() && Linked()
      ensures a.times == CountDown(old(state.timing)[a].times) && a.ticks == old(state.timing)[a].ticks
      ensures a.link == old(a.link)
      ensures state == old(state).(timing := old(state.timing)[a := Timing(a.ticks, a.times)])
    {
      hide Encodes, List.Valid, OrderedList.Valid, CountDown;
      a.times := CountDown(a.times);
      state := state.(timing := state.timing[a := Timing(a.ticks, a.times)]);
    }

    /** The timer interrupt: one tick, and at most one alarm dispatched. */
    method Handler() returns (fired: Alarm?)
      requires Valid()
      modifies this, request, request.base, request.base.nodes, state.timing.Keys`times
      ensures Valid() && state == Step(old(state), Ticked)
      ensures fired == if Fires(old(state)) then old(state.queue[0].alarm) else null
    {
      hide Step, Rearmed, Encodes, List.Valid, Inv, NoAlarmTwice;
      InvStep(state, Ticked);
      InvDistinct(state);
      StepTicked(state);
      fired := null;
      var due := TickQueue();
      if due {
        fired := Dispatch();
      }
    }
  }

  /** The head a has been taken off, counted down and put back while firings are left. */
  ghost function Rearmed(s: State<Alarm>, a: Alarm): State<Alarm>
    requires s.queue != [] && a in s.timing
  {
    var n := CountDown(s.timing[a].times);
    var rest := Without(s.queue, 0);
    State(s.elapsed, if n > 0 then Enqueue(rest, Entry(a, s.elapsed + s.timing[a].ticks)) else rest,
          s.timing[a := Timing(s.timing[a].ticks, n)])
  }

  lemma StepTicked(s: State<Alarm>)
    requires Inv(s)
    ensures s.queue != [] ==> s.queue[0].alarm in s.timing
    ensures !Fires(s) ==> Step(s, Ticked) == s.(elapsed := s.elapsed + 1)
    ensures Fires(s) ==> Step(s, Ticked) == Rearmed(s.(elapsed := s.elapsed + 1), s.queue[0].alarm)
  {
  }

  /** The list search finds the machine's entry. */
  lemma Found(q: seq<Entry<Alarm>>, nodes: seq<Element<Alarm>>, a: Alarm, k: nat)
    requires |q| == |nodes| && NoAlarmTwice(q)
    requires forall i :: 0 <= i < |q| ==> q[i].alarm == nodes[i].obj
    requires k < |nodes| && nodes[k].obj == a
    ensures Dequeue(q, a) == Without(q, k)
    ensures forall n :: n in Without(nodes, k) ==> n.obj != a
  {
    assert Find(q, a) == k;
    forall n | n in Without(nodes, k)
      ensures n.obj != a
    {
      WithoutAt(nodes, k);
      var i :| 0 <= i < |nodes| - 1 && Without(nodes, k)[i] == n;
      var j := if i < k then i else i + 1;
      assert n == nodes[j] && q[j].alarm == n.obj;
    }
  }

  lemma NotFound(q: seq<Entry<Alarm>>, nodes: seq<Element<Alarm>>, a: Alarm)
    requires |q| == |nodes|
    requires forall i :: 0 <= i < |q| ==> q[i].alarm == nodes[i].obj
    requires forall n :: n in nodes ==> n.obj != a
    ensures Dequeue(q, a) == q
  {
    assert forall i :: 0 <= i < |nodes| ==> nodes[i].obj != a;
  }

  lemma InvDistinct<A>(s: State<A>)
    requires Inv(s)
    ensures NoAlarmTwice(s.queue)
  {
  }

  lemma MembersWithout<T>(s: seq<T>, k: nat)
    requires k < |s|
    ensures forall y :: y in Without(s, k) ==> y in s
  {
    WithoutAt(s, k);
  }

  /** The relative ranks, counted from t, denote the deadlines of q. */
  ghost predicate Encodes(q: seq<Entry<Alarm>>, rs: seq<int>, t: int) {
    Deadlines(q) == Absolute(rs, t)
  }

  lemma EncodesInsert(q: seq<Entry<Alarm>>, rs: seq<int>, t: int, e: Entry<Alarm>)
    requires Encodes(q, rs, t)
    ensures Enqueue(q, e) == InsertAt(q, Position(rs, e.deadline - t, true), e)
    ensures Encodes(Enqueue(q, e), InsertRank(rs, e.deadline - t, true), t)
  {
    hide Position, InsertRank, InsertAt, Absolute;
    var k := Position(rs, e.deadline - t, true);
    AbsoluteInsert(rs, e.deadline - t, t);
    InsertAtAt(q, k, e);
    InsertAtAt(Absolute(rs, t), k, e.deadline);
    assert Deadlines(Enqueue(q, e)) == InsertAt(Absolute(rs, t), k, e.deadline);
  }

  lemma EncodesTick(q: seq<Entry<Alarm>>, rs: seq<int>, t: int)
    requires Encodes(q, rs, t)
    ensures rs == [] ==> q == [] && Encodes(q, rs, t + 1)
    ensures rs != [] ==>
      && q != [] && Encodes(q, rs[0 := rs[0] - 1], t + 1)
      && q[0].deadline == t + rs[0]
  {
    assert |Deadlines(q)| == |Absolute(rs, t)|;
    if rs != [] {
      AbsoluteTick(rs, t);
      assert Deadlines(q)[0] == Absolute(rs, t)[0];
    }
  }

  lemma EncodesRemove(q: seq<Entry<Alarm>>, rs: seq<int>, t: int, k: nat)
    requires Encodes(q, rs, t) && k < |q|
    ensures k < |rs| && Encodes(Without(q, k), RemoveRank(rs, k, true), t)
  {
    hide RemoveRank, Without, Absolute;
    assert |Deadlines(q)| == |Absolute(rs, t)|;
    AbsoluteRemove(rs, k, t);
    WithoutAt(q, k);
    WithoutAt(Absolute(rs, t), k);
    assert Deadlines(Without(q, k)) == Without(Absolute(rs, t), k);
  }

  lemma MembersInsert<T>(s: seq<T>, k: nat, x: T)
    requires k <= |s|
    ensures forall y :: y in InsertAt(s, k, x) <==> y in s || y == x
  {
    InsertAtAt(s, k, x);
    assert s == s[..k] + s[k..];
  }
}
