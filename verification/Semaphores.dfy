/** src/api/semaphore.cc: p and v, each atomic under the thread lock. */
module Semaphores {
  import opened Sequences
  import opened Lists
  import opened Ranks
  import opened OrderedLists

  // ---------------------------------------------------------------------
  // Values and sleepers
  // ---------------------------------------------------------------------

  datatype Count = Count(value: int, sleepers: nat)

  datatype Op = Took | Gave

  function AfterOp(c: Count, op: Op): Count {
    match op
    case Took => Count(c.value - 1, if c.value < 1 then c.sleepers + 1 else c.sleepers)
    case Gave => Count(c.value + 1, if c.value < 0 && c.sleepers > 0 then c.sleepers - 1 else c.sleepers)
  }

  function Run(c: Count, ops: seq<Op>): Count
    decreases ops
  {
    if ops == [] then c else Run(AfterOp(c, ops[0]), ops[1..])
  }

  /** By how much a semaphore of value v is overdrawn. */
  function Shortfall(v: int): nat {
    if v < 0 then -v else 0
  }

  /** As many sleepers as the semaphore is short of. */
  predicate Agree(c: Count) {
    c.sleepers == Shortfall(c.value)
  }

  /** Sleepers never outnumber the shortfall, and what they fall short of it does not grow: once they agree, they agree
      for good. */
  lemma {:induction false} GapRun(c: Count, ops: seq<Op>)
    requires c.sleepers <= Shortfall(c.value)
    ensures var r := Run(c, ops);
      0 <= Shortfall(r.value) - r.sleepers <= Shortfall(c.value) - c.sleepers
    decreases ops
  {
    if ops != [] {
      GapRun(AfterOp(c, ops[0]), ops[1..]);
    }
  }

  /** Created with value v, a semaphore has as many sleepers as it is short of after every run of p and v exactly when v
      is not negative. */
  lemma SleepersExactly(v: int)
    ensures (forall ops: seq<Op> :: Agree(Run(Count(v, 0), ops))) <==> v >= 0
  {
    if v >= 0 {
      forall ops: seq<Op>
        ensures Agree(Run(Count(v, 0), ops))
      {
        GapRun(Count(v, 0), ops);
      }
    } else {
      assert Run(Count(v, 0), []) == Count(v, 0);
    }
  }

  class Semaphore<T(==)> {
    const waiting: OrderedList<T>
    var value: int

    ghost predicate Valid()
      reads this, waiting, waiting.base, waiting.base.nodes
    {
      waiting.Valid() && !waiting.relative
    }

    ghost function Counts(): Count
      reads this, waiting, waiting.base
    {
      Count(value, |waiting.base.nodes|)
    }

    constructor (v: int)
      ensures Valid() && Counts() == Count(v, 0) && value == v && waiting.base.nodes == []
      ensures fresh(waiting) && fresh(waiting.base)
    {
      value := v;
      waiting := new OrderedList<T>(false);
    }

    /** Take one; without one left, the thread of this link sleeps, behind those of its rank. */
    method P(link: Element<T>) returns (asleep: bool)
      requires Valid() && link !in waiting.base.nodes
      modifies `value, waiting, waiting.base
      modifies waiting.base.nodes`prev, waiting.base.nodes`next, waiting.base.nodes`rank
      modifies link`prev, link`next, link`rank
      ensures Valid() && value == old(value) - 1 && Counts() == AfterOp(old(Counts()), Took)
      ensures asleep <==> old(value) < 1
      ensures waiting.base.nodes == if asleep
        then InsertAt(old(waiting.base.nodes), Position(old(waiting.ranks), old(link.rank), false), link)
        else old(waiting.base.nodes)
      ensures asleep && old(waiting.base.nodes) == [] ==> waiting.base.nodes == [link]
    {
      assert |waiting.ranks| == |waiting.base.nodes|;
      hide OrderedList.Valid, InsertAt, InsertRank;
      asleep := value < 1;
      value := value - 1;
      if asleep {
        ghost var nodes := waiting.base.nodes;
        var k := waiting.Insert(link);
        InsertAtAt(nodes, k, link);
      }
    }

    /** Give one back; somebody asleep wakes up, the first of the queue. */
    method V() returns (woken: Element?<T>)
      requires Valid()
      modifies `value, waiting, waiting.base, waiting.base.nodes`prev, waiting.base.nodes`rank
      ensures Valid() && value == old(value) + 1 && Counts() == AfterOp(old(Counts()), Gave)
      ensures woken == null <==> old(value) >= 0 || old(waiting.base.nodes) == []
      ensures woken != null ==>
        && old(waiting.base.nodes) != [] && woken == old(waiting.base.nodes)[0]
        && waiting.base.nodes == Without(old(waiting.base.nodes), 0)
      ensures woken == null ==> waiting.base.nodes == old(waiting.base.nodes)
    {
      hide OrderedList.Valid, RemoveRank, Without;
      woken := null;
      var before := value;
      value := value + 1;
      if before < 0 {
        if waiting.base.nodes != [] {
          WithoutAt(waiting.base.nodes, 0);
        }
        woken := waiting.RemoveFirst();
      }
    }
  }
}
