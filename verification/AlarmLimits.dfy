/** Where the bounds of the alarm machine come from: runs just beyond them in which an alarm fires early, or waits. */
module AlarmLimits {
  import opened Sequences
  import opened Ranks
  import opened Words
  import opened AlarmMachine

  // ---------------------------------------------------------------------
  // More than 2^31 ticks
  // ---------------------------------------------------------------------

  function Clock<A>(n: nat): (es: seq<Event<A>>) {
    if n == 0 then [] else [Ticked] + Clock(n - 1)
  }

  /** After how many ticks the only alarm queued, d ticks ahead, is dispatched. */
  function TicksToFire(d: int): nat {
    var low := (d - 1) % 0x1_0000_0000;
    1 + if low >= HALF then 0 else low
  }

  lemma {:induction false} ClockKnown<A>(s: State<A>, n: nat)
    requires Inv(s)
    ensures AllKnown(s, Clock(n))
    decreases n
  {
    if n > 0 {
      InvStep(s, Ticked);
      ClockKnown(Step(s, Ticked), n - 1);
    }
  }

  /** The only alarm queued is dispatched by the low 32 bits of its ticks. */
  lemma {:induction false} AloneFires<A>(s: State<A>, e: Entry<A>, n: nat)
    requires Inv(s) && s.queue == [e] && n >= TicksToFire(e.deadline - s.elapsed)
    requires AllKnown(s, Clock(n))
    ensures Log(s, Clock(n)) != []
    ensures Log(s, Clock(n))[0] == Fire(e.alarm, s.elapsed + TicksToFire(e.deadline - s.elapsed))
    decreases n
  {
    hide Inv, Known;
    assert Clock<A>(n)[0] == Ticked && Clock<A>(n)[1..] == Clock<A>(n - 1);
    AloneStep(s, e);
    if !Fires(s) {
      InvStep(s, Ticked);
      AloneFires(Step(s, Ticked), e, n - 1);
    }
  }

  lemma AloneStep<A>(s: State<A>, e: Entry<A>)
    requires Known(s, Ticked) && s.queue == [e]
    ensures Fires(s) <==> TicksToFire(e.deadline - s.elapsed) == 1
    ensures !Fires(s) ==>
      && Step(s, Ticked) == s.(elapsed := s.elapsed + 1)
      && TicksToFire(e.deadline - s.elapsed) == 1 + TicksToFire(e.deadline - (s.elapsed + 1))
  {
    hide ToInt, TicksToFire;
    OneTick(e.deadline - s.elapsed);
    assert e.deadline - (s.elapsed + 1) == e.deadline - s.elapsed - 1;
  }

  lemma OneTick(d: int)
    ensures ToInt(d - 1) <= 0 <==> TicksToFire(d) == 1
    ensures ToInt(d - 1) > 0 ==> TicksToFire(d) == 1 + TicksToFire(d - 1)
  {
    KeepsSignExactly(d - 1);
    LowBits(d - 1);
  }

  lemma RemainderIs(a: int, q: int, r: int)
    requires a == 0x1_0000_0000 * q + r && 0 <= r < 0x1_0000_0000
    ensures a % 0x1_0000_0000 == r
  {
  }

  /** One down is one down in the low 32 bits, unless these are 0. */
  lemma LowBits(x: int)
    ensures x % 0x1_0000_0000 > 0 ==> (x - 1) % 0x1_0000_0000 == x % 0x1_0000_0000 - 1
    ensures ToInt(x) == if x % 0x1_0000_0000 < HALF then x % 0x1_0000_0000 else x % 0x1_0000_0000 - 0x1_0000_0000
  {
    var q, r := x / 0x1_0000_0000, x % 0x1_0000_0000;
    if r > 0 {
      RemainderIs(x - 1, q, r - 1);
    }
    if r < HALF {
      RemainderIs(x + HALF, q, r + HALF);
    } else {
      RemainderIs(x + HALF, q + 1, r - HALF);
    }
  }

  lemma Arming<A>(a: A, ticks: nat, times: nat)
    requires ticks > 0
    ensures Inv(State(0, [Entry(a, ticks)], map[a := Timing(ticks, times)]))
    ensures Known(State(0, [], map[]), Created(a, ticks, times))
    ensures Step(State(0, [], map[]), Created(a, ticks, times))
         == State(0, [Entry(a, ticks)], map[a := Timing(ticks, times)])
  {
  }

  /** Created alone and left to the clock, an alarm of t ticks keeps its deadline exactly when t is at most 2^31;
      above it fires early. */
  lemma OnTimeExactly<A>(a: A, ticks: nat, times: nat)
    requires ticks > 0
    ensures var s: State<A>, es := State(0, [], map[]), [Created(a, ticks, times)] + Clock(ticks);
      && AllKnown(s, es) && Log(s, es) != [] && Log(s, es)[0].alarm == a
      && Log(s, es)[0].time == TicksToFire(ticks) <= ticks
      && (Log(s, es)[0].time == ticks <==> ticks <= HALF)
  {
    hide Step, Known, Inv;
    var s: State<A>, es := State(0, [], map[]), [Created(a, ticks, times)] + Clock(ticks);
    assert es[0] == Created(a, ticks, times) && es[1..] == Clock(ticks);
    Arming(a, ticks, times);
    ClockKnown(Step(s, es[0]), ticks);
    AloneFires(Step(s, es[0]), Entry(a, ticks), ticks);
  }

  lemma {:induction false} ClockLeavesAlone<A>(n: nat, a: A)
    ensures LeftAlone(Clock(n), a)
  {
    if n > 0 {
      ClockLeavesAlone(n - 1, a);
    }
  }

  /** The ticks of an alarm decide alone: in every run in which it is created and left alone, among whatever other
      alarms, it fires no earlier than its ticks say, exactly when these are at most 2^31. */
  lemma NeverEarlyExactly<A>(a: A, ticks: nat, times: nat)
    requires ticks > 0
    ensures (forall s: State<A>, es: seq<Event<A>> :: Newcomer(s, es, a, ticks, times) ==>
               NoneBefore(Log(s, [Created(a, ticks, times)] + es), a, s.elapsed + ticks))
            <==> ticks <= HALF
  {
    if ticks <= HALF {
      forall s: State<A>, es: seq<Event<A>> | Newcomer(s, es, a, ticks, times)
        ensures NoneBefore(Log(s, [Created(a, ticks, times)] + es), a, s.elapsed + ticks)
      {
        NewcomerOnTime(s, es, a, ticks, times);
      }
    } else {
      var s: State<A>, es := State(0, [], map[]), Clock<A>(ticks);
      OnTimeExactly(a, ticks, times);
      ClockLeavesAlone(ticks, a);
      assert Inv(s);
      assert Newcomer(s, es, a, ticks, times);
      assert !NoneBefore(Log(s, [Created(a, ticks, times)] + es), a, ticks);
    }
  }

  /** 2^31 + 1 ticks, some 25 days at 1000 Hz: the alarm fires at the first tick. */
  lemma LongAlarmFiresAtOnce<A>(a: A)
    ensures AllKnown(State(0, [], map[]), [Created(a, HALF + 1, 1), Ticked])
    ensures Log(State(0, [], map[]), [Created(a, HALF + 1, 1), Ticked]) == [Fire(a, 1)]
  {
    hide Known, Inv;
    var s: State<A>, es := State(0, [], map[]), [Created(a, HALF + 1, 1), Ticked];
    Arming(a, HALF + 1, 1);
    ClockKnown(Step(s, es[0]), 1);
    var s1 := Step(s, es[0]);
    assert Clock<A>(1) == [Ticked] == es[1..];
    assert Fires(s1);
    assert Log(s1, es[1..]) == FireOf(s1, Ticked) + Log(Step(s1, Ticked), es[1..][1..]);
  }

  // ---------------------------------------------------------------------
  // More than 2^31 alarms
  // ---------------------------------------------------------------------

  /** Alarms 0 to n - 1 are created without delay and reset, which queues them for now. */
  function Arrivals(n: nat): seq<Event<nat>> {
    if n == 0 then [] else Arrivals(n - 1) + [Created(n - 1, 0, 1), WasReset(n - 1)]
  }

  /** At tick t, alarms m to n - 1 of them still wait. */
  function Crowd(m: nat, n: nat, t: int): State<nat>
    requires m <= n
  {
    State(t, seq(n - m, i requires 0 <= i < n - m => Entry(m + i, 0)),
          map a: nat | a < n && Below(a, n) :: Timing(0, if a < m then 0 else 1))
  }

  predicate Below(a: nat, n: nat) {
    a < n
  }

  lemma CrowdInv(m: nat, n: nat, t: int)
    requires m <= n
    ensures Inv(Crowd(m, n, t)) && |Crowd(m, n, t).queue| == n - m
  {
  }

  /** An entry no earlier than all others goes to the end. */
  lemma EnqueueLast<A>(q: seq<Entry<A>>, e: Entry<A>)
    requires forall i :: 0 <= i < |q| ==> q[i].deadline <= e.deadline
    ensures Enqueue(q, e) == q + [e]
  {
    hide Position, InsertAt;
    var ds := Deadlines(q);
    PositionSplits(ds, e.deadline);
    InsertAtAt(q, |q|, e);
  }

  lemma Arrive(n: nat)
    ensures Known(Crowd(0, n, 0), Created(n, 0, 1))
    ensures var s := Step(Crowd(0, n, 0), Created(n, 0, 1));
      Known(s, WasReset(n)) && |s.queue| == n && Step(s, WasReset(n)) == Crowd(0, n + 1, 0)
  {
    hide Enqueue;
    var c := Crowd(0, n, 0);
    var s := Step(c, Created(n, 0, 1));
    assert Dequeue(s.queue, n) == s.queue;
    EnqueueLast(s.queue, Entry(n, 0));
    assert s.queue + [Entry(n, 0)] == Crowd(0, n + 1, 0).queue;
    assert s.timing == Crowd(0, n + 1, 0).timing;
  }

  lemma {:induction false} Append<A>(s: State<A>, es: seq<Event<A>>, fs: seq<Event<A>>, n: nat)
    requires AllKnown(s, es) && AllKnown(After(s, es), fs)
    requires Uncrowded(s, es, n) && Uncrowded(After(s, es), fs, n)
    ensures AllKnown(s, es + fs) && Uncrowded(s, es + fs, n)
    ensures After(s, es + fs) == After(After(s, es), fs)
    decreases es
  {
    if es == [] {
      assert es + fs == fs;
    } else {
      hide Known, Step;
      assert (es + fs)[0] == es[0] && (es + fs)[1..] == es[1..] + fs;
      Append(Step(s, es[0]), es[1..], fs, n);
    }
  }

  lemma NobodyThere(most: nat)
    ensures var s: State<nat> := State(0, [], map[]);
      AllKnown(s, []) && Uncrowded(s, [], most) && After(s, []) == s == Crowd(0, 0, 0)
  {
  }

  lemma {:induction false} ArrivalsCrowd(n: nat, most: nat)
    requires n <= most
    ensures var s: State<nat> := State(0, [], map[]);
      AllKnown(s, Arrivals(n)) && Uncrowded(s, Arrivals(n), most) && After(s, Arrivals(n)) == Crowd(0, n, 0)
  {
    hide Step, Known, Crowd, After, AllKnown, Uncrowded, Inv;
    var s: State<nat> := State(0, [], map[]);
    if n == 0 {
      NobodyThere(most);
    } else {
      ArrivalsCrowd(n - 1, most);
      Arrive(n - 1);
      CrowdInv(0, n - 1, 0);
      CrowdInv(0, n, 0);
      Two(Crowd(0, n - 1, 0), Created(n - 1, 0, 1), WasReset(n - 1), most);
      Append(s, Arrivals(n - 1), [Created(n - 1, 0, 1), WasReset(n - 1)], most);
    }
  }

  lemma Two<A>(s: State<A>, e: Event<A>, f: Event<A>, n: nat)
    requires Known(s, e) && Known(Step(s, e), f)
    requires |s.queue| <= n && |Step(s, e).queue| <= n && |Step(Step(s, e), f).queue| <= n
    ensures AllKnown(s, [e, f]) && Uncrowded(s, [e, f], n) && After(s, [e, f]) == Step(Step(s, e), f)
  {
    hide Step, Known;
    assert [e, f][1..] == [f];
    One(Step(s, e), f, n);
  }

  lemma One<A>(s: State<A>, e: Event<A>, n: nat)
    requires Known(s, e) && |s.queue| <= n && |Step(s, e).queue| <= n
    ensures AllKnown(s, [e]) && Uncrowded(s, [e], n) && After(s, [e]) == Step(s, e)
  {
    hide Step, Known;
    assert [e][1..] == [];
    assert AllKnown(Step(s, e), []) && After(Step(s, e), []) == Step(s, e);
  }

  lemma NotYetWrapped(late: int)
    requires 0 <= late < HALF
    ensures ToInt(0 - late - 1) <= 0
  {
  }

  /** For 2^31 ticks the crowd is served, one alarm a tick. */
  lemma Leave(m: nat, n: nat)
    requires m < n && m < HALF
    ensures Known(Crowd(m, n, m), Ticked) && Step(Crowd(m, n, m), Ticked) == Crowd(m + 1, n, m + 1)
  {
    hide Enqueue;
    var c := Crowd(m, n, m);
    assert c.queue[0] == Entry(m, 0);
    NotYetWrapped(m);
    assert Without(c.queue, 0) == Crowd(m + 1, n, m + 1).queue;
  }

  lemma {:induction false} ClockServes(m: nat, n: nat, k: nat)
    requires m + k <= n && m + k <= HALF
    ensures AllKnown(Crowd(m, n, m), Clock(k)) && After(Crowd(m, n, m), Clock(k)) == Crowd(m + k, n, m + k)
    ensures Uncrowded(Crowd(m, n, m), Clock(k), n)
    decreases k
  {
    hide Step, Known, Crowd, Inv;
    CrowdInv(m, n, m);
    if k > 0 {
      Leave(m, n);
      ClockServes(m + 1, n, k - 1);
      assert Clock<nat>(k)[0] == Ticked && Clock<nat>(k)[1..] == Clock<nat>(k - 1);
    }
  }

  /** With one alarm more than 2^31 queued at once, the last is overdue for 2^31 ticks when the clock comes to it, reads
      as not due, and waits for 2^31 ticks more: that at most 2^31 alarms are queued cannot be dropped. */
  lemma CrowdWaits(h: nat)
    requires h == HALF
    ensures var s: State<nat>, es := State(0, [], map[]), Arrivals(h + 1) + Clock(h);
      && AllKnown(s, es) && Uncrowded(s, es, h + 1)
      && var t := After(s, es);
        && t.elapsed == h && t.queue == [Entry(h, 0)] && Due(t) && !Fires(t)
        && AllKnown(t, Clock(h)) && Log(t, Clock(h)) != [] && Log(t, Clock(h))[0] == Fire(h, 2 * h)
  {
    hide Arrivals, Clock, AllKnown, After, Uncrowded, Log, Inv, Crowd;
    var s: State<nat> := State(0, [], map[]);
    ArrivalsCrowd(h + 1, h + 1);
    ClockServes(0, h + 1, h);
    Append(s, Arrivals(h + 1), Clock(h), h + 1);
    var t := Crowd(h, h + 1, h);
    CrowdInv(h, h + 1, h);
    LastOne(h);
    ClockKnown(t, h);
    AloneFires(t, Entry(h, 0), h);
  }

  lemma LastOne(h: nat)
    ensures Crowd(h, h + 1, h).elapsed == h && Crowd(h, h + 1, h).queue == [Entry(h, 0)]
  {
  }
}
