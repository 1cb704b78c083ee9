/** The alarm queue as a machine on absolute deadlines, and what holds over all of its runs. */
module AlarmMachine {
  import opened Sequences
  import opened Ranks
  import opened Words

  const INFINITE: nat := 0xFFFF_FFFF

  datatype Entry<A> = Entry(alarm: A, deadline: int)

  datatype Timing = Timing(ticks: nat, times: nat)

  /** elapsed ticks, the queued alarms by deadline, and the period and remaining firings of every alarm. */
  datatype State<A(==)> = State(elapsed: int, queue: seq<Entry<A>>, timing: map<A, Timing>)

  datatype Event<A> =
    | Created(a: A, ticks: nat, times: nat)
    | Destroyed(a: A)
    | WasReset(a: A)
    | Ticked

  datatype Fire<A> = Fire(alarm: A, time: int)

  function Deadlines<A>(q: seq<Entry<A>>): (ds: seq<int>)
    ensures |ds| == |q| && forall i :: 0 <= i < |q| ==> ds[i] == q[i].deadline
  {
    seq(|q|, i requires 0 <= i < |q| => q[i].deadline)
  }

  /** Sorted insertion behind equal deadlines. */
  function Enqueue<A>(q: seq<Entry<A>>, e: Entry<A>): seq<Entry<A>> {
    InsertAt(q, Position(Deadlines(q), e.deadline, false), e)
  }

  /** The position of the first entry of a, or the length. */
  function Find<A(==)>(q: seq<Entry<A>>, a: A): (k: nat)
    ensures k <= |q|
    ensures k < |q| ==> q[k].alarm == a
    ensures forall i :: 0 <= i < k ==> q[i].alarm != a
  {
    if q == [] || q[0].alarm == a then 0
    else
      var k := Find(q[1..], a);
      assert forall i :: 0 < i < k + 1 ==> q[i] == q[1..][i - 1];
      1 + k
  }

  function Dequeue<A(==)>(q: seq<Entry<A>>, a: A): seq<Entry<A>> {
    var k := Find(q, a);
    if k < |q| then Without(q, k) else q
  }

  /** times-- on a 32-bit unsigned counter, unless it is INFINITE. */
  function CountDown(times: nat): nat {
    if times == INFINITE then times else (times + 0xFFFF_FFFF) % 0x1_0000_0000
  }

  /** Will a deadline have come at the next tick? */
  predicate Due<A>(s: State<A>) {
    s.queue != [] && s.queue[0].deadline <= s.elapsed + 1
  }

  /** Is an alarm dispatched by the next tick? The ticks left are a long, and promote() returns them as an int. */
  predicate Fires<A>(s: State<A>) {
    s.queue != [] && ToInt(s.queue[0].deadline - s.elapsed - 1) <= 0
  }

  predicate Known<A>(s: State<A>, ev: Event<A>) {
    match ev
    case Created(a, ticks, times) => a !in s.timing
    case Destroyed(a) => a in s.timing
    case WasReset(a) => a in s.timing
    case Ticked => s.queue != [] ==> s.queue[0].alarm in s.timing
  }

  function Step<A>(s: State<A>, ev: Event<A>): State<A>
    requires Known(s, ev)
  {
    match ev
    case Created(a, ticks, times) =>
      s.(queue := if ticks == 0 then s.queue else Enqueue(s.queue, Entry(a, s.elapsed + ticks)),
         timing := s.timing[a := Timing(ticks, times)])
    case Destroyed(a) =>
      s.(queue := Dequeue(s.queue, a), timing := s.timing - {a})
    case WasReset(a) =>
      s.(queue := Enqueue(Dequeue(s.queue, a), Entry(a, s.elapsed + s.timing[a].ticks)))
    case Ticked =>
      var t := s.elapsed + 1;
      if !Fires(s) then s.(elapsed := t)
      else
        var a, rest := s.queue[0].alarm, Without(s.queue, 0);
        var n := CountDown(s.timing[a].times);
        State(t, if n > 0 then Enqueue(rest, Entry(a, t + s.timing[a].ticks)) else rest,
              s.timing[a := Timing(s.timing[a].ticks, n)])
  }

  function FireOf<A>(s: State<A>, ev: Event<A>): (log: seq<Fire<A>>) {
    if ev.Ticked? && Fires(s) then [Fire(s.queue[0].alarm, s.elapsed + 1)] else []
  }

  // ---------------------------------------------------------------------
  // The invariant
  // ---------------------------------------------------------------------

  ghost predicate NoAlarmTwice<A>(q: seq<Entry<A>>) {
    forall i, j :: 0 <= i < j < |q| ==> q[i].alarm != q[j].alarm
  }

  ghost predicate Inv<A>(s: State<A>) {
    && Sorted(Deadlines(s.queue))
    && NoAlarmTwice(s.queue)
    && forall i :: 0 <= i < |s.queue| ==> s.queue[i].alarm in s.timing
  }

  lemma EnqueueKeeps<A>(q: seq<Entry<A>>, e: Entry<A>)
    requires Sorted(Deadlines(q)) && NoAlarmTwice(q)
    requires forall i :: 0 <= i < |q| ==> q[i].alarm != e.alarm
    ensures Sorted(Deadlines(Enqueue(q, e))) && NoAlarmTwice(Enqueue(q, e))
    ensures |Enqueue(q, e)| == |q| + 1
    ensures forall i :: 0 <= i < |q| + 1 ==> Enqueue(q, e)[i] == e || Enqueue(q, e)[i] in q
  {
    hide InsertAt, Position, Sorted;
    var k := Position(Deadlines(q), e.deadline, false);
    PositionSorted(Deadlines(q), e.deadline);
    InsertAtAt(q, k, e);
    InsertAtAt(Deadlines(q), k, e.deadline);
    assert Deadlines(Enqueue(q, e)) == InsertAt(Deadlines(q), k, e.deadline);
  }

  lemma RemovalKeeps<A>(q: seq<Entry<A>>, k: nat)
    requires k < |q| && Sorted(Deadlines(q)) && NoAlarmTwice(q)
    ensures Sorted(Deadlines(Without(q, k))) && NoAlarmTwice(Without(q, k))
    ensures |Without(q, k)| == |q| - 1
    ensures forall i :: 0 <= i < |q| - 1 ==> Without(q, k)[i].alarm != q[k].alarm && Without(q, k)[i] in q
  {
    WithoutAt(q, k);
  }

  lemma DequeueKeeps<A>(q: seq<Entry<A>>, a: A)
    requires Sorted(Deadlines(q)) && NoAlarmTwice(q)
    ensures Sorted(Deadlines(Dequeue(q, a))) && NoAlarmTwice(Dequeue(q, a))
    ensures forall i :: 0 <= i < |Dequeue(q, a)| ==> Dequeue(q, a)[i].alarm != a && Dequeue(q, a)[i] in q
  {
    var k := Find(q, a);
    if k < |q| {
      RemovalKeeps(q, k);
    }
  }

  lemma InvStep<A>(s: State<A>, ev: Event<A>)
    requires Inv(s) && Known(s, ev)
    ensures Inv(Step(s, ev))
  {
    hide Enqueue, Dequeue, Without, Sorted, NoAlarmTwice;
    match ev
    case Created(a, ticks, times) =>
      EnqueueKeeps(s.queue, Entry(a, s.elapsed + ticks));
    case Destroyed(a) =>
      DequeueKeeps(s.queue, a);
    case WasReset(a) =>
      DequeueKeeps(s.queue, a);
      EnqueueKeeps(Dequeue(s.queue, a), Entry(a, s.elapsed + s.timing[a].ticks));
    case Ticked =>
      if Fires(s) {
        var a := s.queue[0].alarm;
        RemovalKeeps(s.queue, 0);
        EnqueueKeeps(Without(s.queue, 0), Entry(a, s.elapsed + 1 + s.timing[a].ticks));
      }
  }

  /** The head is an alarm of earliest deadline, and a tick dispatches it exactly when its deadline has come, as long as
      the int keeps the sign of the ticks left. */
  lemma TickFiresEarliest<A>(s: State<A>)
    requires Inv(s)
    ensures Due(s) <==> exists i :: 0 <= i < |s.queue| && s.queue[i].deadline <= s.elapsed + 1
    ensures forall i :: 0 <= i < |s.queue| ==> s.queue[0].deadline <= s.queue[i].deadline
    ensures (Fires(s) <==> Due(s)) <==> (s.queue != [] ==> KeepsSign(s.queue[0].deadline - s.elapsed - 1))
    ensures s.queue != [] && -HALF < s.queue[0].deadline - s.elapsed <= HALF ==> (Fires(s) <==> Due(s))
  {
    var ds := Deadlines(s.queue);
    assert forall i :: 0 <= i < |s.queue| ==> ds[0] <= ds[i];
    if s.queue != [] {
      KeepsSignExactly(s.queue[0].deadline - s.elapsed - 1);
    }
  }

  /** A fired alarm leaves the queue exactly when this was its last firing. */
  lemma LeavesAfterLast<A>(s: State<A>)
    requires Inv(s) && Fires(s) && s.timing[s.queue[0].alarm].times <= INFINITE
    ensures var a := s.queue[0].alarm;
      (forall i :: 0 <= i < |Step(s, Ticked).queue| ==> Step(s, Ticked).queue[i].alarm != a)
      <==> s.timing[a].times == 1
  {
    var a := s.queue[0].alarm;
    var rest := Without(s.queue, 0);
    RemovalKeeps(s.queue, 0);
    if CountDown(s.timing[a].times) > 0 {
      var e := Entry(a, s.elapsed + 1 + s.timing[a].ticks);
      var k := Position(Deadlines(rest), e.deadline, false);
      InsertAtAt(rest, k, e);
      assert Step(s, Ticked).queue[k].alarm == a;
    }
  }

  // ---------------------------------------------------------------------
  // Runs
  // ---------------------------------------------------------------------

  predicate AllKnown<A>(s: State<A>, es: seq<Event<A>>)
    decreases es
  {
    es == [] || (Known(s, es[0]) && AllKnown(Step(s, es[0]), es[1..]))
  }

  function After<A>(s: State<A>, es: seq<Event<A>>): State<A>
    requires AllKnown(s, es)
    decreases es
  {
    if es == [] then s else After(Step(s, es[0]), es[1..])
  }

  function Log<A>(s: State<A>, es: seq<Event<A>>): seq<Fire<A>>
    requires AllKnown(s, es)
    decreases es
  {
    if es == [] then [] else FireOf(s, es[0]) + Log(Step(s, es[0]), es[1..])
  }

  function Ticks<A>(es: seq<Event<A>>): nat {
    if es == [] then 0 else (if es[0].Ticked? then 1 else 0) + Ticks(es[1..])
  }

  function Firings<A(==)>(log: seq<Fire<A>>, a: A): nat {
    if log == [] then 0 else (if log[0].alarm == a then 1 else 0) + Firings(log[1..], a)
  }

  ghost predicate Survives<A>(es: seq<Event<A>>, a: A) {
    forall i :: 0 <= i < |es| ==> es[i] != Destroyed(a)
  }

  /** No event of the run destroys or resets a. */
  ghost predicate LeftAlone<A>(es: seq<Event<A>>, a: A) {
    forall i :: 0 <= i < |es| ==> es[i] != Destroyed(a) && es[i] != WasReset(a)
  }

  /** No alarm is created with a period an int cannot hold next to its sign. */
  ghost predicate ShortPeriods<A>(es: seq<Event<A>>) {
    forall i :: 0 <= i < |es| && es[i].Created? ==> es[i].ticks <= HALF
  }

  /** At no moment of the run are more than n alarms queued. */
  ghost predicate Uncrowded<A>(s: State<A>, es: seq<Event<A>>, n: nat)
    requires AllKnown(s, es)
    decreases es
  {
    |s.queue| <= n && (es == [] || Uncrowded(Step(s, es[0]), es[1..], n))
  }

  ghost predicate FiresWithin<A>(log: seq<Fire<A>>, a: A, lo: int, hi: int) {
    exists i :: 0 <= i < |log| && log[i].alarm == a && lo <= log[i].time <= hi
  }

  lemma LeftAloneTail<A>(es: seq<Event<A>>, a: A)
    requires es != [] && LeftAlone(es, a)
    ensures LeftAlone(es[1..], a)
  {
    assert forall i :: 0 <= i < |es| - 1 ==> es[1..][i] == es[i + 1];
  }

  lemma ShortPeriodsTail<A>(es: seq<Event<A>>)
    requires es != [] && ShortPeriods(es)
    ensures ShortPeriods(es[1..])
  {
    assert forall i :: 0 <= i < |es| - 1 ==> es[1..][i] == es[i + 1];
  }

  /** A firing of the rest of the run is one of the whole run. */
  lemma LogTail<A>(s: State<A>, es: seq<Event<A>>, a: A, lo: int, hi: int)
    requires es != [] && AllKnown(s, es)
    requires FiresWithin(Log(Step(s, es[0]), es[1..]), a, lo, hi)
    ensures FiresWithin(Log(s, es), a, lo, hi)
  {
    var tail := Log(Step(s, es[0]), es[1..]);
    var i :| 0 <= i < |tail| && tail[i].alarm == a && lo <= tail[i].time <= hi;
    assert Log(s, es)[|FireOf(s, es[0])| + i] == tail[i];
  }

  lemma FiresWithinWeaker<A>(log: seq<Fire<A>>, a: A, lo: int, hi: int, lo': int, hi': int)
    requires FiresWithin(log, a, lo, hi) && lo' <= lo && hi <= hi'
    ensures FiresWithin(log, a, lo', hi')
  {
  }

  lemma HeadEarliest<A>(q: seq<Entry<A>>, k: nat)
    requires k < |q| && Sorted(Deadlines(q))
    ensures q[0].deadline <= q[k].deadline
  {
    assert Deadlines(q)[0] <= Deadlines(q)[k];
  }

  // ---------------------------------------------------------------------
  // How far ahead and how far behind the queue can be
  // ---------------------------------------------------------------------

  /** No deadline is further ahead than an int can count. */
  ghost predicate Near<A>(s: State<A>) {
    && (forall i :: 0 <= i < |s.queue| ==> s.queue[i].deadline <= s.elapsed + HALF)
    && (forall a :: a in s.timing ==> s.timing[a].ticks <= HALF)
  }

  /** An alarm with i alarms ahead of it is less than n - i ticks late. */
  ghost predicate Prompt<A>(s: State<A>, n: nat) {
    forall i :: 0 <= i < |s.queue| ==> s.elapsed - s.queue[i].deadline + i < n
  }

  /** A head no further ahead than an int can count is not dispatched before its deadline. */
  lemma NearFires<A>(s: State<A>)
    requires Fires(s) && s.queue[0].deadline <= s.elapsed + HALF
    ensures Due(s)
  {
    KeepsSignExactly(s.queue[0].deadline - s.elapsed - 1);
  }

  lemma PromptFires<A>(s: State<A>, n: nat)
    requires Prompt(s, n) && n <= HALF && Due(s)
    ensures Fires(s)
  {
    KeepsSignExactly(s.queue[0].deadline - s.elapsed - 1);
  }

  lemma NearStep<A>(s: State<A>, ev: Event<A>)
    requires Inv(s) && Known(s, ev) && Near(s) && (ev.Created? ==> ev.ticks <= HALF)
    ensures Near(Step(s, ev))
  {
    hide Enqueue, Dequeue, Without, Sorted, NoAlarmTwice, ToInt;
    match ev
    case Created(a, ticks, times) =>
      EnqueueKeeps(s.queue, Entry(a, s.elapsed + ticks));
    case Destroyed(a) =>
      DequeueKeeps(s.queue, a);
    case WasReset(a) =>
      DequeueKeeps(s.queue, a);
      EnqueueKeeps(Dequeue(s.queue, a), Entry(a, s.elapsed + s.timing[a].ticks));
    case Ticked =>
      if Fires(s) {
        var a := s.queue[0].alarm;
        RemovalKeeps(s.queue, 0);
        EnqueueKeeps(Without(s.queue, 0), Entry(a, s.elapsed + 1 + s.timing[a].ticks));
      }
  }

  /** Lateness survives the insertion of a deadline that is not past. */
  lemma EnqueuePrompt<A>(q: seq<Entry<A>>, e: Entry<A>, t: int, n: nat)
    requires Sorted(Deadlines(q)) && t <= e.deadline && |q| < n
    requires forall i :: 0 <= i < |q| ==> t - q[i].deadline + i < n
    ensures var q' := Enqueue(q, e); forall i :: 0 <= i < |q'| ==> t - q'[i].deadline + i < n
  {
    hide Position, InsertAt, Sorted;
    var k := Position(Deadlines(q), e.deadline, false);
    PositionSorted(Deadlines(q), e.deadline);
    InsertAtAt(q, k, e);
    assert forall i :: k <= i < |q| ==> e.deadline < Deadlines(q)[i];
  }

  /** Lateness survives a removal. */
  lemma RemovalPrompt<A>(q: seq<Entry<A>>, k: nat, t: int, n: nat)
    requires k < |q|
    requires forall i :: 0 <= i < |q| ==> t - q[i].deadline + i < n
    ensures var q' := Without(q, k); forall i :: 0 <= i < |q'| ==> t - q'[i].deadline + i < n
  {
    hide Without;
    WithoutAt(q, k);
  }

  lemma DequeuePrompt<A>(q: seq<Entry<A>>, a: A, t: int, n: nat)
    requires forall i :: 0 <= i < |q| ==> t - q[i].deadline + i < n
    ensures var q' := Dequeue(q, a); forall i :: 0 <= i < |q'| ==> t - q'[i].deadline + i < n
  {
    var k := Find(q, a);
    if k < |q| {
      RemovalPrompt(q, k, t, n);
    }
  }

  lemma FirePrompt<A>(q: seq<Entry<A>>, t: int, n: nat)
    requires q != []
    requires forall i :: 0 <= i < |q| ==> t - q[i].deadline + i < n
    ensures var q' := Without(q, 0); forall i :: 0 <= i < |q'| ==> t + 1 - q'[i].deadline + i < n
  {
    hide Without;
    WithoutAt(q, 0);
  }

  lemma WaitPrompt<A>(s: State<A>, n: nat)
    requires Inv(s) && Prompt(s, n) && |s.queue| <= n <= HALF && !Fires(s)
    ensures Prompt(s.(elapsed := s.elapsed + 1), n)
  {
    hide Sorted, ToInt, NoAlarmTwice;
    if s.queue != [] {
      if Due(s) {
        PromptFires(s, n);
      }
      forall i | 0 <= i < |s.queue|
        ensures s.elapsed + 1 - s.queue[i].deadline + i < n
      {
        HeadEarliest(s.queue, i);
      }
    }
  }

  /** With at most n alarms queued, every event keeps lateness within n. */
  lemma PromptStep<A>(s: State<A>, ev: Event<A>, n: nat)
    requires Inv(s) && Known(s, ev) && Prompt(s, n) && |s.queue| <= n <= HALF && |Step(s, ev).queue| <= n
    ensures Prompt(Step(s, ev), n)
  {
    hide Enqueue, Dequeue, Without, Sorted, NoAlarmTwice, Fires;
    var q := s.queue;
    match ev
    case Created(a, ticks, times) =>
      if ticks > 0 {
        EnqueueKeeps(q, Entry(a, s.elapsed + ticks));
        EnqueuePrompt(q, Entry(a, s.elapsed + ticks), s.elapsed, n);
      }
    case Destroyed(a) =>
      DequeuePrompt(q, a, s.elapsed, n);
    case WasReset(a) =>
      DequeueKeeps(q, a);
      DequeuePrompt(q, a, s.elapsed, n);
      EnqueueKeeps(Dequeue(q, a), Entry(a, s.elapsed + s.timing[a].ticks));
      EnqueuePrompt(Dequeue(q, a), Entry(a, s.elapsed + s.timing[a].ticks), s.elapsed, n);
    case Ticked =>
      if Fires(s) {
        FiresSome(s);
        var t, a := s.elapsed + 1, q[0].alarm;
        RemovalKeeps(q, 0);
        FirePrompt(q, s.elapsed, n);
        EnqueueKeeps(Without(q, 0), Entry(a, t + s.timing[a].ticks));
        EnqueuePrompt(Without(q, 0), Entry(a, t + s.timing[a].ticks), t, n);
      } else {
        WaitPrompt(s, n);
      }
  }

  /** What the two bounds ask of a caller: over every run they hold of the states reached from the empty queue. */
  lemma {:induction false} RunKeepsTime<A>(s: State<A>, es: seq<Event<A>>, n: nat)
    requires Inv(s) && AllKnown(s, es)
    ensures Inv(After(s, es))
    ensures Near(s) && ShortPeriods(es) ==> Near(After(s, es))
    ensures Prompt(s, n) && n <= HALF && Uncrowded(s, es, n) ==> Prompt(After(s, es), n)
    decreases es
  {
    if es != [] {
      hide Inv, Near, Prompt, ShortPeriods, Step, Known;
      var ev, rest := es[0], es[1..];
      InvStep(s, ev);
      if Near(s) && ShortPeriods(es) {
        ShortFirst(es);
        NearStep(s, ev);
        ShortPeriodsTail(es);
      }
      if Prompt(s, n) && n <= HALF && Uncrowded(s, es, n) {
        UncrowdedNow(Step(s, ev), rest, n);
        PromptStep(s, ev, n);
      }
      RunKeepsTime(Step(s, ev), rest, n);
    }
  }

  /** From the empty queue on nothing but the run decides. */
  lemma StartKeepsTime<A>(es: seq<Event<A>>, n: nat)
    requires AllKnown(State(0, [], map[]), es)
    ensures var s := After(State(0, [], map[]), es);
      && Inv(s) && (ShortPeriods(es) ==> Near(s))
      && (n <= HALF && Uncrowded(State(0, [], map[]), es, n) ==> Prompt(s, n))
  {
    RunKeepsTime(State(0, [], map[]), es, n);
  }

  lemma FiresSome<A>(s: State<A>)
    requires Fires(s)
    ensures s.queue != []
  {
  }

  // ---------------------------------------------------------------------
  // Deadlines are met
  // ---------------------------------------------------------------------

  /** A due alarm at position k is never overtaken by an insertion whose deadline is not past. */
  lemma EnqueueBehind<A>(q: seq<Entry<A>>, e: Entry<A>, k: nat)
    requires k < |q| && Sorted(Deadlines(q)) && q[k].deadline <= e.deadline
    ensures |Enqueue(q, e)| == |q| + 1 && Enqueue(q, e)[k] == q[k]
  {
    hide InsertAt, Position, Sorted;
    var p := Position(Deadlines(q), e.deadline, false);
    PositionSorted(Deadlines(q), e.deadline);
    assert Deadlines(q)[k] <= e.deadline;
    PositionSplits(Deadlines(q), e.deadline);
    InsertAtAt(q, p, e);
  }

  /** One event brings a due alarm forward or leaves it in place; a tick fires it or brings it forward. */
  lemma DueAdvances<A>(s: State<A>, ev: Event<A>, k: nat, n: nat) returns (k': nat)
    requires Inv(s) && Known(s, ev) && k < |s.queue| && Prompt(s, n) && n <= HALF
    requires s.queue[k].deadline <= s.elapsed + (if ev.Ticked? then 1 else 0)
    requires ev != Destroyed(s.queue[k].alarm) && ev != WasReset(s.queue[k].alarm)
    ensures ev.Ticked? && k == 0 ==> FireOf(s, ev) == [Fire(s.queue[0].alarm, s.elapsed + 1)]
    ensures !(ev.Ticked? && k == 0) ==>
      && k' <= k && (ev.Ticked? ==> k' == k - 1)
      && k' < |Step(s, ev).queue| && Step(s, ev).queue[k'] == s.queue[k]
  {
    hide Enqueue, Dequeue, Without, Sorted, NoAlarmTwice, Fires, Prompt;
    var q := s.queue;
    k' := k;
    match ev
    case Created(a, ticks, times) =>
      EnqueueBehind(q, Entry(a, s.elapsed + ticks), k);
    case Destroyed(a) =>
      k' := DueSurvives(q, a, k);
    case WasReset(a) =>
      k' := DueSurvives(q, a, k);
      DequeueKeeps(q, a);
      EnqueueBehind(Dequeue(q, a), Entry(a, s.elapsed + s.timing[a].ticks), k');
    case Ticked =>
      HeadEarliest(q, k);
      PromptFires(s, n);
      if k > 0 {
        k' := k - 1;
        var a := q[0].alarm;
        RemovalKeeps(q, 0);
        WithoutAt(q, 0);
        EnqueueBehind(Without(q, 0), Entry(a, s.elapsed + 1 + s.timing[a].ticks), k - 1);
      }
  }

  lemma DueSurvives<A>(q: seq<Entry<A>>, a: A, k: nat) returns (k': nat)
    requires k < |q| && q[k].alarm != a
    ensures k' <= k && k' < |Dequeue(q, a)| && Dequeue(q, a)[k'] == q[k]
  {
    var f := Find(q, a);
    k' := if f < k then k - 1 else k;
    if f < |q| {
      WithoutAt(q, f);
    }
  }

  /** A due alarm with k alarms ahead of it fires within k + 1 ticks, whatever else happens. */
  lemma {:induction false} DueFires<A>(s: State<A>, es: seq<Event<A>>, k: nat, n: nat)
    requires Inv(s) && AllKnown(s, es) && k < |s.queue| && s.queue[k].deadline <= s.elapsed
    requires LeftAlone(es, s.queue[k].alarm) && Ticks(es) > k
    requires Prompt(s, n) && n <= HALF && Uncrowded(s, es, n)
    ensures FiresWithin(Log(s, es), s.queue[k].alarm, s.elapsed + 1, s.elapsed + k + 1)
    decreases es
  {
    hide Inv, Prompt, LeftAlone, Step, Known, FireOf, FiresWithin;
    var ev, rest, a := es[0], es[1..], s.queue[k].alarm;
    LeftAloneFirst(es, a);
    var k' := DueAdvances(s, ev, k, n);
    if ev.Ticked? && k == 0 {
      FiresNow(s, es, a);
    } else {
      InvStep(s, ev);
      UncrowdedNow(Step(s, ev), rest, n);
      PromptStep(s, ev, n);
      var s' := Step(s, ev);
      StepElapsed(s, ev);
      LeftAloneTail(es, a);
      DueFires(s', rest, k', n);
      LogTail(s, es, a, s'.elapsed + 1, s'.elapsed + k' + 1);
      FiresWithinWeaker(Log(s, es), a, s'.elapsed + 1, s'.elapsed + k' + 1, s.elapsed + 1, s.elapsed + k + 1);
    }
  }

  lemma LeftAloneFirst<A>(es: seq<Event<A>>, a: A)
    requires es != [] && LeftAlone(es, a)
    ensures es[0] != Destroyed(a) && es[0] != WasReset(a)
  {
  }

  lemma UncrowdedNow<A>(s: State<A>, es: seq<Event<A>>, n: nat)
    requires AllKnown(s, es) && Uncrowded(s, es, n)
    ensures |s.queue| <= n
  {
  }

  lemma StepElapsed<A>(s: State<A>, ev: Event<A>)
    requires Known(s, ev)
    ensures Step(s, ev).elapsed == s.elapsed + (if ev.Ticked? then 1 else 0)
  {
  }

  lemma FiresNow<A>(s: State<A>, es: seq<Event<A>>, a: A)
    requires es != [] && AllKnown(s, es) && FireOf(s, es[0]) == [Fire(a, s.elapsed + 1)]
    ensures FiresWithin(Log(s, es), a, s.elapsed + 1, s.elapsed + 1)
  {
    assert Log(s, es)[0] == Fire(a, s.elapsed + 1);
  }

  /** The lateness bound: about to become due with k alarms ahead, an alarm fires between its deadline and k
      ticks after it. */
  lemma LatenessBound<A>(s: State<A>, es: seq<Event<A>>, k: nat, n: nat)
    requires Inv(s) && AllKnown(s, es) && k < |s.queue|
    requires es != [] && es[0].Ticked? && s.queue[k].deadline == s.elapsed + 1
    requires LeftAlone(es, s.queue[k].alarm) && Ticks(es) > k
    requires Prompt(s, n) && n <= HALF && Uncrowded(s, es, n)
    ensures FiresWithin(Log(s, es), s.queue[k].alarm, s.queue[k].deadline, s.queue[k].deadline + k)
  {
    hide Inv, Prompt, LeftAlone, Step, FireOf, FiresWithin;
    var a, d, rest := s.queue[k].alarm, s.queue[k].deadline, es[1..];
    var k' := DueAdvances(s, Ticked, k, n);
    if k == 0 {
      FiresNow(s, es, a);
    } else {
      InvStep(s, Ticked);
      UncrowdedNow(Step(s, Ticked), rest, n);
      PromptStep(s, Ticked, n);
      StepElapsed(s, Ticked);
      LeftAloneTail(es, a);
      DueFires(Step(s, Ticked), rest, k', n);
      LogTail(s, es, a, d + 1, d + k);
    }
    FiresWithinWeaker(Log(s, es), a, if k == 0 then d else d + 1, d + k, d, d + k);
  }

  /** An entry stays queued, with its deadline, until it fires or the alarm is destroyed or reset. */
  lemma EntryStays<A>(s: State<A>, ev: Event<A>, k: nat) returns (k': nat)
    requires Inv(s) && Known(s, ev) && k < |s.queue|
    requires ev != Destroyed(s.queue[k].alarm) && ev != WasReset(s.queue[k].alarm)
    requires !(ev.Ticked? && Fires(s) && k == 0)
    ensures k' < |Step(s, ev).queue| && Step(s, ev).queue[k'] == s.queue[k]
  {
    hide Enqueue, Dequeue, Without, Sorted, NoAlarmTwice, Fires;
    var q := s.queue;
    k' := k;
    match ev
    case Created(a, ticks, times) =>
      if ticks > 0 {
        k' := EnqueueHas(q, Entry(a, s.elapsed + ticks), k);
      }
    case Destroyed(a) =>
      k' := DueSurvives(q, a, k);
    case WasReset(a) =>
      k' := DueSurvives(q, a, k);
      k' := EnqueueHas(Dequeue(q, a), Entry(a, s.elapsed + s.timing[a].ticks), k');
    case Ticked =>
      if Fires(s) {
        k' := k - 1;
        var a := q[0].alarm;
        WithoutAt(q, 0);
        if CountDown(s.timing[a].times) > 0 {
          k' := EnqueueHas(Without(q, 0), Entry(a, s.elapsed + 1 + s.timing[a].ticks), k');
        }
      }
  }

  lemma EnqueueHas<A>(q: seq<Entry<A>>, e: Entry<A>, k: nat) returns (k': nat)
    requires k < |q|
    ensures k' < |Enqueue(q, e)| && Enqueue(q, e)[k'] == q[k]
  {
    hide InsertAt, Position;
    var p := Position(Deadlines(q), e.deadline, false);
    InsertAtAt(q, p, e);
    k' := if k < p then k else k + 1;
  }

  lemma EnqueueHolds<A>(q: seq<Entry<A>>, e: Entry<A>) returns (k: nat)
    ensures k < |Enqueue(q, e)| && Enqueue(q, e)[k] == e
  {
    hide InsertAt, Position;
    k := Position(Deadlines(q), e.deadline, false);
    InsertAtAt(q, k, e);
  }

  lemma PromptAt<A>(s: State<A>, k: nat, n: nat)
    requires k < |s.queue| && Prompt(s, n)
    ensures s.elapsed - s.queue[k].deadline + k < n
  {
  }

  /** Every deadline is met: with at most n alarms queued, whatever is queued no further ahead than an int can count,
      and left alone, fires at its deadline or up to n ticks after it. */
  lemma {:induction false} DeadlineMet<A>(s: State<A>, es: seq<Event<A>>, k: nat, n: nat)
    requires Inv(s) && AllKnown(s, es) && k < |s.queue| && s.queue[k].deadline <= s.elapsed + HALF
    requires Prompt(s, n) && n <= HALF && Uncrowded(s, es, n)
    requires LeftAlone(es, s.queue[k].alarm) && s.elapsed + Ticks(es) >= s.queue[k].deadline + n
    ensures FiresWithin(Log(s, es), s.queue[k].alarm, s.queue[k].deadline, s.queue[k].deadline + n)
    decreases es
  {
    hide Inv, Prompt, LeftAlone, Step, Known, FiresWithin;
    var a, d := s.queue[k].alarm, s.queue[k].deadline;
    PromptAt(s, k, n);
    var ev, rest := es[0], es[1..];
    LeftAloneFirst(es, a);
    if ev.Ticked? && Fires(s) && k == 0 {
      NearFires(s);
      FiresNow(s, es, a);
      FiresWithinWeaker(Log(s, es), a, s.elapsed + 1, s.elapsed + 1, d, d + n);
    } else {
      var k' := EntryStays(s, ev, k);
      InvStep(s, ev);
      UncrowdedNow(Step(s, ev), rest, n);
      PromptStep(s, ev, n);
      StepElapsed(s, ev);
      LeftAloneTail(es, a);
      DeadlineMet(Step(s, ev), rest, k', n);
      LogTail(s, es, a, d, d + n);
    }
  }

  lemma ShortFirst<A>(es: seq<Event<A>>)
    requires es != [] && ShortPeriods(es)
    ensures es[0].Created? ==> es[0].ticks <= HALF
  {
  }

  // ---------------------------------------------------------------------
  // No alarm fires early
  // ---------------------------------------------------------------------

  /** Every queued occurrence of a has deadline d or later, but no further ahead than an int can count. */
  ghost predicate Own<A>(s: State<A>, a: A, d: int) {
    && a in s.timing
    && forall i :: 0 <= i < |s.queue| && s.queue[i].alarm == a ==> d <= s.queue[i].deadline <= s.elapsed + HALF
  }

  /** Other alarms, whatever their periods, do not touch a's entry. */
  lemma OwnStep<A>(s: State<A>, ev: Event<A>, a: A, d: int)
    requires Inv(s) && Known(s, ev) && Own(s, a, d) && ev != Destroyed(a) && ev != WasReset(a)
    requires ev.Ticked? && Fires(s) && s.queue[0].alarm == a ==> s.timing[a].ticks <= HALF
    ensures Own(Step(s, ev), a, d)
  {
    hide Enqueue, Dequeue, Without, Sorted, NoAlarmTwice, Fires;
    var q := s.queue;
    match ev
    case Created(b, ticks, times) =>
      EnqueueKeeps(q, Entry(b, s.elapsed + ticks));
    case Destroyed(b) =>
      DequeueKeeps(q, b);
    case WasReset(b) =>
      DequeueKeeps(q, b);
      EnqueueKeeps(Dequeue(q, b), Entry(b, s.elapsed + s.timing[b].ticks));
    case Ticked =>
      if Fires(s) {
        FiresSome(s);
        var b := q[0].alarm;
        if b == a {
          NearFires(s);
        }
        RemovalKeeps(q, 0);
        EnqueueKeeps(Without(q, 0), Entry(b, s.elapsed + 1 + s.timing[b].ticks));
      }
  }

  ghost predicate NoneBefore<A>(log: seq<Fire<A>>, a: A, d: int) {
    forall i :: 0 <= i < |log| && log[i].alarm == a ==> d <= log[i].time
  }

  /** What a run logs happens after its start. */
  lemma {:induction false} LogLater<A>(s: State<A>, es: seq<Event<A>>, a: A, d: int)
    requires AllKnown(s, es) && d <= s.elapsed + 1
    ensures NoneBefore(Log(s, es), a, d)
    decreases es
  {
    if es != [] {
      LogLater(Step(s, es[0]), es[1..], a, d);
    }
  }

  /** No alarm fires early: left alone and queued no further ahead than an int can count, an alarm never fires before
      the deadline it is queued with, whatever the periods of the others. */
  lemma {:induction false} NeverEarly<A>(s: State<A>, es: seq<Event<A>>, a: A, d: int)
    requires Inv(s) && AllKnown(s, es) && Own(s, a, d) && LeftAlone(es, a)
    ensures NoneBefore(Log(s, es), a, d)
    decreases es
  {
    if es != [] {
      var ev, rest := es[0], es[1..];
      if ev.Ticked? && Fires(s) && s.queue[0].alarm == a {
        NearFires(s);
        LogLater(Step(s, ev), rest, a, d);
      } else {
        hide Inv, Own, LeftAlone, Step, Known;
        LeftAloneFirst(es, a);
        OwnStep(s, ev, a, d);
        InvStep(s, ev);
        LeftAloneTail(es, a);
        NeverEarly(Step(s, ev), rest, a, d);
      }
    }
  }

  ghost predicate Apart<A>(log: seq<Fire<A>>, a: A, period: nat) {
    forall i, j :: 0 <= i < j < |log| && log[i].alarm == a && log[j].alarm == a ==> log[i].time + period <= log[j].time
  }

  /** Nor does it come back early: with a period an int can count, its firings are at least one period apart. */
  lemma {:induction false} PeriodKept<A>(s: State<A>, es: seq<Event<A>>, a: A)
    requires Inv(s) && AllKnown(s, es) && a in s.timing && s.timing[a].ticks <= HALF && LeftAlone(es, a)
    ensures Apart(Log(s, es), a, s.timing[a].ticks)
    decreases es
  {
    hide Inv, LeftAlone, Step, Known, Apart, NoneBefore, Own;
    if es == [] {
      ApartNone(a, s.timing[a].ticks);
    } else {
      var ev, rest := es[0], es[1..];
      LeftAloneFirst(es, a);
      InvStep(s, ev);
      LeftAloneTail(es, a);
      TicksStay(s, ev, a);
      PeriodKept(Step(s, ev), rest, a);
      if ev.Ticked? && Fires(s) && s.queue[0].alarm == a {
        FiringOwns(s);
        NeverEarly(Step(s, ev), rest, a, s.elapsed + 1 + s.timing[a].ticks);
      }
      ApartCons(FireOf(s, ev), Log(Step(s, ev), rest), a, s.timing[a].ticks);
    }
  }

  lemma ApartNone<A>(a: A, period: nat)
    ensures Apart<A>([], a, period)
  {
  }

  lemma ApartCons<A>(f: seq<Fire<A>>, log: seq<Fire<A>>, a: A, period: nat)
    requires Apart(log, a, period) && |f| <= 1
    requires f != [] && f[0].alarm == a ==> NoneBefore(log, a, f[0].time + period)
    ensures Apart(f + log, a, period)
  {
  }

  lemma TicksStay<A>(s: State<A>, ev: Event<A>, a: A)
    requires Known(s, ev) && a in s.timing && ev != Destroyed(a)
    ensures a in Step(s, ev).timing && Step(s, ev).timing[a].ticks == s.timing[a].ticks
  {
  }

  /** A fired alarm is queued again, if at all, one period later. */
  lemma FiringOwns<A>(s: State<A>)
    requires Inv(s) && Fires(s) && s.timing[s.queue[0].alarm].ticks <= HALF
    ensures var a := s.queue[0].alarm; Own(Step(s, Ticked), a, s.elapsed + 1 + s.timing[a].ticks)
  {
    hide Enqueue, Without, Sorted, Fires;
    FiresSome(s);
    var a := s.queue[0].alarm;
    RemovalKeeps(s.queue, 0);
    EnqueueKeeps(Without(s.queue, 0), Entry(a, s.elapsed + 1 + s.timing[a].ticks));
  }

  /** A run in which a is created in a state that does not know it, and left alone from then on. */
  ghost predicate Newcomer<A>(s: State<A>, es: seq<Event<A>>, a: A, ticks: nat, times: nat) {
    && Inv(s) && a !in s.timing && LeftAlone(es, a)
    && AllKnown(s, [Created(a, ticks, times)] + es)
  }

  lemma NewcomerOnTime<A>(s: State<A>, es: seq<Event<A>>, a: A, ticks: nat, times: nat)
    requires Newcomer(s, es, a, ticks, times) && ticks <= HALF
    ensures NoneBefore(Log(s, [Created(a, ticks, times)] + es), a, s.elapsed + ticks)
  {
    hide Inv, LeftAlone, Own, Step, Known;
    var run := [Created(a, ticks, times)] + es;
    assert run[0] == Created(a, ticks, times) && run[1..] == es;
    InvStep(s, run[0]);
    NewcomerOwns(s, a, ticks, times);
    NeverEarly(Step(s, run[0]), es, a, s.elapsed + ticks);
  }

  lemma NewcomerOwns<A>(s: State<A>, a: A, ticks: nat, times: nat)
    requires Inv(s) && Known(s, Created(a, ticks, times)) && ticks <= HALF
    ensures Own(Step(s, Created(a, ticks, times)), a, s.elapsed + ticks)
    ensures FireOf(s, Created(a, ticks, times)) == []
  {
    hide Enqueue, Sorted, NoAlarmTwice;
    EnqueueKeeps(s.queue, Entry(a, s.elapsed + ticks));
  }

  // ---------------------------------------------------------------------
  // A used-up alarm that is reset
  // ---------------------------------------------------------------------

  ghost predicate IsQueued<A>(s: State<A>, a: A) {
    exists i :: 0 <= i < |s.queue| && s.queue[i].alarm == a
  }

  /** A counter that does not run out: 0 wraps to INFINITE. */
  predicate RunsOn(times: nat) {
    times == 0 || times == INFINITE
  }

  /** Queued, with a counter that does not run out. */
  ghost predicate Endless<A>(s: State<A>, a: A) {
    IsQueued(s, a) && a in s.timing && RunsOn(s.timing[a].times)
  }

  /** Out of the queue with its firings used up. */
  ghost predicate UsedUp<A>(s: State<A>, a: A) {
    !IsQueued(s, a) && a in s.timing && s.timing[a].times == 0
  }

  lemma QueuedAgain<A>(s: State<A>, a: A, k: nat)
    requires k < |s.queue| && s.queue[k].alarm == a
    ensures IsQueued(s, a)
  {
  }

  /** A reset queues the alarm, whatever its counter. */
  lemma ResetQueues<A>(s: State<A>, a: A) returns (k: nat)
    requires a in s.timing
    ensures k < |Step(s, WasReset(a)).queue|
    ensures Step(s, WasReset(a)).queue[k] == Entry(a, s.elapsed + s.timing[a].ticks)
    ensures Step(s, WasReset(a)).timing == s.timing
  {
    hide Enqueue, Dequeue;
    k := EnqueueHolds(Dequeue(s.queue, a), Entry(a, s.elapsed + s.timing[a].ticks));
  }

  /** A firing that is not the last queues the alarm again, with one firing less or for ever. */
  lemma FiringQueues<A>(s: State<A>) returns (k: nat)
    requires Inv(s) && Fires(s) && s.timing[s.queue[0].alarm].times != 1
    requires s.timing[s.queue[0].alarm].times <= INFINITE
    ensures var a := s.queue[0].alarm;
      && k < |Step(s, Ticked).queue|
      && Step(s, Ticked).queue[k] == Entry(a, s.elapsed + 1 + s.timing[a].ticks)
      && Step(s, Ticked).timing == s.timing[a :=
           Timing(s.timing[a].ticks, if RunsOn(s.timing[a].times) then INFINITE else s.timing[a].times - 1)]
  {
    hide Enqueue, Without, Fires;
    FiresSome(s);
    var a := s.queue[0].alarm;
    k := EnqueueHolds(Without(s.queue, 0), Entry(a, s.elapsed + 1 + s.timing[a].ticks));
  }

  lemma TimingStays<A>(s: State<A>, ev: Event<A>, a: A)
    requires Inv(s) && Known(s, ev) && a in s.timing && ev != Destroyed(a)
    requires !(ev.Ticked? && Fires(s) && s.queue[0].alarm == a)
    ensures a in Step(s, ev).timing && Step(s, ev).timing[a] == s.timing[a]
  {
  }

  lemma EndlessStep<A>(s: State<A>, ev: Event<A>, a: A)
    requires Inv(s) && Known(s, ev) && Endless(s, a) && ev != Destroyed(a)
    ensures Endless(Step(s, ev), a)
    ensures s.timing[a].times == INFINITE ==> Step(s, ev).timing[a].times == INFINITE
    ensures ev.Ticked? && Fires(s) && s.queue[0].alarm == a ==> Step(s, ev).timing[a].times == INFINITE
  {
    hide Step, Fires, IsQueued, NoAlarmTwice, Sorted, Known;
    if Fires(s) {
      FiresSome(s);
    }
    if ev.Ticked? && Fires(s) && s.queue[0].alarm == a {
      var k := FiringQueues(s);
      QueuedAgain(Step(s, ev), a, k);
    } else {
      TimingStays(s, ev, a);
      if ev == WasReset(a) {
        var k := ResetQueues(s, a);
        QueuedAgain(Step(s, ev), a, k);
      } else {
        var i := QueuedAt(s, a);
        var k := EntryStays(s, ev, i);
        QueuedAgain(Step(s, ev), a, k);
      }
    }
  }

  lemma QueuedAt<A>(s: State<A>, a: A) returns (k: nat)
    requires IsQueued(s, a)
    ensures k < |s.queue| && s.queue[k].alarm == a
  {
    k :| 0 <= k < |s.queue| && s.queue[k].alarm == a;
  }

  /** Over every run that does not destroy it, an endless alarm stays queued; once it has fired, its counter is
      INFINITE. */
  lemma {:induction false} EndlessRun<A>(s: State<A>, es: seq<Event<A>>, a: A)
    requires Inv(s) && AllKnown(s, es) && Endless(s, a) && Survives(es, a)
    ensures Endless(After(s, es), a)
    ensures s.timing[a].times == INFINITE || Firings(Log(s, es), a) > 0 ==> After(s, es).timing[a].times == INFINITE
    decreases es
  {
    if es != [] {
      hide Inv, Step, Endless, Known, Fires;
      var ev, rest := es[0], es[1..];
      EndlessStep(s, ev, a);
      InvStep(s, ev);
      EndlessTimed(s, a);
      EndlessTimed(Step(s, ev), a);
      EndlessRun(Step(s, ev), rest, a);
      FiringsAppend(FireOf(s, ev), Log(Step(s, ev), rest), a);
    }
  }

  lemma EndlessTimed<A>(s: State<A>, a: A)
    requires Endless(s, a)
    ensures a in s.timing
  {
  }

  lemma {:induction false} FiringsAppend<A>(l: seq<Fire<A>>, m: seq<Fire<A>>, a: A)
    ensures Firings(l + m, a) == Firings(l, a) + Firings(m, a)
  {
    if l == [] {
      assert l + m == m;
    } else {
      assert (l + m)[1..] == l[1..] + m;
      FiringsAppend(l[1..], m, a);
    }
  }

  lemma StaysInfinite()
    ensures RunsOn(INFINITE)
  {
  }

  lemma TicksNone<A>(es: seq<Event<A>>)
    ensures es == [] ==> Ticks(es) == 0
  {
  }

  /** The first event of a run and what is left of it. */
  lemma OneEvent<A>(s: State<A>, es: seq<Event<A>>, a: A, n: nat)
    requires Inv(s) && AllKnown(s, es) && es != [] && Prompt(s, n) && n <= HALF && Uncrowded(s, es, n)
    ensures Known(s, es[0]) && Step(s, es[0]).elapsed == s.elapsed + (if es[0].Ticked? then 1 else 0)
    ensures Inv(Step(s, es[0])) && Prompt(Step(s, es[0]), n)
    ensures AllKnown(Step(s, es[0]), es[1..]) && Uncrowded(Step(s, es[0]), es[1..], n)
    ensures Firings(Log(s, es), a) == Firings(FireOf(s, es[0]), a) + Firings(Log(Step(s, es[0]), es[1..]), a)
  {
    hide Inv, Prompt, Step, Known, Firings, FireOf;
    InvStep(s, es[0]);
    UncrowdedNow(Step(s, es[0]), es[1..], n);
    PromptStep(s, es[0], n);
    StepElapsed(s, es[0]);
    FiringsAppend(FireOf(s, es[0]), Log(Step(s, es[0]), es[1..]), a);
  }

  lemma FiringCounts<A>(s: State<A>)
    requires Fires(s)
    ensures s.queue != [] && Firings(FireOf(s, Ticked), s.queue[0].alarm) == 1
  {
  }

  /** The clock of the run reaches m periods beyond the deadline d, with n ticks of lateness in each. */
  predicate TimeFor(now: int, ticks: nat, d: int, period: nat, m: nat, n: nat) {
    m == 0 || now + ticks >= d + n + (m - 1) * (period + n)
  }

  lemma TimeLeft(now: int, ticks: nat, d: int, period: nat, m: nat, n: nat)
    requires m > 0 && TimeFor(now, ticks, d, period, m, n) && now <= d + n
    ensures now + ticks >= d + n
  {
    assert (m - 1) * (period + n) >= 0;
  }

  /** Fired no later than d + n, the alarm has its next deadline one period later. */
  lemma TimeAfterFiring(now: int, ticks: nat, d: int, period: nat, m: nat, n: nat)
    requires m > 0 && TimeFor(now, ticks, d, period, m, n) && now <= d + n
    ensures TimeFor(now, ticks, now + period, period, m - 1, n)
  {
    if m > 1 {
      assert (m - 1) * (period + n) == (m - 2) * (period + n) + (period + n);
    }
  }

  lemma TimePasses(now: int, es: seq<Event>, d: int, period: nat, m: nat, n: nat)
    requires es != [] && TimeFor(now, Ticks(es), d, period, m, n)
    ensures TimeFor(now + (if es[0].Ticked? then 1 else 0), Ticks(es[1..]), d, period, m, n)
  {
  }

  /** The counter allows m firings. */
  predicate Lasts(times: nat, m: nat) {
    RunsOn(times) || m <= times < INFINITE
  }

  lemma LastsOneLess(times: nat, m: nat)
    requires m > 1 && Lasts(times, m)
    ensures times != 1 && times <= INFINITE
    ensures Lasts(if RunsOn(times) then INFINITE else times - 1, m - 1)
  {
  }

  /** An alarm keeps firing as its counter allows: m times in m periods, with n ticks of lateness in each. */
  lemma {:induction false} FiresOften<A>(s: State<A>, es: seq<Event<A>>, k: nat, m: nat, n: nat)
    requires Inv(s) && AllKnown(s, es) && k < |s.queue| && LeftAlone(es, s.queue[k].alarm)
    requires s.queue[k].alarm in s.timing && Lasts(s.timing[s.queue[k].alarm].times, m)
    requires Prompt(s, n) && n <= HALF && Uncrowded(s, es, n)
    requires TimeFor(s.elapsed, Ticks(es), s.queue[k].deadline, s.timing[s.queue[k].alarm].ticks, m, n)
    ensures Firings(Log(s, es), s.queue[k].alarm) >= m
    decreases es
  {
    hide Inv, Prompt, LeftAlone, Step, Known, Fires, TimeFor, Firings, FireOf, Log, AllKnown, Uncrowded, Ticks;
    hide RunsOn, Lasts;
    if m > 0 {
      var a, d, period := s.queue[k].alarm, s.queue[k].deadline, s.timing[s.queue[k].alarm].ticks;
      PromptAt(s, k, n);
      TimeLeft(s.elapsed, Ticks(es), d, period, m, n);
      TicksNone(es);
      var ev, rest := es[0], es[1..];
      LeftAloneFirst(es, a);
      OneEvent(s, es, a, n);
      LeftAloneTail(es, a);
      TimePasses(s.elapsed, es, d, period, m, n);
      if ev.Ticked? && Fires(s) && k == 0 {
        FiringCounts(s);
        if m > 1 {
          LastsOneLess(s.timing[a].times, m);
          var k' := FiringQueues(s);
          TimeAfterFiring(s.elapsed + 1, Ticks(rest), d, period, m, n);
          FiresOften(Step(s, ev), rest, k', m - 1, n);
        }
      } else {
        var k' := EntryStays(s, ev, k);
        NotHead(s, k);
        TimingStays(s, ev, a);
        FiresOften(Step(s, ev), rest, k', m, n);
      }
    }
  }

  /** An alarm whose counter does not run out fires m times in m periods, for every m. */
  lemma EndlessFires<A>(s: State<A>, es: seq<Event<A>>, k: nat, m: nat, n: nat)
    requires Inv(s) && AllKnown(s, es) && k < |s.queue| && LeftAlone(es, s.queue[k].alarm)
    requires s.queue[k].alarm in s.timing && RunsOn(s.timing[s.queue[k].alarm].times)
    requires Prompt(s, n) && n <= HALF && Uncrowded(s, es, n)
    requires TimeFor(s.elapsed, Ticks(es), s.queue[k].deadline, s.timing[s.queue[k].alarm].ticks, m, n)
    ensures Firings(Log(s, es), s.queue[k].alarm) >= m
  {
    hide Inv, Prompt, LeftAlone, TimeFor, Firings, Log, AllKnown, Uncrowded, Ticks;
    FiresOften(s, es, k, m, n);
  }

  lemma NotHead<A>(s: State<A>, k: nat)
    requires Inv(s) && k < |s.queue|
    ensures s.queue[k].alarm in s.timing
    ensures k > 0 ==> s.queue[0].alarm != s.queue[k].alarm
  {
  }

  /** Only its own creation and reset queue an alarm that is not in the queue. */
  lemma SilentStep<A>(s: State<A>, ev: Event<A>, a: A)
    requires Inv(s) && Known(s, ev) && !IsQueued(s, a) && !(ev.Created? && ev.a == a) && ev != WasReset(a)
    ensures !IsQueued(Step(s, ev), a) && Firings(FireOf(s, ev), a) == 0
  {
    hide Enqueue, Dequeue, Without, Sorted, NoAlarmTwice, Fires;
    var q := s.queue;
    match ev
    case Created(b, ticks, times) =>
      EnqueueKeeps(q, Entry(b, s.elapsed + ticks));
    case Destroyed(b) =>
      DequeueKeeps(q, b);
    case WasReset(b) =>
      DequeueKeeps(q, b);
      EnqueueKeeps(Dequeue(q, b), Entry(b, s.elapsed + s.timing[b].ticks));
    case Ticked =>
      if Fires(s) {
        FiresSome(s);
        var b := q[0].alarm;
        RemovalKeeps(q, 0);
        EnqueueKeeps(Without(q, 0), Entry(b, s.elapsed + 1 + s.timing[b].ticks));
      }
  }

  /** Nobody creates or resets a in the run. */
  ghost predicate Unasked<A>(es: seq<Event<A>>, a: A) {
    forall i :: 0 <= i < |es| ==> !(es[i].Created? && es[i].a == a) && es[i] != WasReset(a)
  }

  /** What is not queued does not fire: an alarm destroyed, used up, or created with no ticks. */
  lemma {:induction false} SilentRun<A>(s: State<A>, es: seq<Event<A>>, a: A)
    requires Inv(s) && AllKnown(s, es) && !IsQueued(s, a) && Unasked(es, a)
    ensures Firings(Log(s, es), a) == 0 && !IsQueued(After(s, es), a)
    decreases es
  {
    if es != [] {
      hide Inv, Step, Known, IsQueued, FireOf;
      SilentStep(s, es[0], a);
      InvStep(s, es[0]);
      assert forall i :: 0 <= i < |es| - 1 ==> es[1..][i] == es[i + 1];
      SilentRun(Step(s, es[0]), es[1..], a);
      FiringsAppend(FireOf(s, es[0]), Log(Step(s, es[0]), es[1..]), a);
    }
  }

  /** Destruction, and creation with no ticks, leave the alarm out of the queue. */
  lemma OutOfQueue<A>(s: State<A>, a: A, times: nat)
    requires Inv(s)
    ensures a in s.timing ==> !IsQueued(Step(s, Destroyed(a)), a) && a !in Step(s, Destroyed(a)).timing
    ensures a !in s.timing ==> !IsQueued(Step(s, Created(a, 0, times)), a)
  {
    hide Dequeue, Sorted;
    DequeueKeeps(s.queue, a);
  }

  lemma UsedUpStep<A>(s: State<A>, ev: Event<A>, a: A)
    requires Inv(s) && Known(s, ev) && UsedUp(s, a) && ev != Destroyed(a) && ev != WasReset(a)
    ensures UsedUp(Step(s, ev), a)
  {
    hide Step, Inv, IsQueued, FireOf;
    SilentStep(s, ev, a);
    UsedUpTiming(s, ev, a);
  }

  lemma UsedUpTiming<A>(s: State<A>, ev: Event<A>, a: A)
    requires Inv(s) && Known(s, ev) && UsedUp(s, a) && ev != Destroyed(a)
    ensures a in Step(s, ev).timing && Step(s, ev).timing[a] == s.timing[a]
  {
    HeadQueued(s);
    hide Step, IsQueued, Inv;
    TimingStays(s, ev, a);
  }

  lemma HeadQueued<A>(s: State<A>)
    ensures s.queue != [] ==> IsQueued(s, s.queue[0].alarm)
  {
  }

  lemma {:induction false} UsedUpRun<A>(s: State<A>, es: seq<Event<A>>, a: A)
    requires Inv(s) && AllKnown(s, es) && UsedUp(s, a) && LeftAlone(es, a)
    ensures Inv(After(s, es)) && UsedUp(After(s, es), a) && Firings(Log(s, es), a) == 0
    decreases es
  {
    if es != [] {
      UsedUpStep(s, es[0], a);
      InvStep(s, es[0]);
      UsedUpRun(Step(s, es[0]), es[1..], a);
      FiringsAppend(FireOf(s, es[0]), Log(Step(s, es[0]), es[1..]), a);
    }
  }

  /** The last firing leaves the alarm used up and silent; a reset then queues it for good: over every run that does not
      destroy it it stays queued, and from its next firing on its counter stands for endless. */
  lemma ExhaustedResetIsEndless<A>(s: State<A>, before: seq<Event<A>>, after: seq<Event<A>>, a: A)
    requires Inv(s) && Fires(s) && s.queue[0].alarm == a && s.timing[a].times == 1
    requires AllKnown(Step(s, Ticked), before) && LeftAlone(before, a)
    ensures var s1 := After(Step(s, Ticked), before);
      && UsedUp(s1, a) && Firings(Log(Step(s, Ticked), before), a) == 0
      && (AllKnown(Step(s1, WasReset(a)), after) && Survives(after, a) ==>
            var s2 := After(Step(s1, WasReset(a)), after);
            && Endless(s2, a)
            && (Firings(Log(Step(s1, WasReset(a)), after), a) > 0 ==> s2.timing[a].times == INFINITE))
  {
    hide Step, Fires;
    LastFiring(s);
    InvStep(s, Ticked);
    UsedUpRun(Step(s, Ticked), before, a);
    var s1 := After(Step(s, Ticked), before);
    var k := ResetQueues(s1, a);
    InvStep(s1, WasReset(a));
    QueuedAgain(Step(s1, WasReset(a)), a, k);
    if AllKnown(Step(s1, WasReset(a)), after) && Survives(after, a) {
      EndlessRun(Step(s1, WasReset(a)), after, a);
    }
  }

  lemma LastFiring<A>(s: State<A>)
    requires Inv(s) && Fires(s) && s.timing[s.queue[0].alarm].times == 1
    ensures UsedUp(Step(s, Ticked), s.queue[0].alarm)
  {
    LeavesAfterLast(s);
  }

  // ---------------------------------------------------------------------
  // How often a finite alarm fires
  // ---------------------------------------------------------------------

  /** a has n firings left, and is queued while there are any. */
  ghost predicate FiringsLeft<A>(s: State<A>, a: A, n: nat) {
    a in s.timing && s.timing[a].times == n && (IsQueued(s, a) <==> n > 0)
  }

  lemma FiringsLeftStep<A>(s: State<A>, ev: Event<A>, a: A, n: nat)
    requires Inv(s) && Known(s, ev) && FiringsLeft(s, a, n) && n < INFINITE
    requires ev != Destroyed(a) && ev != WasReset(a)
    ensures var f := Firings(FireOf(s, ev), a); f <= n && FiringsLeft(Step(s, ev), a, n - f)
  {
    hide Inv, Step, IsQueued, FireOf, Fires, Firings;
    if n == 0 {
      SilentStep(s, ev, a);
      UsedUpTiming(s, ev, a);
    } else {
      var i := QueuedAt(s, a);
      if ev.Ticked? && Fires(s) && i == 0 {
        FiringCounts(s);
        if n == 1 {
          LastFiring(s);
        } else {
          var k := FiringQueues(s);
          QueuedAgain(Step(s, ev), a, k);
        }
      } else {
        NotHead(s, i);
        TimingStays(s, ev, a);
        OtherFires(s, ev, a, i);
        var k := EntryStays(s, ev, i);
        QueuedAgain(Step(s, ev), a, k);
      }
    }
  }

  lemma OtherFires<A>(s: State<A>, ev: Event<A>, a: A, i: nat)
    requires Inv(s) && i < |s.queue| && s.queue[i].alarm == a && !(ev.Ticked? && Fires(s) && i == 0)
    ensures Firings(FireOf(s, ev), a) == 0
  {
  }

  lemma NoFirings<A>(a: A)
    ensures Firings<A>([], a) == 0
  {
  }

  /** Over every run that leaves it alone, an alarm with n firings left fires n times at most; what is left of the
      counter is n less the firings, and the alarm is queued exactly while something is left. */
  lemma {:induction false} CountsOff<A>(s: State<A>, es: seq<Event<A>>, a: A, n: nat)
    requires Inv(s) && AllKnown(s, es) && FiringsLeft(s, a, n) && n < INFINITE && LeftAlone(es, a)
    ensures var f := Firings(Log(s, es), a); f <= n && FiringsLeft(After(s, es), a, n - f)
    decreases es
  {
    hide Inv, Step, Known, FireOf, LeftAlone, FiringsLeft, Firings;
    if es == [] {
      NoFirings(a);
    } else {
      LeftAloneFirst(es, a);
      FiringsLeftStep(s, es[0], a, n);
      InvStep(s, es[0]);
      LeftAloneTail(es, a);
      var f := Firings(FireOf(s, es[0]), a);
      CountsOff(Step(s, es[0]), es[1..], a, n - f);
      FiringsAppend(FireOf(s, es[0]), Log(Step(s, es[0]), es[1..]), a);
    }
  }

  /** Given the time, it fires exactly as often as its counter says and is used up. */
  lemma FiresExactly<A>(s: State<A>, es: seq<Event<A>>, k: nat, n: nat)
    requires Inv(s) && AllKnown(s, es) && k < |s.queue| && LeftAlone(es, s.queue[k].alarm)
    requires s.queue[k].alarm in s.timing && 1 <= s.timing[s.queue[k].alarm].times < INFINITE
    requires Prompt(s, n) && n <= HALF && Uncrowded(s, es, n)
    requires var t := s.timing[s.queue[k].alarm];
      TimeFor(s.elapsed, Ticks(es), s.queue[k].deadline, t.ticks, t.times, n)
    ensures Firings(Log(s, es), s.queue[k].alarm) == s.timing[s.queue[k].alarm].times
    ensures UsedUp(After(s, es), s.queue[k].alarm)
  {
    hide Inv, Prompt, LeftAlone, TimeFor, Firings, Log, AllKnown, Uncrowded, Ticks, After, IsQueued;
    var a := s.queue[k].alarm;
    QueuedAgain(s, a, k);
    CountsOff(s, es, a, s.timing[a].times);
    FiresOften(s, es, k, s.timing[a].times, n);
  }

  /** A new alarm with ticks to wait has as many firings as it was created with. */
  lemma CreatedWith<A>(s: State<A>, a: A, ticks: nat, times: nat)
    requires Inv(s) && a !in s.timing && ticks > 0 && times > 0
    ensures FiringsLeft(Step(s, Created(a, ticks, times)), a, times)
    ensures Step(s, Created(a, ticks, times)).timing[a].ticks == ticks
  {
    hide Enqueue;
    var k := EnqueueHolds(s.queue, Entry(a, s.elapsed + ticks));
    QueuedAgain(Step(s, Created(a, ticks, times)), a, k);
  }
}
