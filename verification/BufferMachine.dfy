/** app/producer_consumer/producer_consumer.cc over src/api/semaphore.cc: both loops as atomic steps. */
module BufferMachine {

  const SIZE: nat := 16

  datatype Role = Producer | Consumer

  /** A semaphore with the threads asleep on it. */
  datatype Sem = Sem(value: int, waiting: seq<Role>)

  /** p: take one, and sleep if there was none. */
  function P(s: Sem, who: Role): Sem {
    Sem(s.value - 1, if s.value < 1 then s.waiting + [who] else s.waiting)
  }

  /** v: give one back, and wake the first sleeper if there is one. */
  function V(s: Sem): Sem {
    Sem(s.value + 1, if s.value < 0 && s.waiting != [] then s.waiting[1..] else s.waiting)
  }

  function Woken(s: Sem): set<Role> {
    if s.value < 0 && s.waiting != [] then {s.waiting[0]} else {}
  }

  /** Where a loop is: before p, asleep in p, before the buffer access, before the index moves, before v, or done. */
  datatype Pc = Wait | Asleep | Access | Advance | Signal | Done

  /** index is in for the producer and out for the consumer; left is what remains of its iterations. */
  datatype Side = Side(pc: Pc, index: nat, left: nat)

  /** written and read are the whole histories of the buffer. */
  datatype State = State(empty: Sem, full: Sem, buffer: seq<int>, producer: Side, consumer: Side,
                         written: seq<int>, read: seq<int>)

  function Start(n: nat, buffer: seq<int>): State {
    var pc := if n == 0 then Done else Wait;
    State(Sem(SIZE, []), Sem(0, []), buffer, Side(pc, 0, n), Side(pc, 0, n), [], [])
  }

  function Ended(s: Side): Side {
    Side(if s.left <= 1 then Done else Wait, s.index, if s.left > 0 then s.left - 1 else 0)
  }

  function Wake(s: Side, woken: bool): Side {
    if woken then s.(pc := Access) else s
  }

  /** The next atomic step of the producer, with the item it produced. */
  function ProducerStep(s: State, item: int): State
    requires |s.buffer| == SIZE && s.producer.index < SIZE
  {
    var me := s.producer;
    match me.pc
    case Wait =>
      s.(empty := P(s.empty, Producer), producer := me.(pc := if s.empty.value < 1 then Asleep else Access))
    case Asleep => s
    case Access =>
      s.(buffer := s.buffer[me.index := item], producer := me.(pc := Advance), written := s.written + [item])
    case Advance => s.(producer := me.(pc := Signal, index := (me.index + 1) % SIZE))
    case Signal =>
      s.(full := V(s.full), producer := Ended(me), consumer := Wake(s.consumer, Consumer in Woken(s.full)))
    case Done => s
  }

  function ConsumerStep(s: State): State
    requires |s.buffer| == SIZE && s.consumer.index < SIZE
  {
    var me := s.consumer;
    match me.pc
    case Wait =>
      s.(full := P(s.full, Consumer), consumer := me.(pc := if s.full.value < 1 then Asleep else Access))
    case Asleep => s
    case Access => s.(consumer := me.(pc := Advance), read := s.read + [s.buffer[me.index]])
    case Advance => s.(consumer := me.(pc := Signal, index := (me.index + 1) % SIZE))
    case Signal =>
      s.(empty := V(s.empty), consumer := Ended(me), producer := Wake(s.producer, Producer in Woken(s.empty)))
    case Done => s
  }

  // ---------------------------------------------------------------------
  // The invariant
  // ---------------------------------------------------------------------

  /** Of the accesses done, those whose index has moved, and those announced by v. */
  ghost function Moved(s: Side, accesses: nat): int {
    if s.pc == Advance then accesses - 1 else accesses
  }

  ghost function Announced(s: Side, accesses: nat): int {
    if s.pc == Advance || s.pc == Signal then accesses - 1 else accesses
  }

  /** The p operations done for these accesses. */
  ghost function Claimed(s: Side, accesses: nat): int {
    if s.pc == Asleep || s.pc == Access then accesses + 1 else accesses
  }

  /** The side has done its accesses, out of n, and stands where its index says. */
  ghost predicate SideInv(s: Side, accesses: nat, n: nat) {
    && s.index < SIZE && Moved(s, accesses) >= 0 && Moved(s, accesses) % SIZE == s.index
    && (s.pc == Advance || s.pc == Signal ==> accesses > 0 && accesses + s.left == n + 1)
    && (s.pc != Advance && s.pc != Signal ==> accesses + s.left == n)
    && (s.pc == Done <==> s.left == 0)
  }

  /** A semaphore whose one client may sleep on it: sleepers are as many as it is short of. */
  ghost predicate SemInv(sem: Sem, who: Role, asleep: bool) {
    && sem.waiting == (if asleep then [who] else [])
    && |sem.waiting| == (if sem.value < 0 then -sem.value else 0)
  }

  ghost predicate Inv(s: State, n: nat) {
    && SideInv(s.producer, |s.written|, n) && SideInv(s.consumer, |s.read|, n)
    && Counted(s) && Kept(s)
  }

  /** The semaphores hold what was given minus what was claimed. */
  ghost predicate Counted(s: State) {
    && SemInv(s.empty, Producer, s.producer.pc == Asleep) && SemInv(s.full, Consumer, s.consumer.pc == Asleep)
    && s.empty.value == SIZE - Claimed(s.producer, |s.written|) + Announced(s.consumer, |s.read|)
    && s.full.value == Announced(s.producer, |s.written|) - Claimed(s.consumer, |s.read|)
  }

  /** The buffer keeps what was written and not yet read, and what was read is what was written. */
  ghost predicate Kept(s: State) {
    && |s.buffer| == SIZE
    && |s.read| <= |s.written| <= |s.read| + SIZE
    && s.read == s.written[..|s.read|]
    && forall k :: |s.read| <= k < |s.written| ==> s.buffer[k % SIZE] == s.written[k]
  }

  lemma StartInv(n: nat, buffer: seq<int>)
    requires |buffer| == SIZE
    ensures Inv(Start(n, buffer), n)
  {
  }

  /** Within a window of the buffer's size, different positions use different cells. */
  lemma DifferentCells(a: nat, b: nat)
    requires a < b < a + SIZE
    ensures a % SIZE != b % SIZE
  {
  }

  lemma ProducerInv(s: State, n: nat, item: int)
    requires Inv(s, n)
    ensures Inv(ProducerStep(s, item), n)
  {
    hide Kept, Counted, SideInv;
    Bounds(s, n);
    ProducerCounted(s, n, item);
    ProducerSides(s, n, item);
    if s.producer.pc == Access {
      ProducerKept(s, n, item);
    } else {
      SameKept(s, ProducerStep(s, item));
    }
  }

  lemma ConsumerInv(s: State, n: nat)
    requires Inv(s, n)
    ensures Inv(ConsumerStep(s), n)
  {
    hide Kept, Counted, SideInv;
    Bounds(s, n);
    ConsumerCounted(s, n);
    ConsumerSides(s, n);
    if s.consumer.pc == Access {
      ConsumerKept(s, n);
    } else {
      SameKept(s, ConsumerStep(s));
    }
  }

  lemma Bounds(s: State, n: nat)
    requires Inv(s, n)
    ensures |s.buffer| == SIZE && s.producer.index < SIZE && s.consumer.index < SIZE
    ensures s.producer.pc == Access ==> |s.written| < |s.read| + SIZE && s.producer.index == |s.written| % SIZE
    ensures s.consumer.pc == Access ==> |s.read| < |s.written| && s.consumer.index == |s.read| % SIZE
  {
  }

  lemma Sleepers(s: State, n: nat)
    requires Inv(s, n)
    ensures s.empty.value < 0 <==> s.producer.pc == Asleep
    ensures s.full.value < 0 <==> s.consumer.pc == Asleep
    ensures Producer in Woken(s.empty) <==> s.producer.pc == Asleep
    ensures Consumer in Woken(s.full) <==> s.consumer.pc == Asleep
  {
  }

  lemma SameKept(s: State, t: State)
    requires Kept(s) && t.buffer == s.buffer && t.written == s.written && t.read == s.read
    ensures Kept(t)
  {
  }

  lemma ProducerKept(s: State, n: nat, item: int)
    requires Inv(s, n) && s.producer.pc == Access
    ensures Kept(ProducerStep(s, item))
  {
    Bounds(s, n);
    var t, w := ProducerStep(s, item), |s.written|;
    forall k | |t.read| <= k < |t.written|
      ensures t.buffer[k % SIZE] == t.written[k]
    {
      if k < w {
        DifferentCells(k, w);
      }
    }
    assert t.written[..|t.read|] == s.written[..|s.read|];
  }

  lemma ConsumerKept(s: State, n: nat)
    requires Inv(s, n) && s.consumer.pc == Access
    ensures Kept(ConsumerStep(s))
  {
    Bounds(s, n);
    var r := |s.read|;
    assert s.written[..r + 1] == s.written[..r] + [s.written[r]];
  }

  lemma ProducerCounted(s: State, n: nat, item: int)
    requires Inv(s, n)
    ensures |s.buffer| == SIZE && s.producer.index < SIZE && Counted(ProducerStep(s, item))
  {
    hide Kept;
    Bounds(s, n);
  }

  lemma ConsumerCounted(s: State, n: nat)
    requires Inv(s, n)
    ensures |s.buffer| == SIZE && s.consumer.index < SIZE && Counted(ConsumerStep(s))
  {
    hide Kept;
    Bounds(s, n);
  }

  lemma NextIndex(accesses: nat)
    requires accesses > 0
    ensures ((accesses - 1) % SIZE + 1) % SIZE == accesses % SIZE
  {
  }

  lemma ProducerSides(s: State, n: nat, item: int)
    requires Inv(s, n)
    ensures |s.buffer| == SIZE && s.producer.index < SIZE
    ensures var t := ProducerStep(s, item);
      SideInv(t.producer, |t.written|, n) && SideInv(t.consumer, |t.read|, n)
  {
    hide Kept;
    Bounds(s, n);
    if s.producer.pc == Advance {
      NextIndex(|s.written|);
    }
  }

  lemma ConsumerSides(s: State, n: nat)
    requires Inv(s, n)
    ensures |s.buffer| == SIZE && s.consumer.index < SIZE
    ensures var t := ConsumerStep(s); SideInv(t.producer, |t.written|, n) && SideInv(t.consumer, |t.read|, n)
  {
    hide Kept;
    Bounds(s, n);
    if s.consumer.pc == Advance {
      NextIndex(|s.read|);
    }
  }

  // ---------------------------------------------------------------------
  // Every interleaving
  // ---------------------------------------------------------------------

  /** One step of a run: the producer's, with its item, or the consumer's. */
  datatype Step = Produce(item: int) | Consume

  ghost function Next(s: State, n: nat, step: Step): (t: State)
    requires Inv(s, n)
    ensures Inv(t, n)
  {
    match step
    case Produce(item) => ProducerInv(s, n, item); ProducerStep(s, item)
    case Consume => ConsumerInv(s, n); ConsumerStep(s)
  }

  ghost function Run(s: State, n: nat, steps: seq<Step>): (t: State)
    requires Inv(s, n)
    ensures Inv(t, n)
    decreases |steps|
  {
    if steps == [] then s else Run(Next(s, n, steps[0]), n, steps[1..])
  }

  /** Whatever the interleaving: the consumer's n-th read returned the producer's n-th write, what is written and
      not yet read fits the buffer, and each semaphore has as many sleepers as it is short of. */
  lemma EveryInterleaving(n: nat, buffer: seq<int>, steps: seq<Step>)
    requires |buffer| == SIZE
    ensures Inv(Start(n, buffer), n)
    ensures var s := Run(Start(n, buffer), n, steps);
      && |s.read| <= |s.written| <= |s.read| + SIZE
      && (forall k :: 0 <= k < |s.read| ==> s.read[k] == s.written[k])
      && |s.empty.waiting| == (if s.empty.value < 0 then -s.empty.value else 0)
      && |s.full.waiting| == (if s.full.value < 0 then -s.full.value else 0)
  {
    StartInv(n, buffer);
  }

  ghost predicate Enabled(s: Side) {
    s.pc != Asleep && s.pc != Done
  }

  /** Until both loops are done, one of them has a step to take: they never sleep on each other. */
  lemma NoDeadlock(s: State, n: nat)
    requires Inv(s, n) && !(s.producer.pc == Done && s.consumer.pc == Done)
    ensures Enabled(s.producer) || Enabled(s.consumer)
  {
  }

  /** The steps behind a side: an iteration is five, and being woken is one of them. */
  ghost function WorkOf(s: Side, n: nat): int {
    5 * (n - s.left) + (match s.pc case Wait => 0 case Asleep => 1 case Access => 2 case Advance => 3
                                   case Signal => 4 case Done => 0)
  }

  ghost function Work(s: State, n: nat): int {
    WorkOf(s.producer, n) + WorkOf(s.consumer, n)
  }

  /** Every enabled step moves the work forward, and there are at most 10n units of it: every run that keeps
      stepping ends with both loops done. */
  lemma Progress(s: State, n: nat, item: int)
    requires Inv(s, n)
    ensures Enabled(s.producer) ==> Work(ProducerStep(s, item), n) > Work(s, n)
    ensures Enabled(s.consumer) ==> Work(ConsumerStep(s), n) > Work(s, n)
    ensures 0 <= Work(s, n) <= 10 * n
    ensures Work(s, n) == 10 * n <==> s.producer.pc == Done && s.consumer.pc == Done
  {
  }

  /** At the end everything written has been read, in order. */
  lemma AllRead(s: State, n: nat)
    requires Inv(s, n) && s.producer.pc == Done && s.consumer.pc == Done
    ensures |s.written| == n && s.read == s.written
  {
    assert s.written[..n] == s.written;
  }
}
