/** app/producer_consumer/producer_consumer.cc: the two loops over the circular buffer and its semaphores. */
module BoundedBuffers {
  import opened Sequences
  import opened Ranks
  import opened Lists
  import opened OrderedLists
  import opened Semaphores
  import opened BufferMachine

  class BoundedBuffer {
    const buffer: array<int>
    const empty: Semaphore<Role>
    const full: Semaphore<Role>
    const producerLink: Element<Role>
    const consumerLink: Element<Role>
    var producer: Side
    var consumer: Side
    ghost const iterations: nat
    ghost var state: State

    ghost predicate Apart() {
      && empty != full && empty.waiting != full.waiting && empty.waiting.base != full.waiting.base
      && producerLink != consumerLink
    }

    /** The semaphores are those of the state: at most the one client of each sleeps there. */
    ghost predicate SemaphoresAre()
      reads this, empty, empty.waiting, empty.waiting.base, empty.waiting.base.nodes
      reads full, full.waiting, full.waiting.base, full.waiting.base.nodes
    {
      && empty.Valid() && empty.value == state.empty.value
      && empty.waiting.base.nodes == (if state.producer.pc == Asleep then [producerLink] else [])
      && full.Valid() && full.value == state.full.value
      && full.waiting.base.nodes == (if state.consumer.pc == Asleep then [consumerLink] else [])
    }

    ghost predicate Valid()
      reads this, buffer, empty, empty.waiting, empty.waiting.base, empty.waiting.base.nodes
      reads full, full.waiting, full.waiting.base, full.waiting.base.nodes
    {
      && Apart() && SemaphoresAre() && Inv(state, iterations)
      && buffer[..] == state.buffer && producer == state.producer && consumer == state.consumer
    }

    constructor (n: nat)
      ensures Valid() && iterations == n && state == Start(n, state.buffer)
      ensures fresh(buffer) && fresh(empty) && fresh(full)
    {
      buffer := new int[SIZE](_ => 0);
      empty := new Semaphore<Role>(SIZE);
      full := new Semaphore<Role>(0);
      producerLink := new Element(Producer, 0);
      consumerLink := new Element(Consumer, 0);
      producer := Start(n, []).producer;
      consumer := Start(n, []).consumer;
      iterations := n;
      new;
      state := Start(n, buffer[..]);
      StartInv(n, buffer[..]);
    }

    /** One atomic step of the producer's loop. */
    method ProducerStep(item: int)
      requires Valid()
      modifies this, buffer, empty, empty.waiting, empty.waiting.base, full, full.waiting, full.waiting.base
      modifies producerLink, consumerLink
      ensures Valid() && state == BufferMachine.ProducerStep(old(state), item)
    {
      hide Inv, Woken, OrderedList.Valid, List.Valid, AfterOp, Semaphore.Counts, InsertAt, Position;
      ProducerInv(state, iterations, item);
      Bounds(state, iterations);
      Sleepers(state, iterations);
      ghost var next := BufferMachine.ProducerStep(state, item);
      match producer.pc
      case Wait =>
        ClaimProducer();
      case Asleep =>
      case Access =>
        buffer[producer.index] := item;
        producer := producer.(pc := Advance);
        state := next;
      case Advance =>
        producer := producer.(pc := Signal, index := (producer.index + 1) % SIZE);
        state := next;
      case Signal =>
        SignalProducer();
      case Done =>
    }

    /** p, and perhaps sleep in it. */
    method ClaimProducer()
      requires Valid() && producer.pc == Wait
      modifies `producer, `state, empty, empty.waiting, empty.waiting.base, producerLink
      ensures Valid() && state == BufferMachine.ProducerStep(old(state), 0)
    {
      hide Inv, Woken, OrderedList.Valid, List.Valid, AfterOp, Semaphore.Counts, InsertAt, Position;
      ProducerInv(state, iterations, 0);
      Bounds(state, iterations);
      Sleepers(state, iterations);
      ghost var next := BufferMachine.ProducerStep(state, 0);
      var asleep := empty.P(producerLink);
      producer := producer.(pc := if asleep then Asleep else Access);
      state := next;
    }

    /** v, and the iteration is over. */
    method SignalProducer()
      requires Valid() && producer.pc == Signal
      modifies `producer, `consumer, `state, full, full.waiting, full.waiting.base, producerLink, consumerLink
      ensures Valid() && state == BufferMachine.ProducerStep(old(state), 0)
    {
      hide Inv, Woken, OrderedList.Valid, List.Valid, AfterOp, Semaphore.Counts, InsertAt, Position;
      ProducerInv(state, iterations, 0);
      Bounds(state, iterations);
      Sleepers(state, iterations);
      ghost var next := BufferMachine.ProducerStep(state, 0);
      var woken := full.V();
      producer := Ended(producer);
      if woken != null {
        consumer := consumer.(pc := Access);
      }
      state := next;
    }

    /** One atomic step of the consumer's loop. */
    method ConsumerStep() returns (got: int)
      requires Valid()
      modifies this, buffer, empty, empty.waiting, empty.waiting.base, full, full.waiting, full.waiting.base
      modifies producerLink, consumerLink
      ensures Valid() && state == BufferMachine.ConsumerStep(old(state))
      ensures old(consumer.pc) == Access ==> state.read == old(state.read) + [got]
    {
      hide Inv, Woken, OrderedList.Valid, List.Valid, AfterOp, Semaphore.Counts, InsertAt, Position;
      got := 0;
      ConsumerInv(state, iterations);
      Bounds(state, iterations);
      Sleepers(state, iterations);
      ghost var next := BufferMachine.ConsumerStep(state);
      match consumer.pc
      case Wait =>
        ClaimConsumer();
      case Asleep =>
      case Access =>
        got := buffer[consumer.index];
        consumer := consumer.(pc := Advance);
        state := next;
      case Advance =>
        consumer := consumer.(pc := Signal, index := (consumer.index + 1) % SIZE);
        state := next;
      case Signal =>
        SignalConsumer();
      case Done =>
    }

    /** p, and perhaps sleep in it. */
    method ClaimConsumer()
      requires Valid() && consumer.pc == Wait
      modifies `consumer, `state, full, full.waiting, full.waiting.base, consumerLink
      ensures Valid() && state == BufferMachine.ConsumerStep(old(state))
    {
      hide Inv, Woken, OrderedList.Valid, List.Valid, AfterOp, Semaphore.Counts, InsertAt, Position;
      ConsumerInv(state, iterations);
      Bounds(state, iterations);
      Sleepers(state, iterations);
      ghost var next := BufferMachine.ConsumerStep(state);
      var asleep := full.P(consumerLink);
      consumer := consumer.(pc := if asleep then Asleep else Access);
      state := next;
    }

    /** v, and the iteration is over. */
    method SignalConsumer()
      requires Valid() && consumer.pc == Signal
      modifies `consumer, `producer, `state, empty, empty.waiting, empty.waiting.base, producerLink, consumerLink
      ensures Valid() && state == BufferMachine.ConsumerStep(old(state))
    {
      hide Inv, Woken, OrderedList.Valid, List.Valid, AfterOp, Semaphore.Counts, InsertAt, Position;
      ConsumerInv(state, iterations);
      Bounds(state, iterations);
      Sleepers(state, iterations);
      ghost var next := BufferMachine.ConsumerStep(state);
      var woken := empty.V();
      consumer := Ended(consumer);
      if woken != null {
        producer := producer.(pc := Access);
      }
      state := next;
    }
  }
}
