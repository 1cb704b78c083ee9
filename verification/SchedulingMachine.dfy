/** The scheduling queues as machines on values: what choosing, inserting and removing threads keep. */
module SchedulingMachine {
  import opened Sequences
  import opened Ranks

  const IDLE: int := 0x7FFF_FFFF

  /** A thread with its rank and the number of the queue it belongs to. */
  datatype Item<A> = Item(id: A, rank: int, queue: nat)

  datatype Slot<A> = Empty | Taken(item: Item<A>)

  /** One ordered list with a chosen slot per head, kept outside the list. */
  datatype Sched<A> = Sched(chosen: seq<Slot<A>>, queue: seq<Item<A>>)

  function RanksOf<A>(q: seq<Item<A>>): (rs: seq<int>)
    ensures |rs| == |q| && forall i :: 0 <= i < |q| ==> rs[i] == q[i].rank
  {
    seq(|q|, i requires 0 <= i < |q| => q[i].rank)
  }

  function Enqueue<A>(q: seq<Item<A>>, x: Item<A>): seq<Item<A>> {
    InsertAt(q, Position(RanksOf(q), x.rank, false), x)
  }

  function HeadSlot<A>(q: seq<Item<A>>): Slot<A> {
    if q == [] then Empty else Taken(q[0])
  }

  function Tail<A>(q: seq<Item<A>>): seq<Item<A>> {
    if q == [] then [] else Without(q, 0)
  }

  function Insert<A>(s: Sched<A>, h: nat, x: Item<A>): Sched<A>
    requires h < |s.chosen|
  {
    if s.chosen[h].Taken? then s.(queue := Enqueue(s.queue, x)) else s.(chosen := s.chosen[h := Taken(x)])
  }

  /** chosen[h] = remove(): the head of the list moves into the slot. */
  function Refill<A>(s: Sched<A>, h: nat): Sched<A>
    requires h < |s.chosen|
  {
    s.(chosen := s.chosen[h := HeadSlot(s.queue)], queue := Tail(s.queue))
  }

  function RemoveQueued<A>(s: Sched<A>, k: nat): Sched<A>
    requires k < |s.queue|
  {
    s.(queue := Without(s.queue, k))
  }

  /** The list after remove(x): without x or, if x is not in it, without its head or its tail. */
  ghost function Removed<A>(q: seq<Item<A>>, x: Item<A>, first: bool): seq<Item<A>> {
    if x in q then Without(q, Index(q, x)) else Shorter(q, first)
  }

  /** remove(x) on head h; first tells whether the link of x has no predecessor. */
  ghost function Remove<A>(s: Sched<A>, h: nat, x: Item<A>, first: bool): (t: Sched<A>)
    requires h < |s.chosen|
    ensures |t.chosen| == |s.chosen|
  {
    if s.chosen[h] == Taken(x) then Refill(s, h) else s.(queue := Removed(s.queue, x, first))
  }

  /** x runs on head h or is queued: where remove(x) looks for it. */
  ghost predicate Here<A>(s: Sched<A>, h: nat, x: Item<A>)
    requires h < |s.chosen|
  {
    s.chosen[h] == Taken(x) || x in s.queue
  }

  /** The thread that remove(x) takes out, if there is one. */
  ghost function TakenOut<A>(s: Sched<A>, h: nat, x: Item<A>, first: bool): multiset<Item<A>>
    requires h < |s.chosen|
  {
    if Here(s, h, x) then multiset{x}
    else if s.queue == [] then multiset{}
    else multiset{s.queue[if first then 0 else |s.queue| - 1]}
  }

  function Choose<A>(s: Sched<A>, h: nat): (t: Sched<A>)
    requires h < |s.chosen| && (s.queue == [] || s.chosen[h].Taken?)
    ensures |t.chosen| == |s.chosen|
  {
    if s.queue == [] then s
    else Refill(s.(queue := Enqueue(s.queue, s.chosen[h].item)), h)
  }

  function ChooseAnother<A>(s: Sched<A>, h: nat): (t: Sched<A>)
    requires h < |s.chosen| && (s.queue == [] || s.chosen[h].Taken?)
    ensures |t.chosen| == |s.chosen|
  {
    if s.queue == [] || s.queue[0].rank == IDLE then s
    else
      var t := Refill(s, h);
      t.(queue := Enqueue(t.queue, s.chosen[h].item))
  }

  // ---------------------------------------------------------------------
  // Invariants
  // ---------------------------------------------------------------------

  ghost function SlotItem<A>(c: Slot<A>): multiset<Item<A>> {
    if c.Taken? then multiset{c.item} else multiset{}
  }

  ghost function ChosenItems<A>(cs: seq<Slot<A>>): multiset<Item<A>> {
    if cs == [] then multiset{} else SlotItem(cs[0]) + ChosenItems(cs[1..])
  }

  /** Every thread of the list, once for each place it occupies. */
  ghost function Members<A>(s: Sched<A>): multiset<Item<A>> {
    multiset(s.queue) + ChosenItems(s.chosen)
  }

  /** Each thread occupies one place only. */
  ghost predicate OneEach<A>(all: multiset<Item<A>>) {
    forall x, y :: x in all && y in all && x.id == y.id ==> x == y && all[x] == 1
  }

  ghost predicate Inv<A>(s: Sched<A>) {
    Sorted(RanksOf(s.queue)) && OneEach(Members(s))
  }

  lemma {:induction false} ChosenUpdate<A>(cs: seq<Slot<A>>, h: nat, c: Slot<A>)
    requires h < |cs|
    ensures ChosenItems(cs[h := c]) + SlotItem(cs[h]) == ChosenItems(cs) + SlotItem(c)
  {
    var ds := cs[h := c];
    assert ChosenItems(cs) == SlotItem(cs[0]) + ChosenItems(cs[1..]);
    assert ChosenItems(ds) == SlotItem(ds[0]) + ChosenItems(ds[1..]);
    hide ChosenItems, SlotItem;
    if h == 0 {
      assert ds[1..] == cs[1..];
    } else {
      assert ds[1..] == cs[1..][h - 1 := c];
      ChosenUpdate(cs[1..], h - 1, c);
      MultisetRegroup(SlotItem(cs[0]), ChosenItems(ds[1..]), SlotItem(cs[h]));
      MultisetRegroup(SlotItem(cs[0]), ChosenItems(cs[1..]), SlotItem(c));
    }
  }

  lemma {:induction false} ChosenMember<A>(cs: seq<Slot<A>>, h: nat)
    requires h < |cs| && cs[h].Taken?
    ensures cs[h].item in ChosenItems(cs)
  {
    if h > 0 {
      ChosenMember(cs[1..], h - 1);
    }
  }

  lemma {:induction false} ChosenAt<A>(cs: seq<Slot<A>>, x: Item<A>) returns (h: nat)
    requires x in ChosenItems(cs)
    ensures h < |cs| && cs[h] == Taken(x)
  {
    if cs[0] == Taken(x) {
      h := 0;
    } else {
      h := ChosenAt(cs[1..], x);
      h := h + 1;
    }
  }

  lemma {:induction false} ChosenTwice<A>(cs: seq<Slot<A>>, g: nat, h: nat)
    requires g < h < |cs| && cs[g].Taken? && cs[h].Taken? && cs[g].item == cs[h].item
    ensures ChosenItems(cs)[cs[h].item] >= 2
  {
    if g == 0 {
      ChosenMember(cs[1..], h - 1);
    } else {
      ChosenTwice(cs[1..], g - 1, h - 1);
    }
  }

  /** No thread is chosen on two heads, and none is both chosen and queued. */
  lemma ChosenApart<A>(s: Sched<A>, g: nat, h: nat, i: nat)
    requires OneEach(Members(s)) && g < |s.chosen| && s.chosen[g].Taken?
    ensures g < h < |s.chosen| && s.chosen[h].Taken? ==> s.chosen[g].item.id != s.chosen[h].item.id
    ensures i < |s.queue| ==> s.queue[i].id != s.chosen[g].item.id
  {
    ChosenMember(s.chosen, g);
    if g < h < |s.chosen| && s.chosen[h].Taken? {
      ChosenMember(s.chosen, h);
      if s.chosen[g].item == s.chosen[h].item {
        ChosenTwice(s.chosen, g, h);
      }
    }
    if i < |s.queue| {
      assert s.queue[i] in multiset(s.queue);
    }
  }

  /** The thread running on head g ranks no worse than every queued thread. */
  ghost predicate Best<A>(s: Sched<A>, g: nat) {
    && g < |s.chosen| && s.chosen[g].Taken?
    && forall i :: 0 <= i < |s.queue| ==> s.chosen[g].item.rank <= s.queue[i].rank
  }

  lemma EnqueueFacts<A>(q: seq<Item<A>>, x: Item<A>)
    requires Sorted(RanksOf(q))
    ensures var k, out := Position(RanksOf(q), x.rank, false), Enqueue(q, x);
      && Sorted(RanksOf(out)) && |out| == |q| + 1 && k <= |q| && out[k] == x
      && (forall i :: 0 <= i < k ==> out[i] == q[i] && q[i].rank <= x.rank)
      && (forall i :: k < i <= |q| ==> out[i] == q[i - 1] && x.rank < q[i - 1].rank)
  {
    var k := Position(RanksOf(q), x.rank, false);
    hide Position, InsertAt;
    PositionSplits(RanksOf(q), x.rank);
    PositionSorted(RanksOf(q), x.rank);
    InsertAtAt(q, k, x);
    InsertAtAt(RanksOf(q), k, x.rank);
    assert RanksOf(Enqueue(q, x)) == InsertAt(RanksOf(q), k, x.rank);
  }

  lemma WithoutFacts<A>(q: seq<Item<A>>, k: nat)
    requires Sorted(RanksOf(q)) && k < |q|
    ensures Sorted(RanksOf(Without(q, k)))
  {
    WithoutAt(q, k);
  }

  lemma HeadLeast<A>(q: seq<Item<A>>)
    requires Sorted(RanksOf(q))
    ensures forall i :: 0 <= i < |q| ==> q[0].rank <= q[i].rank
  {
    assert forall i :: 0 <= i < |q| ==> RanksOf(q)[0] <= RanksOf(q)[i];
  }

  /** Queueing x and taking the head again: x comes straight back, or the head leaves and x stays. */
  lemma QueueAndTake<A>(q: seq<Item<A>>, x: Item<A>)
    requires Sorted(RanksOf(q)) && q != []
    ensures var out := Enqueue(q, x);
      && out != []
      && (if x.rank < q[0].rank then out[0] == x && Without(out, 0) == q
          else out[0] == q[0] && Without(out, 0) == Enqueue(Without(q, 0), x))
  {
    PositionHead(RanksOf(q), x.rank);
    assert RanksOf(q)[1..] == RanksOf(Without(q, 0));
    var k := Position(RanksOf(q), x.rank, false);
    if k == 0 {
      InsertFront(q, x);
    } else {
      InsertBehindHead(q, k, x);
    }
  }

  lemma InsertFront<T>(q: seq<T>, x: T)
    ensures InsertAt(q, 0, x)[0] == x && Without(InsertAt(q, 0, x), 0) == q
  {
  }

  lemma InsertBehindHead<T>(q: seq<T>, k: nat, x: T)
    requires 0 < k <= |q|
    ensures InsertAt(q, k, x)[0] == q[0]
    ensures Without(InsertAt(q, k, x), 0) == InsertAt(Without(q, 0), k - 1, x)
  {
    assert Without(q, 0) == q[1..];
    assert q[1..][..k - 1] == q[1..k] && q[1..][k - 1..] == q[k..];
  }

  lemma PositionHead(rs: seq<int>, r: int)
    requires rs != []
    ensures Position(rs, r, false) == if rs[0] > r then 0 else 1 + Position(rs[1..], r, false)
  {
  }

  /** choose() on a nonempty list, in terms of what was running and what was queued. */
  lemma ChooseFacts<A>(s: Sched<A>, h: nat)
    requires Sorted(RanksOf(s.queue)) && h < |s.chosen| && s.chosen[h].Taken? && s.queue != []
    ensures var r := s.chosen[h].item;
      Choose(s, h) == if r.rank < s.queue[0].rank then s
                      else Sched(s.chosen[h := Taken(s.queue[0])], Enqueue(Without(s.queue, 0), r))
  {
    hide Enqueue, Without;
    QueueAndTake(s.queue, s.chosen[h].item);
    assert s.chosen[h := s.chosen[h]] == s.chosen;
  }

  lemma NothingToChoose<A>(s: Sched<A>, h: nat)
    requires s.queue == [] && h < |s.chosen|
    ensures Choose(s, h) == s && ChooseAnother(s, h) == s
  {
  }

  /** choose() keeps the running thread exactly when it outranks every queued thread strictly; otherwise it
      takes the first of the least-rank queued threads. */
  lemma ChooseStays<A>(s: Sched<A>, h: nat)
    requires Inv(s) && h < |s.chosen| && s.chosen[h].Taken?
    ensures Choose(s, h).chosen[h] == s.chosen[h]
      <==> forall i :: 0 <= i < |s.queue| ==> s.chosen[h].item.rank < s.queue[i].rank
    ensures Choose(s, h).chosen[h] != s.chosen[h] ==> Choose(s, h).chosen[h] == Taken(s.queue[0])
  {
    hide Inv, Enqueue, Without, Choose, Sorted, RanksOf;
    if s.queue != [] {
      HeadFacts(s, h);
      ChooseFacts(s, h);
    } else {
      NothingToChoose(s, h);
    }
  }

  lemma HeadFacts<A>(s: Sched<A>, h: nat)
    requires Inv(s) && h < |s.chosen| && s.chosen[h].Taken? && s.queue != []
    ensures Sorted(RanksOf(s.queue)) && s.queue[0].id != s.chosen[h].item.id
    ensures forall i :: 0 <= i < |s.queue| ==> s.queue[0].rank <= s.queue[i].rank
  {
    hide Sorted, RanksOf, Members, OneEach;
    ChosenApart(s, h, h, 0);
    HeadLeast(s.queue);
  }

  /** choose() on head h makes it the best and keeps every other head as good as it was. */
  lemma ChooseKeepsBest<A>(s: Sched<A>, h: nat, g: nat)
    requires Sorted(RanksOf(s.queue)) && h < |s.chosen| && s.chosen[h].Taken?
    ensures Best(Choose(s, h), h)
    ensures Best(s, g) ==> Best(Choose(s, h), g)
  {
    if s.queue != [] {
      hide Enqueue, Without, Choose, Sorted;
      ChooseFacts(s, h);
      HeadLeast(s.queue);
      if s.chosen[h].item.rank >= s.queue[0].rank {
        WithoutFacts(s.queue, 0);
        WithoutAt(s.queue, 0);
        EnqueueLeast(Without(s.queue, 0), s.chosen[h].item, s.queue[0].rank);
        if Best(s, g) {
          EnqueueLeast(Without(s.queue, 0), s.chosen[h].item, s.chosen[g].item.rank);
        }
      }
    }
  }

  /** A lower bound of the list and of the newcomer bounds the longer list. */
  lemma EnqueueLeast<A>(q: seq<Item<A>>, x: Item<A>, least: int)
    requires Sorted(RanksOf(q)) && least <= x.rank
    requires forall i :: 0 <= i < |q| ==> least <= q[i].rank
    ensures forall i :: 0 <= i < |Enqueue(q, x)| ==> least <= Enqueue(q, x)[i].rank
  {
    EnqueueFacts(q, x);
  }

  lemma EnqueueSorted<A>(q: seq<Item<A>>, x: Item<A>)
    requires Sorted(RanksOf(q))
    ensures Sorted(RanksOf(Enqueue(q, x))) && Enqueue(q, x) != []
  {
    EnqueueFacts(q, x);
  }

  lemma EnqueueMembers<A>(q: seq<Item<A>>, x: Item<A>)
    ensures multiset(Enqueue(q, x)) == multiset(q) + multiset{x}
  {
    InsertMultiset(q, Position(RanksOf(q), x.rank, false), x);
  }

  /** choose() loses and gains no thread and keeps the list sorted. */
  lemma ChooseInv<A>(s: Sched<A>, h: nat)
    requires Inv(s) && h < |s.chosen| && s.chosen[h].Taken?
    ensures Inv(Choose(s, h)) && Members(Choose(s, h)) == Members(s)
    ensures forall g :: 0 <= g < |s.chosen| ==> (Choose(s, h).chosen[g].Taken? <==> s.chosen[g].Taken?)
  {
    if s.queue != [] {
      hide Enqueue, Without, Sorted, OneEach, ChosenItems;
      var r := s.chosen[h].item;
      var q := Enqueue(s.queue, r);
      EnqueueSorted(s.queue, r);
      EnqueueMembers(s.queue, r);
      var s1 := s.(queue := q);
      RefillMembers(s1, h);
      var one, cs := multiset{r}, ChosenItems(s.chosen);
      MultisetRegroup(multiset(s.queue), one, cs);
      MultisetCancel(Members(Refill(s1, h)), Members(s), one);
    }
  }

  /** The slot's former occupant is all that a refill takes out of the list. */
  lemma RefillMembers<A>(s: Sched<A>, h: nat)
    requires h < |s.chosen| && Sorted(RanksOf(s.queue))
    ensures Members(Refill(s, h)) + SlotItem(s.chosen[h]) == Members(s)
    ensures Sorted(RanksOf(Refill(s, h).queue))
  {
    hide Without, Sorted, ChosenItems;
    ChosenUpdate(s.chosen, h, HeadSlot(s.queue));
    var before, after := ChosenItems(s.chosen), ChosenItems(Refill(s, h).chosen);
    var head, rest := SlotItem(HeadSlot(s.queue)), multiset(Tail(s.queue));
    if s.queue != [] {
      WithoutMultiset(s.queue, 0);
      WithoutFacts(s.queue, 0);
    }
    assert multiset(s.queue) == rest + head;
    MultisetRegroup(rest, after, SlotItem(s.chosen[h]));
    MultisetRegroup(rest, head, before);
    MultisetRegroup(rest, before, head);
  }

  // ---------------------------------------------------------------------
  // The other operations
  // ---------------------------------------------------------------------

  /** Inserting a thread adds exactly it, in order. */
  lemma InsertMembers<A>(s: Sched<A>, h: nat, x: Item<A>)
    requires Sorted(RanksOf(s.queue)) && h < |s.chosen|
    ensures Members(Insert(s, h, x)) == Members(s) + multiset{x}
    ensures Sorted(RanksOf(Insert(s, h, x).queue)) && |Insert(s, h, x).chosen| == |s.chosen|
  {
    hide Enqueue, Sorted, ChosenItems;
    if s.chosen[h].Taken? {
      EnqueueSorted(s.queue, x);
      EnqueueMembers(s.queue, x);
      MultisetRegroup(multiset(s.queue), multiset{x}, ChosenItems(s.chosen));
    } else {
      ChosenUpdate(s.chosen, h, Taken(x));
      MultisetRegroup(multiset(s.queue), ChosenItems(s.chosen), multiset{x});
    }
  }

  lemma InsertInv<A>(s: Sched<A>, h: nat, x: Item<A>)
    requires Inv(s) && h < |s.chosen| && forall y :: y in Members(s) ==> y.id != x.id
    ensures Inv(Insert(s, h, x))
  {
    hide Members, Insert, Sorted;
    InsertMembers(s, h, x);
  }

  /** Head h runs somebody after an insertion: x exactly when the head was free, and then the list is as it was. */
  lemma InsertRuns<A>(s: Sched<A>, h: nat, x: Item<A>)
    requires Inv(s) && h < |s.chosen| && forall y :: y in Members(s) ==> y.id != x.id
    ensures var t := Insert(s, h, x);
      && t.chosen[h].Taken? && (t.chosen[h] == Taken(x) <==> s.chosen[h].Empty?)
      && (s.chosen[h].Empty? ==> t.queue == s.queue)
      && (s.chosen[h].Taken? ==> t.chosen == s.chosen && x in t.queue)
      && forall g :: 0 <= g < |s.chosen| && g != h ==> t.chosen[g] == s.chosen[g]
  {
    hide Sorted, OneEach, RanksOf;
    if s.chosen[h].Taken? {
      ChosenMember(s.chosen, h);
      assert s.chosen[h].item in Members(s);
      EnqueueMembers(s.queue, x);
      assert x in multiset(Enqueue(s.queue, x));
    }
  }

  /** choose_another() changes the thread on head h exactly when somebody who is not idle is the first to wait, and is
      without effect otherwise. */
  lemma ChooseAnotherChanges<A>(s: Sched<A>, h: nat)
    requires Inv(s) && h < |s.chosen| && s.chosen[h].Taken?
    ensures ChooseAnother(s, h).chosen[h] != s.chosen[h] <==> s.queue != [] && s.queue[0].rank != IDLE
    ensures s.queue == [] || s.queue[0].rank == IDLE ==> ChooseAnother(s, h) == s
  {
    hide Inv;
    ChooseAnotherInv(s, h);
  }

  /** With no rank beyond that of the idle threads: exactly when somebody who is not idle waits at all. */
  lemma ChooseAnotherUnlessIdle<A>(s: Sched<A>, h: nat)
    requires Inv(s) && h < |s.chosen| && s.chosen[h].Taken?
    requires forall i :: 0 <= i < |s.queue| ==> s.queue[i].rank <= IDLE
    ensures ChooseAnother(s, h).chosen[h] != s.chosen[h]
      <==> exists i :: 0 <= i < |s.queue| && s.queue[i].rank != IDLE
  {
    ChooseAnotherChanges(s, h);
    InvSorted(s);
    HeadLeast(s.queue);
  }

  /** Removing the running thread refills its head; every head stays as good as it was. */
  lemma RefillKeepsBest<A>(s: Sched<A>, h: nat, g: nat)
    requires Inv(s) && h < |s.chosen| && s.chosen[h].Taken?
    ensures Members(Refill(s, h)) + multiset{s.chosen[h].item} == Members(s) && Inv(Refill(s, h))
    ensures s.queue != [] ==> Best(Refill(s, h), h)
    ensures g != h && Best(s, g) ==> Best(Refill(s, h), g)
  {
    hide Without, Sorted, ChosenItems;
    RefillMembers(s, h);
    if s.queue != [] {
      HeadLeast(s.queue);
      WithoutAt(s.queue, 0);
    }
  }

  lemma RemoveQueuedKeepsBest<A>(s: Sched<A>, k: nat, g: nat)
    requires Inv(s) && k < |s.queue|
    ensures Members(RemoveQueued(s, k)) + multiset{s.queue[k]} == Members(s) && Inv(RemoveQueued(s, k))
    ensures Best(s, g) ==> Best(RemoveQueued(s, k), g)
  {
    hide Without, Sorted, ChosenItems;
    WithoutMultiset(s.queue, k);
    WithoutFacts(s.queue, k);
    WithoutAt(s.queue, k);
    MultisetRegroup(multiset(Without(s.queue, k)), multiset{s.queue[k]}, ChosenItems(s.chosen));
  }

  /** remove(x) takes one thread out and keeps the order, whether or not that is x. */
  lemma RemoveTakes<A>(s: Sched<A>, h: nat, x: Item<A>, first: bool)
    requires Inv(s) && h < |s.chosen|
    ensures Members(Remove(s, h, x, first)) + TakenOut(s, h, x, first) == Members(s)
    ensures Sorted(RanksOf(Remove(s, h, x, first).queue))
  {
    hide Members, Sorted, OneEach, RanksOf;
    if s.chosen[h] == Taken(x) {
      RefillKeepsBest(s, h, h);
    } else if x in s.queue {
      RemoveQueuedKeepsBest(s, Index(s.queue, x), h);
    } else if s.queue != [] {
      ShorterAt(s.queue, first);
      RemoveQueuedKeepsBest(s, if first then 0 else |s.queue| - 1, h);
    } else {
      assert Removed(s.queue, x, first) == s.queue;
    }
  }

  /** Removing the thread that runs on head h hands the head to the first of the list, a best one, or leaves it free
      with nobody waiting; whatever is removed, the other heads run on, as good as they were. */
  lemma RemoveHandsOver<A>(s: Sched<A>, h: nat, x: Item<A>, first: bool, g: nat)
    requires Inv(s) && h < |s.chosen|
    ensures var t := Remove(s, h, x, first);
      && (s.chosen[h] == Taken(x) && s.queue != [] ==> t.chosen[h] == Taken(s.queue[0]) && Best(t, h))
      && (s.chosen[h] == Taken(x) && s.queue == [] ==> t.chosen[h] == Empty && t.queue == [])
      && (s.chosen[h] != Taken(x) ==> t.chosen == s.chosen)
      && (forall f :: 0 <= f < |s.chosen| && f != h ==> t.chosen[f] == s.chosen[f])
      && ((g != h || s.chosen[h] != Taken(x)) && Best(s, g) ==> Best(t, g))
  {
    hide Members, Sorted, OneEach, RanksOf;
    if s.chosen[h] == Taken(x) {
      RefillKeepsBest(s, h, h);
      RefillKeepsBest(s, h, g);
    } else if x in s.queue {
      RemoveQueuedKeepsBest(s, Index(s.queue, x), g);
    } else {
      ShorterAt(s.queue, first);
    }
  }

  /** A free head has an empty list: true of a list with one head, and kept by all of its operations. */
  predicate FreeMeansEmpty<A>(s: Sched<A>) {
    |s.chosen| == 1 && (s.chosen[0].Empty? ==> s.queue == [])
  }

  lemma FreeStaysEmpty<A>(s: Sched<A>, x: Item<A>, first: bool)
    requires FreeMeansEmpty(s)
    ensures FreeMeansEmpty(Insert(s, 0, x)) && FreeMeansEmpty(Remove(s, 0, x, first))
    ensures FreeMeansEmpty(Choose(s, 0)) && FreeMeansEmpty(ChooseAnother(s, 0))
  {
    hide Enqueue, Without, Shorter;
    if s.queue == [] {
      NothingToChoose(s, 0);
    } else {
      EnqueueMembers(s.queue, s.chosen[0].item);
      WithoutAt(s.queue, 0);
    }
    ShorterAt(s.queue, first);
    RefillFree(s);
  }

  lemma RefillFree<A>(s: Sched<A>)
    requires |s.chosen| == 1
    ensures FreeMeansEmpty(Refill(s, 0))
  {
  }

  /** What is taken out for a thread that is not here is another one. */
  lemma TakenOutIsX<A>(s: Sched<A>, h: nat, x: Item<A>, first: bool)
    requires h < |s.chosen|
    ensures TakenOut(s, h, x, first) == multiset{x} <==> Here(s, h, x)
  {
    if !Here(s, h, x) {
      assert s.queue != [] ==> s.queue[if first then 0 else |s.queue| - 1] in s.queue;
      assert x in multiset{x} && x !in TakenOut(s, h, x, first);
    }
  }

  /** remove(x) takes out x and nothing else exactly when x is queued or runs on this head. */
  lemma RemoveExactly<A>(s: Sched<A>, h: nat, x: Item<A>, first: bool)
    requires Inv(s) && h < |s.chosen|
    ensures Members(Remove(s, h, x, first)) + multiset{x} == Members(s) <==> Here(s, h, x)
  {
    hide Members, Remove, TakenOut, Inv;
    RemoveTakes(s, h, x, first);
    TakenOutIsX(s, h, x, first);
    var rest := Members(Remove(s, h, x, first));
    if rest + multiset{x} == Members(s) {
      MultisetCancelLeft(rest, multiset{x}, TakenOut(s, h, x, first));
    }
  }

  /** A thread running on head g is removed on head h exactly when these are the same. */
  lemma RemoveOnOtherHead<A>(s: Sched<A>, g: nat, h: nat, first: bool)
    requires Inv(s) && g < |s.chosen| && h < |s.chosen| && s.chosen[g].Taken?
    ensures var x := s.chosen[g].item; Members(Remove(s, h, x, first)) + multiset{x} == Members(s) <==> g == h
  {
    var x := s.chosen[g].item;
    RemoveExactly(s, h, x, first);
    RunsOnce(s, g, h, x);
  }

  lemma RunsOnce<A>(s: Sched<A>, g: nat, h: nat, x: Item<A>)
    requires Inv(s) && g < |s.chosen| && h < |s.chosen| && s.chosen[g] == Taken(x)
    ensures Here(s, h, x) <==> g == h
  {
    hide Members, OneEach, Sorted;
    if s.chosen[h] == Taken(x) && g != h {
      ChosenApart(s, if g < h then g else h, if g < h then h else g, 0);
    }
    if x in s.queue {
      ChosenApart(s, g, g, Index(s.queue, x));
    }
  }

  /** choose_another() keeps every thread and runs the head of the list, unless only idle threads wait. */
  lemma ChooseAnotherInv<A>(s: Sched<A>, h: nat)
    requires Inv(s) && h < |s.chosen| && s.chosen[h].Taken?
    ensures Members(ChooseAnother(s, h)) == Members(s) && Inv(ChooseAnother(s, h))
    ensures s.queue != [] && s.queue[0].rank != IDLE ==>
      ChooseAnother(s, h).chosen[h] == Taken(s.queue[0]) != s.chosen[h]
  {
    if s.queue != [] && s.queue[0].rank != IDLE {
      ChosenApart(s, h, h, 0);
      hide Without, Enqueue, Sorted, ChosenItems, OneEach;
      var r, t := s.chosen[h].item, Refill(s, h);
      RefillMembers(s, h);
      EnqueueSorted(t.queue, r);
      EnqueueMembers(t.queue, r);
      MultisetRegroup(multiset(t.queue), multiset{r}, ChosenItems(t.chosen));
    }
  }

  // ---------------------------------------------------------------------
  // All heads choose
  // ---------------------------------------------------------------------

  ghost predicate AllTaken<A>(s: Sched<A>) {
    forall g :: 0 <= g < |s.chosen| ==> s.chosen[g].Taken?
  }

  ghost predicate InRange(hs: seq<nat>, n: nat) {
    forall i :: 0 <= i < |hs| ==> hs[i] < n
  }

  /** The heads of hs choose one after the other. */
  ghost function ChooseAll<A>(s: Sched<A>, hs: seq<nat>): (t: Sched<A>)
    requires Inv(s) && AllTaken(s) && InRange(hs, |s.chosen|)
    ensures |t.chosen| == |s.chosen| && AllTaken(t) && Inv(t)
    decreases hs
  {
    if hs == [] then s
    else
      ChooseOnce(s, hs);
      ChooseAll(Choose(s, hs[0]), hs[1..])
  }

  lemma ChooseOnce<A>(s: Sched<A>, hs: seq<nat>)
    requires hs != [] && Inv(s) && AllTaken(s) && InRange(hs, |s.chosen|)
    ensures var t := Choose(s, hs[0]);
      && Inv(t) && AllTaken(t) && |t.chosen| == |s.chosen| && InRange(hs[1..], |t.chosen|)
      && Members(t) == Members(s)
  {
    hide Inv, Enqueue, Without, Members;
    ChooseInv(s, hs[0]);
    assert forall i :: 0 <= i < |hs| - 1 ==> hs[1..][i] == hs[i + 1];
  }

  lemma {:induction false} ChooseAllKeepsBest<A>(s: Sched<A>, hs: seq<nat>, g: nat)
    requires Inv(s) && AllTaken(s) && InRange(hs, |s.chosen|) && (Best(s, g) || g in hs)
    ensures Best(ChooseAll(s, hs), g) && Members(ChooseAll(s, hs)) == Members(s)
    decreases hs
  {
    if hs != [] {
      hide Inv, Best, Choose, Members, InRange, AllTaken, Sorted;
      TakenAt(s, hs);
      ChooseOnce(s, hs);
      InvSorted(s);
      ChooseKeepsBest(s, hs[0], g);
      assert g in hs ==> g == hs[0] || g in hs[1..];
      ChooseAllKeepsBest(Choose(s, hs[0]), hs[1..], g);
    }
  }

  lemma TakenAt<A>(s: Sched<A>, hs: seq<nat>)
    requires hs != [] && AllTaken(s) && InRange(hs, |s.chosen|)
    ensures hs[0] < |s.chosen| && s.chosen[hs[0]].Taken?
  {
  }

  lemma InvSorted<A>(s: Sched<A>)
    requires Inv(s)
    ensures Sorted(RanksOf(s.queue))
  {
  }

  /** After every head has chosen once, in any order and with no insertion in between, the threads running are
      least-rank threads overall: nobody waiting outranks anybody running, no thread runs twice, and no
      thread has been lost. */
  lemma AllHeadsRunBest<A>(s: Sched<A>, hs: seq<nat>)
    requires Inv(s) && AllTaken(s) && InRange(hs, |s.chosen|)
    requires forall g :: 0 <= g < |s.chosen| ==> g in hs
    ensures var t := ChooseAll(s, hs);
      && (forall g, i :: 0 <= g < |t.chosen| && 0 <= i < |t.queue| ==>
            t.chosen[g].item.rank <= t.queue[i].rank && t.chosen[g].item.id != t.queue[i].id)
      && (forall g, h :: 0 <= g < h < |t.chosen| ==> t.chosen[g].item.id != t.chosen[h].item.id)
      && Members(t) == Members(s)
  {
    var t := ChooseAll(s, hs);
    hide ChooseAll, Members;
    assert Members(t) == Members(s) by {
      if |s.chosen| == 0 {
        NoHeads(s, hs);
      } else {
        ChooseAllKeepsBest(s, hs, 0);
      }
    }
    forall g, i | 0 <= g < |t.chosen| && 0 <= i < |t.queue|
      ensures t.chosen[g].item.rank <= t.queue[i].rank && t.chosen[g].item.id != t.queue[i].id
    {
      ChooseAllKeepsBest(s, hs, g);
      ChosenApart(t, g, g, i);
    }
    forall g, h | 0 <= g < h < |t.chosen|
      ensures t.chosen[g].item.id != t.chosen[h].item.id
    {
      ChosenApart(t, g, h, 0);
    }
  }

  lemma NoHeads<A>(s: Sched<A>, hs: seq<nat>)
    requires Inv(s) && AllTaken(s) && InRange(hs, |s.chosen|) && |s.chosen| == 0
    ensures ChooseAll(s, hs) == s
  {
  }
}
