/** Scheduling_Multilist as a machine: one list per queue number, threads that change their queue while running. */
module MultilistMachine {
  import opened Sequences
  import opened Ranks
  import opened SchedulingMachine

  ghost function AllMembers<A>(m: seq<Sched<A>>): multiset<Item<A>> {
    if m == [] then multiset{} else Members(m[0]) + AllMembers(m[1..])
  }

  /** Every list is sorted, holds only threads of its own number, and no thread is in two places. */
  ghost predicate MInv<A>(m: seq<Sched<A>>, heads: nat) {
    OneEach(AllMembers(m)) && Homes(m, heads) && Numbered(AllMembers(m), |m|)
  }

  ghost predicate Homes<A>(m: seq<Sched<A>>, heads: nat) {
    forall q :: 0 <= q < |m| ==> Home(m[q], q, heads)
  }

  ghost predicate Numbered<A>(all: multiset<Item<A>>, n: nat) {
    forall x :: x in all ==> x.queue < n
  }

  ghost predicate Home<A>(s: Sched<A>, q: nat, heads: nat) {
    && Sorted(RanksOf(s.queue)) && |s.chosen| == heads
    && forall i :: 0 <= i < |s.queue| ==> s.queue[i].queue == q
  }

  function MInsert<A>(m: seq<Sched<A>>, h: nat, x: Item<A>): seq<Sched<A>>
    requires x.queue < |m| && h < |m[x.queue].chosen|
  {
    m[x.queue := Insert(m[x.queue], h, x)]
  }

  /** Lists that hold nobody. */
  lemma {:induction false} NobodyYet<A>(m: seq<Sched<A>>, heads: nat)
    requires forall q :: 0 <= q < |m| ==> m[q] == Sched(seq(heads, _ => Empty), [])
    ensures MInv(m, heads) && AllMembers(m) == multiset{}
  {
    if m != [] {
      NobodyYet(m[1..], heads);
      NobodyChosen<A>(heads);
    }
  }

  lemma {:induction false} NobodyChosen<A>(heads: nat)
    ensures ChosenItems<A>(seq(heads, _ => Empty)) == multiset{}
  {
    if heads > 0 {
      NobodyChosen<A>(heads - 1);
      assert seq<Slot<A>>(heads, _ => Empty)[1..] == seq<Slot<A>>(heads - 1, _ => Empty);
    }
  }

  predicate HasHead<A>(m: seq<Sched<A>>, q: nat, h: nat) {
    q < |m| && h < |m[q].chosen|
  }

  /** A thread is running on head h of list q, and the list of its number has that head. */
  predicate Runs<A>(m: seq<Sched<A>>, q: nat, h: nat) {
    && q < |m| && h < |m[q].chosen| && m[q].chosen[h].Taken?
    && m[q].chosen[h].item.queue < |m| && h < |m[m[q].chosen[h].item.queue].chosen|
  }

  /** A chosen thread whose queue number is no longer that of its list moves to the list of its number. */
  function Settle<A>(m: seq<Sched<A>>, q: nat, h: nat): (m': seq<Sched<A>>)
    requires Runs(m, q, h)
    ensures |m'| == |m| && |m'[q].chosen| == |m[q].chosen|
  {
    var x := m[q].chosen[h].item;
    if x.queue == q then m
    else
      var m1 := MInsert(m, h, x);
      m1[q := Refill(m1[q], h)]
  }

  /** The thread chosen belongs elsewhere and nobody waits here: there is nothing left to run. */
  predicate Deserted<A>(m: seq<Sched<A>>, q: nat, h: nat)
    requires Runs(m, q, h)
  {
    m[q].chosen[h].item.queue != q && m[q].queue == []
  }

  function MChoose<A>(m: seq<Sched<A>>, q: nat, h: nat): (m': seq<Sched<A>>)
    requires Runs(m, q, h)
    ensures |m'| == |m| && |m'[q].chosen| == |m[q].chosen|
  {
    var m1 := Settle(m, q, h);
    m1[q := Choose(m1[q], h)]
  }

  function MChooseAnother<A>(m: seq<Sched<A>>, q: nat, h: nat): (m': seq<Sched<A>>)
    requires Runs(m, q, h)
    ensures |m'| == |m| && |m'[q].chosen| == |m[q].chosen|
  {
    var m1 := Settle(m, q, h);
    m1[q := ChooseAnother(m1[q], h)]
  }

  lemma {:induction false} AllUpdate<A>(m: seq<Sched<A>>, q: nat, t: Sched<A>)
    requires q < |m|
    ensures AllMembers(m[q := t]) + Members(m[q]) == AllMembers(m) + Members(t)
  {
    var n := m[q := t];
    assert AllMembers(m) == Members(m[0]) + AllMembers(m[1..]);
    assert AllMembers(n) == Members(n[0]) + AllMembers(n[1..]);
    hide AllMembers, Members;
    if q == 0 {
      assert n[1..] == m[1..];
    } else {
      assert n[1..] == m[1..][q - 1 := t];
      AllUpdate(m[1..], q - 1, t);
      MultisetRegroup(Members(m[0]), AllMembers(n[1..]), Members(m[q]));
      MultisetRegroup(Members(m[0]), AllMembers(m[1..]), Members(t));
    }
  }

  lemma {:induction false} PartOfAll<A>(m: seq<Sched<A>>, q: nat)
    requires q < |m|
    ensures Members(m[q]) <= AllMembers(m)
  {
    assert AllMembers(m) == Members(m[0]) + AllMembers(m[1..]);
    hide Members, AllMembers;
    if q > 0 {
      PartOfAll(m[1..], q - 1);
    }
  }

  lemma {:induction false} TwoParts<A>(m: seq<Sched<A>>, p: nat, q: nat)
    requires p < q < |m|
    ensures Members(m[p]) + Members(m[q]) <= AllMembers(m)
  {
    assert AllMembers(m) == Members(m[0]) + AllMembers(m[1..]);
    hide Members, AllMembers;
    if p > 0 {
      TwoParts(m[1..], p - 1, q - 1);
    } else {
      PartOfAll(m[1..], q - 1);
    }
  }

  /** No thread is in two lists. */
  lemma Elsewhere<A>(m: seq<Sched<A>>, heads: nat, p: nat, q: nat, y: Item<A>, z: Item<A>)
    requires MInv(m, heads) && p < |m| && q < |m| && p != q && y in Members(m[p]) && z in Members(m[q])
    ensures y.id != z.id
  {
    TwoParts(m, if p < q then p else q, if p < q then q else p);
    hide AllMembers, Members;
    var both := Members(m[p]) + Members(m[q]);
    assert both <= AllMembers(m) && y in both && z in both && (y == z ==> both[y] >= 2);
  }

  /** Every thread is in some list. */
  lemma {:induction false} Somewhere<A>(m: seq<Sched<A>>, x: Item<A>) returns (q: nat)
    requires x in AllMembers(m)
    ensures q < |m| && x in Members(m[q])
  {
    if x in Members(m[0]) {
      q := 0;
    } else {
      q := Somewhere(m[1..], x);
      q := q + 1;
    }
  }

  lemma OneEachPart<A>(part: multiset<Item<A>>, all: multiset<Item<A>>)
    requires part <= all && OneEach(all)
    ensures OneEach(part)
  {
    forall x, y | x in part && y in part && x.id == y.id
      ensures x == y && part[x] == 1
    {
      assert x in all && y in all;
    }
  }

  lemma ListInv<A>(m: seq<Sched<A>>, heads: nat, q: nat)
    requires MInv(m, heads) && q < |m|
    ensures Inv(m[q])
    ensures forall h :: 0 <= h < heads && m[q].chosen[h].Taken? ==> m[q].chosen[h].item.queue < |m|
  {
    PartOfAll(m, q);
    OneEachPart(Members(m[q]), AllMembers(m));
    forall h | 0 <= h < heads && m[q].chosen[h].Taken?
      ensures m[q].chosen[h].item.queue < |m|
    {
      ChosenMember(m[q].chosen, h);
    }
  }

  /** Replacing one list by another with the same threads keeps everything else. */
  lemma ReplaceList<A>(m: seq<Sched<A>>, heads: nat, q: nat, t: Sched<A>)
    requires MInv(m, heads) && q < |m| && Home(t, q, heads) && Members(t) == Members(m[q])
    ensures MInv(m[q := t], heads) && AllMembers(m[q := t]) == AllMembers(m)
  {
    AllUpdate(m, q, t);
    MultisetCancel(AllMembers(m[q := t]), AllMembers(m), Members(t));
  }

  /** Moving a thread from the slot of one list into another list loses nothing. */
  lemma MoveMembers<A>(m: seq<Sched<A>>, q: nat, h: nat)
    requires Runs(m, q, h) && m[q].chosen[h].item.queue != q
    requires Sorted(RanksOf(m[q].queue)) && Sorted(RanksOf(m[m[q].chosen[h].item.queue].queue))
    ensures AllMembers(Settle(m, q, h)) == AllMembers(m)
  {
    hide Members, AllMembers, Sorted, Insert, Refill;
    var x := m[q].chosen[h].item;
    var p := x.queue;
    var m1 := m[p := Insert(m[p], h, x)];
    InsertMembers(m[p], h, x);
    AllUpdate(m, p, Insert(m[p], h, x));
    MultisetRegroup(AllMembers(m), Members(m[p]), multiset{x});
    MultisetCancel(AllMembers(m1), AllMembers(m) + multiset{x}, Members(m[p]));
    RefillMembers(m[q], h);
    var m2 := m1[q := Refill(m[q], h)];
    AllUpdate(m1, q, Refill(m[q], h));
    SettleCount(AllMembers(m2), AllMembers(m), Members(m[q]), Members(Refill(m[q], h)), multiset{x});
  }

  /** The settled chosen thread is queued, or chosen, exactly where its number says; nothing is lost. */
  lemma SettleKeeps<A>(m: seq<Sched<A>>, heads: nat, q: nat, h: nat)
    requires MInv(m, heads) && q < |m| && h < heads && m[q].chosen[h].Taken?
    ensures Runs(m, q, h)
    ensures var m' := Settle(m, q, h);
      && MInv(m', heads) && AllMembers(m') == AllMembers(m) && |m'| == |m|
      && (m'[q].chosen[h].Taken? ==> m'[q].chosen[h].item.queue == q)
      && (m[q].chosen[h].item.queue == q ==> m' == m)
      && (m[q].chosen[h].item.queue != q ==> m'[q] == Refill(m[q], h))
      && (m'[q].chosen[h].Empty? <==> Deserted(m, q, h))
      && (Deserted(m, q, h) ==> m'[q].queue == [])
  {
    ListInv(m, heads, q);
    var x := m[q].chosen[h].item;
    if x.queue != q {
      MoveMembers(m, q, h);
      InsertHome(m[x.queue], x.queue, heads, h, x);
      RefillHome(m[q], q, heads, h);
      hide *;
      HomesUpdate(m, heads, x.queue, Insert(m[x.queue], h, x));
      HomesUpdate(m[x.queue := Insert(m[x.queue], h, x)], heads, q, Refill(m[q], h));
    }
  }

  lemma HomesUpdate<A>(m: seq<Sched<A>>, heads: nat, q: nat, t: Sched<A>)
    requires Homes(m, heads) && q < |m| && Home(t, q, heads)
    ensures Homes(m[q := t], heads)
  {
    hide Home;
  }

  lemma SettleCount<T>(after: multiset<T>, before: multiset<T>, list: multiset<T>, list': multiset<T>, x: multiset<T>)
    requires after + list == (before + x) + list' && list' + x == list
    ensures after == before
  {
    assert (before + x) + list' == before + list;
    MultisetCancel(after, before, list);
  }

  lemma InsertHome<A>(s: Sched<A>, q: nat, heads: nat, h: nat, x: Item<A>)
    requires Home(s, q, heads) && h < heads && x.queue == q
    ensures Home(Insert(s, h, x), q, heads)
  {
    InsertMembers(s, h, x);
    EnqueueFacts(s.queue, x);
  }

  lemma RefillHome<A>(s: Sched<A>, q: nat, heads: nat, h: nat)
    requires Home(s, q, heads) && h < heads
    ensures Home(Refill(s, h), q, heads)
    ensures Refill(s, h).chosen[h].Taken? ==> Refill(s, h).chosen[h].item.queue == q
  {
    RefillMembers(s, h);
    if s.queue != [] {
      WithoutAt(s.queue, 0);
    }
  }

  lemma ChooseHome<A>(s: Sched<A>, q: nat, heads: nat, h: nat)
    requires Home(s, q, heads) && h < heads && s.chosen[h].Taken? && s.chosen[h].item.queue == q
    ensures Home(Choose(s, h), q, heads) && Choose(s, h).chosen[h].Taken? && Choose(s, h).chosen[h].item.queue == q
  {
    if s.queue != [] {
      var r := s.chosen[h].item;
      EnqueueFacts(s.queue, r);
      RefillHome(s.(queue := Enqueue(s.queue, r)), q, heads, h);
    }
  }

  /** A settled list keeps its threads, its order and its number through choose(), and head h becomes its best. */
  lemma ChooseList<A>(s: Sched<A>, q: nat, heads: nat, h: nat)
    requires Home(s, q, heads) && Inv(s) && h < heads
    requires if s.chosen[h].Taken? then s.chosen[h].item.queue == q else s.queue == []
    ensures var t := Choose(s, h);
      && Home(t, q, heads) && Members(t) == Members(s) && (t.chosen[h].Empty? <==> s.chosen[h].Empty?)
      && (t.chosen[h].Taken? ==> Best(t, h) && t.chosen[h].item.queue == q)
  {
    hide Sorted, Members;
    if s.chosen[h].Taken? {
      InvSorted(s);
      ChooseKeepsBest(s, h, h);
      ChooseInv(s, h);
      ChooseHome(s, q, heads, h);
    } else {
      NothingToChoose(s, h);
    }
  }

  lemma ChooseAnotherList<A>(s: Sched<A>, q: nat, heads: nat, h: nat)
    requires Home(s, q, heads) && Inv(s) && h < heads
    requires if s.chosen[h].Taken? then s.chosen[h].item.queue == q else s.queue == []
    ensures var t := ChooseAnother(s, h);
      && Home(t, q, heads) && Members(t) == Members(s) && (t.chosen[h].Empty? <==> s.chosen[h].Empty?)
      && (t.chosen[h].Taken? ==> t.chosen[h].item.queue == q)
  {
    hide Sorted, Members;
    if s.chosen[h].Taken? {
      ChooseAnotherInv(s, h);
      ChooseAnotherHome(s, q, heads, h);
    } else {
      NothingToChoose(s, h);
    }
  }

  /** choose() on a queue: no thread is lost or duplicated in any list, every list stays sorted and at home, and
      the thread now running, unless nobody is left to run, belongs to the queue and ranks no worse than every
      thread waiting there. */
  lemma MChooseKeeps<A>(m: seq<Sched<A>>, heads: nat, q: nat, h: nat)
    requires MInv(m, heads) && q < |m| && h < heads && m[q].chosen[h].Taken?
    ensures Runs(m, q, h)
    ensures var m' := MChoose(m, q, h);
      && MInv(m', heads) && AllMembers(m') == AllMembers(m)
      && (m'[q].chosen[h].Empty? <==> Deserted(m, q, h))
      && (!Deserted(m, q, h) ==> Best(m'[q], h) && m'[q].chosen[h].item.queue == q)
  {
    hide MInv, AllMembers, Members, Choose, Sorted, Best, Inv, Settle, RanksOf;
    SettleKeeps(m, heads, q, h);
    var m1 := Settle(m, q, h);
    HomeOf(m1, heads, q);
    ListInv(m1, heads, q);
    ChooseList(m1[q], q, heads, h);
    ReplaceList(m1, heads, q, Choose(m1[q], h));
  }

  /** Choosing is settling and then choosing in the list, where somebody is chosen or nobody waits. */
  lemma ChooseSteps<A>(m: seq<Sched<A>>, heads: nat, q: nat, h: nat)
    requires MInv(m, heads) && Runs(m, q, h) && h < heads
    ensures var m1 := Settle(m, q, h);
      && (m1[q].queue == [] || m1[q].chosen[h].Taken?)
      && MChoose(m, q, h) == m1[q := Choose(m1[q], h)]
      && MChooseAnother(m, q, h) == m1[q := ChooseAnother(m1[q], h)]
  {
    hide MInv;
    SettleKeeps(m, heads, q, h);
  }

  lemma HomeOf<A>(m: seq<Sched<A>>, heads: nat, q: nat)
    requires MInv(m, heads) && q < |m|
    ensures Home(m[q], q, heads)
  {
  }

  /** On a tie with a queued thread, choose() runs a different one from the one that was running: it keeps the
      running thread exactly when that outranks all the others strictly. */
  lemma MChooseRotates<A>(m: seq<Sched<A>>, heads: nat, q: nat, h: nat)
    requires MInv(m, heads) && q < |m| && h < heads && m[q].chosen[h].Taken? && m[q].chosen[h].item.queue == q
    ensures MChoose(m, q, h)[q].chosen[h] == m[q].chosen[h]
      <==> forall i :: 0 <= i < |m[q].queue| ==> m[q].chosen[h].item.rank < m[q].queue[i].rank
  {
    SettleKeeps(m, heads, q, h);
    hide MInv, Choose, Inv;
    ListInv(m, heads, q);
    ChooseStays(m[q], h);
  }

  lemma MChooseAnotherKeeps<A>(m: seq<Sched<A>>, heads: nat, q: nat, h: nat)
    requires MInv(m, heads) && q < |m| && h < heads && m[q].chosen[h].Taken?
    ensures Runs(m, q, h)
    ensures var m' := MChooseAnother(m, q, h);
      && MInv(m', heads) && AllMembers(m') == AllMembers(m)
      && (m'[q].chosen[h].Empty? <==> Deserted(m, q, h))
      && (!Deserted(m, q, h) ==> m'[q].chosen[h].item.queue == q)
  {
    hide MInv, AllMembers, Members, ChooseAnother, Sorted, Inv, Settle, RanksOf;
    SettleKeeps(m, heads, q, h);
    var m1 := Settle(m, q, h);
    HomeOf(m1, heads, q);
    ListInv(m1, heads, q);
    ChooseAnotherList(m1[q], q, heads, h);
    ReplaceList(m1, heads, q, ChooseAnother(m1[q], h));
  }

  /** Once the thread running is of this queue, choose_another() changes it exactly when somebody who is not idle is the
      first to wait, and is without effect otherwise. */
  lemma MChooseAnotherChanges<A>(m: seq<Sched<A>>, heads: nat, q: nat, h: nat)
    requires MInv(m, heads) && Runs(m, q, h) && h < heads && !Deserted(m, q, h)
    ensures var m1, m' := Settle(m, q, h), MChooseAnother(m, q, h);
      && m1[q].chosen[h].Taken?
      && (m'[q].chosen[h] != m1[q].chosen[h] <==> m1[q].queue != [] && m1[q].queue[0].rank != IDLE)
      && (m1[q].queue == [] || m1[q].queue[0].rank == IDLE ==> m' == m1)
    ensures m[q].chosen[h].item.queue == q ==> Settle(m, q, h) == m
  {
    hide MInv, Inv, ChooseAnother, Settle;
    SettleKeeps(m, heads, q, h);
    var m1 := Settle(m, q, h);
    ListInv(m1, heads, q);
    HomeOf(m1, heads, q);
    ChooseAnotherChanges(m1[q], h);
    assert m1[q := m1[q]] == m1;
  }

  /** A free head has an empty list, in every list of one head. */
  ghost predicate AllFreeMeansEmpty<A>(m: seq<Sched<A>>) {
    forall q :: 0 <= q < |m| ==> FreeMeansEmpty(m[q])
  }

  lemma FreeUpdate<A>(m: seq<Sched<A>>, q: nat, t: Sched<A>)
    requires AllFreeMeansEmpty(m) && q < |m| && FreeMeansEmpty(t)
    ensures AllFreeMeansEmpty(m[q := t])
  {
  }

  /** So it stays through insertion, removal and both choices. */
  lemma AllFreeStayEmpty<A>(m: seq<Sched<A>>, q: nat, x: Item<A>, first: bool)
    requires AllFreeMeansEmpty(m) && q < |m|
    ensures x.queue < |m| ==> AllFreeMeansEmpty(MInsert(m, 0, x)) && AllFreeMeansEmpty(MRemove(m, 0, x, first))
    ensures Runs(m, q, 0) ==> AllFreeMeansEmpty(MChoose(m, q, 0)) && AllFreeMeansEmpty(MChooseAnother(m, q, 0))
  {
    hide Insert, Remove, Refill, Choose, ChooseAnother;
    assert FreeMeansEmpty(m[q]);
    if x.queue < |m| {
      InsertStaysEmpty(m, x);
      assert FreeMeansEmpty(m[x.queue]);
      FreeStaysEmpty(m[x.queue], x, first);
      FreeUpdate(m, x.queue, Remove(m[x.queue], 0, x, first));
    }
    if Runs(m, q, 0) {
      var y := m[q].chosen[0].item;
      InsertStaysEmpty(m, y);
      RefillFree(MInsert(m, 0, y)[q]);
      FreeUpdate(MInsert(m, 0, y), q, Refill(MInsert(m, 0, y)[q], 0));
      var m1 := Settle(m, q, 0);
      assert AllFreeMeansEmpty(m1);
      FreeStaysEmpty(m1[q], y, first);
      FreeUpdate(m1, q, Choose(m1[q], 0));
      FreeUpdate(m1, q, ChooseAnother(m1[q], 0));
    }
  }

  lemma InsertStaysEmpty<A>(m: seq<Sched<A>>, x: Item<A>)
    requires AllFreeMeansEmpty(m) && x.queue < |m| && |m[x.queue].chosen| == 1
    ensures AllFreeMeansEmpty(MInsert(m, 0, x)) && |MInsert(m, 0, x)| == |m|
  {
    hide Insert;
    assert FreeMeansEmpty(m[x.queue]);
    FreeStaysEmpty(m[x.queue], x, true);
    FreeUpdate(m, x.queue, Insert(m[x.queue], 0, x));
  }

  lemma ChooseAnotherHome<A>(s: Sched<A>, q: nat, heads: nat, h: nat)
    requires Home(s, q, heads) && h < heads && s.chosen[h].Taken? && s.chosen[h].item.queue == q
    ensures Home(ChooseAnother(s, h), q, heads)
    ensures ChooseAnother(s, h).chosen[h].Taken? && ChooseAnother(s, h).chosen[h].item.queue == q
  {
    hide Sorted, RanksOf, Position, InsertAt, Without, Tail, Enqueue;
    if s.queue != [] && s.queue[0].rank != IDLE {
      RefillHome(s, q, heads, h);
      EnqueueFacts(Refill(s, h).queue, s.chosen[h].item);
    }
  }

  lemma NumberedOneMore<A>(all: multiset<Item<A>>, x: Item<A>, n: nat)
    requires Numbered(all, n) && x.queue < n
    ensures Numbered(all + multiset{x}, n)
  {
  }

  /** insert() puts an absent thread into the list of its number and touches nothing else. */
  lemma MInsertKeeps<A>(m: seq<Sched<A>>, heads: nat, h: nat, x: Item<A>)
    requires MInv(m, heads) && h < heads && x.queue < |m| && OneEach(AllMembers(m) + multiset{x})
    ensures MInv(m[x.queue := Insert(m[x.queue], h, x)], heads)
    ensures AllMembers(m[x.queue := Insert(m[x.queue], h, x)]) == AllMembers(m) + multiset{x}
  {
    HomeOf(m, heads, x.queue);
    NumberedOneMore(AllMembers(m), x, |m|);
    hide Members, AllMembers, Sorted, Insert, OneEach, Numbered, Homes;
    var m1 := m[x.queue := Insert(m[x.queue], h, x)];
    InsertMembers(m[x.queue], h, x);
    AllUpdate(m, x.queue, Insert(m[x.queue], h, x));
    MultisetRegroup(AllMembers(m), Members(m[x.queue]), multiset{x});
    MultisetCancel(AllMembers(m1), AllMembers(m) + multiset{x}, Members(m[x.queue]));
    InsertHome(m[x.queue], x.queue, heads, h, x);
    HomesUpdate(m, heads, x.queue, Insert(m[x.queue], h, x));
  }

  /** A running thread may change its rank and its queue number. */
  function MRetag<A>(m: seq<Sched<A>>, q: nat, h: nat, rank: int, queue: nat): seq<Sched<A>>
    requires q < |m| && h < |m[q].chosen| && m[q].chosen[h].Taken?
  {
    m[q := m[q].(chosen := m[q].chosen[h := Taken(Item(m[q].chosen[h].item.id, rank, queue))])]
  }

  lemma MRetagKeeps<A>(m: seq<Sched<A>>, heads: nat, q: nat, h: nat, rank: int, queue: nat)
    requires MInv(m, heads) && q < |m| && h < heads && m[q].chosen[h].Taken? && queue < |m|
    ensures MInv(MRetag(m, q, h, rank, queue), heads)
    ensures AllMembers(MRetag(m, q, h, rank, queue)) + multiset{m[q].chosen[h].item}
         == AllMembers(m) + multiset{Item(m[q].chosen[h].item.id, rank, queue)}
  {
    hide MInv, Members, AllMembers, Homes, OneEach, Numbered;
    HomeOf(m, heads, q);
    MInvParts(m, heads);
    var s, x := m[q], m[q].chosen[h].item;
    var y := Item(x.id, rank, queue);
    var t := s.(chosen := s.chosen[h := Taken(y)]);
    RunningMember(m, q, h);
    RetagMembers(s, h, y);
    AllUpdate(m, q, t);
    HomesUpdate(m, heads, q, t);
    MInvParts(m[q := t], heads);
    RetagCount(AllMembers(m[q := t]), AllMembers(m), Members(t), Members(s), multiset{x}, multiset{y});
    RetagOneEach(AllMembers(m), AllMembers(m[q := t]), x, y, |m|);
  }

  lemma MInvParts<A>(m: seq<Sched<A>>, heads: nat)
    ensures MInv(m, heads) <==> OneEach(AllMembers(m)) && Homes(m, heads) && Numbered(AllMembers(m), |m|)
  {
  }

  lemma RunningMember<A>(m: seq<Sched<A>>, q: nat, h: nat)
    requires q < |m| && h < |m[q].chosen| && m[q].chosen[h].Taken?
    ensures m[q].chosen[h].item in AllMembers(m)
  {
    PartOfAll(m, q);
    ChosenMember(m[q].chosen, h);
  }

  lemma RetagMembers<A>(s: Sched<A>, h: nat, y: Item<A>)
    requires h < |s.chosen| && s.chosen[h].Taken?
    ensures Members(s.(chosen := s.chosen[h := Taken(y)])) + multiset{s.chosen[h].item} == Members(s) + multiset{y}
  {
    hide ChosenItems;
    ChosenUpdate(s.chosen, h, Taken(y));
    var cs, ds := ChosenItems(s.chosen), ChosenItems(s.chosen[h := Taken(y)]);
    MultisetRegroup(multiset(s.queue), ds, multiset{s.chosen[h].item});
    MultisetRegroup(multiset(s.queue), cs, multiset{y});
  }

  lemma RetagCount<T>(all': multiset<T>, all: multiset<T>, t: multiset<T>, s: multiset<T>,
                      x: multiset<T>, y: multiset<T>)
    requires all' + s == all + t && t + x == s + y
    ensures all' + x == all + y
  {
    MultisetRegroup(all', x, s);
    MultisetRegroup(all, t, x);
    MultisetRegroup(all, s, y);
    MultisetCancel(all' + x, all + y, s);
  }

  lemma RetagOneEach<A>(all: multiset<Item<A>>, all': multiset<Item<A>>, x: Item<A>, y: Item<A>, n: nat)
    requires OneEach(all) && Numbered(all, n) && x in all && y.id == x.id && y.queue < n
    requires all' + multiset{x} == all + multiset{y}
    ensures OneEach(all') && Numbered(all', n)
  {
    var rest := all - multiset{x};
    assert all == rest + multiset{x};
    assert all' == rest + multiset{y} by {
      MultisetCancel(all', rest + multiset{y}, multiset{x});
    }
    assert all[x] == 1 && x !in rest;
    assert forall z :: z in rest ==> z in all && z != x && z.id != x.id && rest[z] == 1;
  }

  // ---------------------------------------------------------------------
  // Removal
  // ---------------------------------------------------------------------

  /** remove(x) on head h: in the list of the number x has now. */
  ghost function MRemove<A>(m: seq<Sched<A>>, h: nat, x: Item<A>, first: bool): seq<Sched<A>>
    requires HasHead(m, x.queue, h)
  {
    m[x.queue := Remove(m[x.queue], h, x, first)]
  }

  lemma RemovalIs<A>(m: seq<Sched<A>>, h: nat, x: Item<A>, first: bool)
    requires HasHead(m, x.queue, h)
    ensures MRemove(m, h, x, first) == m[x.queue := Remove(m[x.queue], h, x, first)]
  {
  }

  lemma RemoveHome<A>(s: Sched<A>, q: nat, heads: nat, h: nat, x: Item<A>, first: bool)
    requires Home(s, q, heads) && Inv(s) && h < heads
    ensures Home(Remove(s, h, x, first), q, heads)
  {
    hide Members, Sorted, OneEach, Without, Shorter;
    RemoveTakes(s, h, x, first);
    if s.chosen[h] == Taken(x) {
      RefillHome(s, q, heads, h);
    } else if x in s.queue {
      WithoutAt(s.queue, Index(s.queue, x));
    } else {
      ShorterAt(s.queue, first);
    }
  }

  /** A list that gives up some of its threads, and nothing else. */
  lemma GivesUp<A>(m: seq<Sched<A>>, heads: nat, q: nat, t: Sched<A>, out: multiset<Item<A>>)
    requires MInv(m, heads) && q < |m| && Home(t, q, heads) && Members(t) + out == Members(m[q])
    ensures MInv(m[q := t], heads) && AllMembers(m[q := t]) + out == AllMembers(m)
  {
    AllUpdate(m, q, t);
    HomesUpdate(m, heads, q, t);
    hide Members, AllMembers, Homes;
    var all, all' := AllMembers(m), AllMembers(m[q := t]);
    MultisetRegroup(all', out, Members(t));
    assert (all' + out) + Members(t) == all + Members(t);
    MultisetCancel(all' + out, all, Members(t));
    OneEachPart(all', all);
  }

  /** remove(x) leaves every thread that stays in its one place; one thread goes, which need not be x. */
  lemma MRemoveKeeps<A>(m: seq<Sched<A>>, heads: nat, h: nat, x: Item<A>, first: bool)
    requires MInv(m, heads) && HasHead(m, x.queue, h)
    ensures MInv(MRemove(m, h, x, first), heads)
    ensures AllMembers(MRemove(m, h, x, first)) + TakenOut(m[x.queue], h, x, first) == AllMembers(m)
  {
    hide MInv, AllMembers, Members, Remove, TakenOut, Inv;
    HomeOf(m, heads, x.queue);
    ListInv(m, heads, x.queue);
    RemoveHome(m[x.queue], x.queue, heads, h, x, first);
    RemoveTakes(m[x.queue], h, x, first);
    GivesUp(m, heads, x.queue, Remove(m[x.queue], h, x, first), TakenOut(m[x.queue], h, x, first));
  }

  /** remove(x) takes x out of all lists, and nothing else, exactly when x is queued in the list of its number or runs
      there on the head of the caller. */
  lemma MRemoveExactly<A>(m: seq<Sched<A>>, heads: nat, h: nat, x: Item<A>, first: bool)
    requires MInv(m, heads) && HasHead(m, x.queue, h)
    ensures AllMembers(MRemove(m, h, x, first)) + multiset{x} == AllMembers(m) <==> Here(m[x.queue], h, x)
  {
    hide MInv, AllMembers, MRemove, TakenOut, Here;
    MRemoveKeeps(m, heads, h, x, first);
    TakenOutIsX(m[x.queue], h, x, first);
    var rest := AllMembers(MRemove(m, h, x, first));
    if rest + multiset{x} == AllMembers(m) {
      MultisetCancelLeft(rest, multiset{x}, TakenOut(m[x.queue], h, x, first));
    }
  }

  /** A thread running on head g of list q is taken out, and nothing else, exactly when it still has the number of that
      list and is removed on that head. Otherwise it runs on, and what goes is a thread waiting in the list of its
      new number. */
  lemma RunningRemovedExactly<A>(m: seq<Sched<A>>, heads: nat, q: nat, g: nat, h: nat, first: bool)
    requires MInv(m, heads) && HasHead(m, q, g) && h < heads && m[q].chosen[g].Taken?
    ensures var x := m[q].chosen[g].item;
      && HasHead(m, x.queue, h)
      && (AllMembers(MRemove(m, h, x, first)) + multiset{x} == AllMembers(m) <==> x.queue == q && g == h)
      && (!(x.queue == q && g == h) ==> MRemove(m, h, x, first)[q].chosen[g] == m[q].chosen[g])
  {
    var x := m[q].chosen[g].item;
    RunsThere(m, heads, q, g, h);
    hide MInv, AllMembers, Here;
    MRemoveExactly(m, heads, h, x, first);
    if !(x.queue == q && g == h) {
      StaysChosen(m, h, x, first, q, g);
    }
  }

  lemma RunsThere<A>(m: seq<Sched<A>>, heads: nat, q: nat, g: nat, h: nat)
    requires MInv(m, heads) && HasHead(m, q, g) && h < heads && m[q].chosen[g].Taken?
    ensures var x := m[q].chosen[g].item;
      HasHead(m, x.queue, h) && (Here(m[x.queue], h, x) <==> x.queue == q && g == h)
  {
    var x := m[q].chosen[g].item;
    HomeOf(m, heads, q);
    ListInv(m, heads, q);
    HomeOf(m, heads, x.queue);
    hide MInv, AllMembers, Members, Inv;
    if x.queue == q {
      RunsOnce(m[q], g, h, x);
    } else {
      NotThere(m, heads, q, g, h, x);
    }
  }

  lemma NotThere<A>(m: seq<Sched<A>>, heads: nat, q: nat, g: nat, h: nat, x: Item<A>)
    requires MInv(m, heads) && HasHead(m, q, g) && m[q].chosen[g] == Taken(x)
    requires HasHead(m, x.queue, h) && x.queue != q
    ensures !Here(m[x.queue], h, x)
  {
    hide MInv, ChosenItems;
    ChosenMember(m[q].chosen, g);
    if Here(m[x.queue], h, x) {
      HereMember(m[x.queue], h, x);
      Elsewhere(m, heads, q, x.queue, x, x);
    }
  }

  lemma StaysChosen<A>(m: seq<Sched<A>>, h: nat, x: Item<A>, first: bool, q: nat, g: nat)
    requires HasHead(m, x.queue, h) && HasHead(m, q, g) && !(q == x.queue && g == h)
    ensures MRemove(m, h, x, first)[q].chosen[g] == m[q].chosen[g]
  {
  }

  lemma HereMember<A>(s: Sched<A>, h: nat, x: Item<A>)
    requires h < |s.chosen| && Here(s, h, x)
    ensures x in Members(s)
  {
    if s.chosen[h] == Taken(x) {
      ChosenMember(s.chosen, h);
    } else {
      assert x in multiset(s.queue);
    }
  }

  /** x runs in list 0; in list 1 y runs and q waits. */
  function Pair(x: Item<int>, y: Item<int>, q: seq<Item<int>>): (m: seq<Sched<int>>)
    ensures |m| == 2 && |m[0].chosen| == |m[1].chosen| == 1 && m[0].chosen[0] == Taken(x)
  {
    [Sched([Taken(x)], []), Sched([Taken(y)], q)]
  }

  /** Thread 1 runs in list 0 and has been given to queue 1, where 2 runs and 3 waits. Removing 1 loses 3, and 1 runs
      on. */
  lemma RemovalLosesAnother(first: bool)
    ensures var y, z, gone := Item(2, 0, 1), Item(3, 0, 1), Item(1, 0, 1);
      var m := MRetag(Pair(Item(1, 0, 0), y, [z]), 0, 0, 0, 1);
      && MInv(Pair(Item(1, 0, 0), y, [z]), 1) && MInv(m, 1) && m == Pair(gone, y, [z])
      && MRemove(m, 0, gone, first) == Pair(gone, y, [])
      && z in AllMembers(m) && z !in AllMembers(MRemove(m, 0, gone, first))
  {
    var y, z, gone := Item(2, 0, 1), Item(3, 0, 1), Item(1, 0, 1);
    TwoRunOneWaits(Item(1, 0, 0), y, z);
    TwoRunOneWaits(gone, y, z);
    RetagPair(y, [z]);
    RemovePair(gone, y, z, first);
    AllOfPair(gone, y, []);
    hide MInv, AllMembers, Pair, MRetag, MRemove;
  }

  lemma RetagPair(y: Item<int>, q: seq<Item<int>>)
    ensures MRetag(Pair(Item(1, 0, 0), y, q), 0, 0, 0, 1) == Pair(Item(1, 0, 1), y, q)
  {
    assert [Taken(Item(1, 0, 0))][0 := Taken(Item(1, 0, 1))] == [Taken(Item(1, 0, 1))];
  }

  lemma RemovePair(x: Item<int>, y: Item<int>, z: Item<int>, first: bool)
    requires x.queue == 1 && x != y && x != z
    ensures MRemove(Pair(x, y, [z]), 0, x, first) == Pair(x, y, [])
  {
  }

  lemma AllOfPair(x: Item<int>, y: Item<int>, q: seq<Item<int>>)
    ensures AllMembers(Pair(x, y, q)) == multiset{x} + (multiset(q) + multiset{y})
  {
    var s, t := Sched([Taken(x)], []), Sched([Taken(y)], q);
    OneChosen(x);
    OneChosen(y);
    hide ChosenItems;
    assert [s, t][1..] == [t] && [t][1..] == [];
    assert AllMembers([t]) == Members(t);
    assert multiset([]) + multiset{x} == multiset{x};
  }

  lemma OneChosen(x: Item<int>)
    ensures ChosenItems([Taken(x)]) == multiset{x}
  {
    assert [Taken(x)][1..] == [];
  }

  lemma TwoRunOneWaits(x: Item<int>, y: Item<int>, z: Item<int>)
    requires x.id != y.id && x.id != z.id && y.id != z.id && x.queue < 2 && y.queue < 2 && z.queue == 1
    ensures MInv(Pair(x, y, [z]), 1) && AllMembers(Pair(x, y, [z])) == multiset{x, y, z}
  {
    AllOfPair(x, y, [z]);
    hide AllMembers;
    assert multiset{x} + (multiset([z]) + multiset{y}) == multiset{x, y, z};
  }
}
