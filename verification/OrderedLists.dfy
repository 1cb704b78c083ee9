/** include/utility/list.h: Ordered_List, and its relative instance that stores rank differences. */
module OrderedLists {
  import opened Sequences
  import opened Lists
  import opened Ranks
  import opened Words

  class OrderedList<T(==)> {
    const base: List<T>
    const relative: bool
    ghost var ranks: seq<int>  // the ranks of base.nodes, in order

    lemma NodesDistinct()
      requires Valid()
      ensures Distinct(base.nodes)
    {
    }

    constructor (relative: bool)
      ensures Valid() && base.nodes == [] && this.relative == relative && fresh(base)
    {
      base := new List<T>();
      this.relative := relative;
      ranks := [];
    }

    ghost predicate Valid()
      reads this, base, base.nodes
    {
      && base.Valid()
      && |ranks| == |base.nodes|
      && forall i :: 0 <= i < |ranks| ==> base.nodes[i].rank == ranks[i]
    }

    /** Walk to the insertion point: i is its position or that of the last element, if e goes behind it. */
    method Walk(e: Element<T>) returns (next: Element<T>, ghost i: nat)
      requires Valid() && e !in base.nodes && base.nodes != []
      modifies e`rank
      ensures Valid()
      ensures i < |base.nodes| && next == base.nodes[i]
      ensures i <= Position(ranks, old(e.rank), relative)
      ensures e.rank == Passed(ranks, old(e.rank), relative, i)
      ensures next.rank <= e.rank ==> i + 1 == |base.nodes|
    {
      ghost var r := e.rank;
      hide Position;
      next := base.head;
      i := 0;
      assert ranks[..0] == [];
      while next.rank <= e.rank && next.next != null
        invariant Valid()
        invariant i < |base.nodes| && next == base.nodes[i]
        invariant i <= Position(ranks, r, relative) && e.rank == Passed(ranks, r, relative, i)
        decreases |base.nodes| - i
      {
        PassOne(ranks, r, relative, i);
        assert i + 1 < |base.nodes| && next.next == base.nodes[i + 1];
        if relative {
          base.SetRank(e, e.rank - next.rank);
        }
        next := next.next;
        i := i + 1;
      }
      assert i < |base.nodes| - 1 ==> next.next == base.nodes[i + 1];
    }

    /** Link e in front of next, which is at position i. */
    method InsertBefore(e: Element<T>, next: Element<T>, ghost i: nat)
      requires base.Valid() && e !in base.nodes && i < |base.nodes| && next == base.nodes[i]
      modifies base, base.nodes`prev, base.nodes`next, e`prev, e`next
      ensures base.Valid() && base.nodes == InsertAt(old(base.nodes), i, e)
    {
      assert i > 0 ==> base.nodes[i].prev == base.nodes[i - 1];
      if next.prev == null {
        base.InsertHead(e);
        assert base.nodes == InsertAt(old(base.nodes), i, e);
      } else {
        base.InsertBetween(e, next.prev, next, i);
      }
    }

    /** e, not ranked below the last element, goes to the tail. */
    method Append(e: Element<T>, last: Element<T>)
      requires Valid() && e !in base.nodes && base.nodes != [] && last == base.nodes[|base.nodes| - 1]
      modifies this, base, base.nodes`next, e`prev, e`next, e`rank
      ensures Valid() && base.nodes == old(base.nodes) + [e]
      ensures ranks == old(ranks) + [old(e.rank) - (if relative then old(last.rank) else 0)]
    {
      hide List.Valid;
      if relative {
        base.SetRank(e, e.rank - last.rank);
      }
      base.InsertTail(e);
      ranks := ranks + [e.rank];
    }

    /** e goes in front of next, at position i, and a relative list takes its rank off next. */
    method Place(e: Element<T>, next: Element<T>, ghost i: nat)
      requires Valid() && e !in base.nodes && i < |base.nodes| && next == base.nodes[i]
      modifies this, base, base.nodes`prev, base.nodes`next, base.nodes`rank, e`prev, e`next
      ensures Valid() && base.nodes == InsertAt(old(base.nodes), i, e)
      ensures ranks == InsertAt(if relative then old(ranks)[i := old(ranks)[i] - e.rank] else old(ranks), i, e.rank)
    {
      hide List.Valid, InsertAt;
      base.Links(i);
      InsertAtAt(base.nodes, i, e);
      if relative {
        base.SetRank(next, next.rank - e.rank);
        ranks := ranks[i := next.rank];
      }
      InsertBefore(e, next, i);
      InsertAtAt(ranks, i, e.rank);
      ranks := InsertAt(ranks, i, e.rank);
    }

    /** Insert e by rank, behind its equals. */
    method Insert(e: Element<T>) returns (ghost k: nat)
      requires Valid() && e !in base.nodes
      modifies this, base, base.nodes`prev, base.nodes`next, base.nodes`rank, e`prev, e`next, e`rank
      ensures Valid()
      ensures k == Position(old(ranks), old(e.rank), relative)
      ensures base.nodes == InsertAt(old(base.nodes), k, e)
      ensures ranks == InsertRank(old(ranks), old(e.rank), relative)
    {
      hide Position, InsertRank, Passed, InsertAt, List.Valid;
      ghost var nodes, rs, r := base.nodes, ranks, e.rank;
      k := Position(rs, r, relative);
      base.EmptyOrNot();
      if base.Empty() {
        InsertRankEmpty(r, relative);
        InsertAtEnd(nodes, e);
        base.InsertFirst(e);
        ranks := [r];
        return;
      }
      var next, i := Walk(e);
      if next.rank <= e.rank {
        PassOne(rs, r, relative, i);
        InsertRankLast(rs, r, relative);
        InsertAtEnd(nodes, e);
        Append(e, next);
      } else {
        StopHere(rs, r, relative, i);
        InsertRankMiddle(rs, r, relative);
        Place(e, next, i);
      }
    }

    /** A new rank for an element outside the list. */
    method SetRankOutside(e: Element<T>, r: int)
      requires Valid() && e !in base.nodes
      modifies e`rank
      ensures Valid() && e.rank == r
    {
      hide List.Valid;
      base.SetRank(e, r);
    }

    /** promote() on the head: its rank, a long, goes down by one and is returned as an int. */
    method PromoteHead() returns (r: int)
      requires Valid() && base.nodes != []
      modifies this, base.nodes`rank
      ensures Valid() && base.nodes == old(base.nodes)
      ensures ranks == old(ranks)[0 := old(ranks)[0] - 1] && r == ToInt(ranks[0])
    {
      assert base.head == base.nodes[0];
      base.Links(0);
      hide List.Valid;
      base.SetRank(base.head, base.head.rank - 1);
      ranks := ranks[0 := ranks[0] - 1];
      r := ToInt(base.head.rank);
    }

    /** Remove the head; a relative list hands its rank to the next element. */
    method RemoveFirst() returns (e: Element?<T>)
      requires Valid()
      modifies this, base, base.nodes`prev, base.nodes`rank
      ensures Valid()
      ensures old(base.nodes) == [] ==> e == null && base.nodes == [] && ranks == []
      ensures old(base.nodes) != [] ==>
        && e == old(base.nodes)[0] && base.nodes == Without(old(base.nodes), 0)
        && e.rank == old(ranks)[0]
        && ranks == RemoveRank(old(ranks), 0, relative)
    {
      hide List.Valid, RemoveRank, Without;
      if base.nodes != [] {
        base.Links(0);
        RemoveRankAt(ranks, 0, relative);
        WithoutAt(base.nodes, 0);
        WithoutHead(base.nodes);
      }
      e := base.RemoveHead();
      if e != null {
        if relative && e.next != null {
          base.SetRank(e.next, e.next.rank + e.rank);
        }
        ranks := RemoveRank(ranks, 0, relative);
      }
    }

    /** Take e out. If it is not in the list, which a relative list does not allow, the head or the tail goes
        instead, or the size falls short by one. */
    method Remove(e: Element<T>) returns (ghost k: nat)
      requires Valid() && (relative ==> e in base.nodes)
      modifies this, base, base.nodes`prev, base.nodes`next, base.nodes`rank
      modifies base.Rewired(e)`prev, base.Rewired(e)`next
      ensures e.rank == old(e.rank) && e.prev == old(e.prev)
      ensures old(base.Removable(e)) ==> Valid()
      ensures e in old(base.nodes) ==>
        && k < |old(base.nodes)| && e == old(base.nodes)[k] && base.nodes == Without(old(base.nodes), k)
        && ranks == RemoveRank(old(ranks), k, relative)
      ensures e !in old(base.nodes) && old(base.Removable(e)) ==>
        base.nodes == Shorter(old(base.nodes), e.prev == null) && ranks == Shorter(old(ranks), e.prev == null)
      ensures !old(base.Removable(e)) ==> base.Miscounts()
      ensures !relative ==> forall n :: n in old(base.nodes) ==> n.rank == old(n.rank)
    {
      hide List.Valid, RemoveRank, Without, Shorter;
      ghost var nodes, rs, inside, stray := base.nodes, ranks, e in base.nodes, base.Removable(e);
      if inside {
        base.Links(Index(nodes, e));
      } else {
        ShorterAt(nodes, e.prev == null);
        ShorterAt(rs, e.prev == null);
      }
      k := base.Remove(e);
      if inside {
        RemoveRankAt(ranks, k, relative);
        WithoutAt(nodes, k);
      }
      if relative && e.next != null {
        base.SetRank(e.next, e.next.rank + e.rank);
      }
      ranks := if inside then RemoveRank(rs, k, relative) else if stray then Shorter(rs, e.prev == null) else rs;
    }

    /** Remove the first element of object o, if there is one. */
    method RemoveObject(o: T) returns (e: Element?<T>, ghost k: nat)
      requires Valid()
      modifies this, base, base.nodes`prev, base.nodes`next, base.nodes`rank
      ensures Valid()
      ensures e == null ==>
        && (forall n :: n in old(base.nodes) ==> n.obj != o)
        && base.nodes == old(base.nodes) && ranks == old(ranks)
      ensures e != null ==>
        && k < |old(base.nodes)| && e == old(base.nodes)[k] && e.obj == o
        && e.rank == old(ranks)[k]
        && base.nodes == Without(old(base.nodes), k)
        && ranks == RemoveRank(old(ranks), k, relative)
    {
      e := base.Search(o);
      k := 0;
      if e != null {
        k := Remove(e);
      }
    }
  }

  /** RemoveRank, element by element. */
  lemma RemoveRankAt(rs: seq<int>, k: nat, relative: bool)
    requires k < |rs|
    ensures var out := RemoveRank(rs, k, relative);
      && |out| == |rs| - 1
      && (forall i :: 0 <= i < k ==> out[i] == rs[i])
      && (forall i :: k <= i < |rs| - 1 ==> out[i] == rs[i + 1] + (if relative && i == k then rs[k] else 0))
  {
  }

  lemma InsertAtEnd<T>(s: seq<T>, x: T)
    ensures InsertAt(s, |s|, x) == s + [x]
  {
  }

  lemma WithoutHead<T>(s: seq<T>)
    requires s != []
    ensures Without(s, 0) == s[1..]
  {
  }

  lemma InsertRankEmpty(r: int, relative: bool)
    ensures InsertRank([], r, relative) == [r] && Position([], r, relative) == 0
  {
  }

  lemma InsertRankLast(rs: seq<int>, r: int, relative: bool)
    requires Position(rs, r, relative) == |rs|
    ensures InsertRank(rs, r, relative) == rs + [Passed(rs, r, relative, |rs|)]
  {
    assert rs[..|rs|] == rs;
  }

  lemma InsertRankMiddle(rs: seq<int>, r: int, relative: bool)
    requires Position(rs, r, relative) < |rs|
    ensures var k, d := Position(rs, r, relative), Remainder(rs, r, relative);
      InsertRank(rs, r, relative) == InsertAt(if relative then rs[k := rs[k] - d] else rs, k, d)
  {
  }

  /** What is left of r in front of element i. */
  function Passed(rs: seq<int>, r: int, relative: bool, i: nat): int
    requires i <= |rs|
  {
    if relative then r - Sum(rs[..i]) else r
  }

  lemma PassOne(rs: seq<int>, r: int, relative: bool, i: nat)
    requires i < |rs| && i <= Position(rs, r, relative)
    requires rs[i] <= Passed(rs, r, relative, i)
    ensures i + 1 <= Position(rs, r, relative)
    ensures Passed(rs, r, relative, i + 1) == Passed(rs, r, relative, i) - (if relative then rs[i] else 0)
  {
    PositionSkip(rs, r, relative, i);
    SumSnoc(rs, i);
  }

  lemma StopHere(rs: seq<int>, r: int, relative: bool, i: nat)
    requires i < |rs| && i <= Position(rs, r, relative)
    requires rs[i] > Passed(rs, r, relative, i)
    ensures i == Position(rs, r, relative) && Passed(rs, r, relative, i) == Remainder(rs, r, relative)
  {
    PositionSkip(rs, r, relative, i);
  }

  lemma {:induction false} SumSnoc(rs: seq<int>, i: nat)
    requires i < |rs|
    ensures Sum(rs[..i + 1]) == Sum(rs[..i]) + rs[i]
  {
    if i == 0 {
      assert rs[..1] == [rs[0]] && [rs[0]][1..] == [];
    } else {
      SumSnoc(rs[1..], i - 1);
      assert rs[..i + 1][1..] == rs[1..][..i] && rs[..i][1..] == rs[1..][..i - 1];
    }
  }
}
