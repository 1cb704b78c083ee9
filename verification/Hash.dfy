/** include/utility/hash.h: Simple_Hash, a vector of slots and one list for all synonyms, and its iterator;
    include/utility/vector.h: the vector. */
module Hashes {
  import opened Sequences
  import opened Lists
  import opened Ranks
  import opened SimpleLists

  const WORD: int := 0x1_0000_0000

  /** key % SIZE with an unsigned SIZE: the key is taken as an unsigned word first. */
  function Slot(key: int, size: nat): (i: nat)
    requires size > 0
    ensures i < size
    ensures 0 <= key < WORD ==> i == key % size
    ensures -WORD <= key < 0 ==> i == (key + WORD) % size
  {
    (key % WORD) % size
  }

  /** The elements in the slots, in order. */
  ghost function Filled<T>(v: seq<Element?<T>>): (s: seq<Element<T>>)
    ensures |s| <= |v|
  {
    if v == [] then []
    else
      var last := v[|v| - 1];
      if last == null then Filled(v[..|v| - 1]) else Filled(v[..|v| - 1]) + [last]
  }

  lemma {:induction false} FilledIn<T>(v: seq<Element?<T>>, e: Element<T>)
    ensures e in Filled(v) <==> e in v
  {
    if v != [] {
      FilledIn(v[..|v| - 1], e);
      assert v == v[..|v| - 1] + [v[|v| - 1]];
    }
  }

  lemma {:induction false} FilledDistinct<T>(v: seq<Element?<T>>)
    requires forall i, j :: 0 <= i < j < |v| && v[i] != null ==> v[i] != v[j]
    ensures Distinct(Filled(v))
  {
    if v != [] {
      var front, last := v[..|v| - 1], v[|v| - 1];
      FilledDistinct(front);
      if last != null {
        FilledIn(front, last);
      }
    }
  }

  lemma {:induction false} FilledUpdate<T>(v: seq<Element?<T>>, i: nat, e: Element?<T>)
    requires i < |v|
    ensures |Filled(v[i := e])| == |Filled(v)| + (if e != null then 1 else 0) - (if v[i] != null then 1 else 0)
  {
    var n, w := |v| - 1, v[i := e];
    if i == n {
      assert w[..n] == v[..n];
    } else {
      assert w[..n] == v[..n][i := e];
      FilledUpdate(v[..n], i, e);
    }
  }

  class SimpleHash<T(==)> {
    const vector: array<Element?<T>>
    var filled: nat  // the vector's own size
    const synonyms: SimpleOrderedList<T>
    ghost var stored: set<Element<T>>

    ghost predicate Apart()
      reads vector, synonyms
    {
      && (forall i, j :: 0 <= i < j < vector.Length && vector[i] != null ==> vector[i] != vector[j])
      && (forall i :: 0 <= i < vector.Length && vector[i] != null ==> vector[i] !in synonyms.nodes)
    }

    ghost predicate InSlots()
      reads vector, set i | 0 <= i < vector.Length :: vector[i]
    {
      forall i :: 0 <= i < vector.Length && vector[i] != null ==> Slot(vector[i].rank, vector.Length) == i
    }

    /** What is stored is what the slots and the list hold. */
    ghost predicate Holds()
      reads this, vector, synonyms
    {
      && (forall i :: 0 <= i < vector.Length && vector[i] != null ==> vector[i] in stored)
      && (forall n :: n in synonyms.nodes ==> n in stored)
      && (forall e :: e in stored ==> e in vector[..] || e in synonyms.nodes)
    }

    ghost predicate Valid()
      reads this, vector, synonyms, synonyms.nodes, set i | 0 <= i < vector.Length :: vector[i]
    {
      && vector.Length > 0 && synonyms.Valid() && Apart() && InSlots() && Holds()
      && filled == |Filled(vector[..])|
    }

    /** Everything stored, in the order of the slots and then of the list. */
    ghost function Listing(): seq<Element<T>>
      reads vector, synonyms
    {
      Filled(vector[..]) + synonyms.nodes
    }

    /** The listing has each stored element, and each once. */
    lemma ListingIsStored()
      requires Valid()
      ensures Distinct(Listing()) && (set e | e in Listing()) == stored
      ensures filled + synonyms.size == |Listing()| && synonyms.Valid()
    {
      hide SimpleOrderedList.Valid, InSlots, Filled;
      var v, nodes := vector[..], synonyms.nodes;
      synonyms.Ends();
      FilledDistinct(v);
      forall e | e in Filled(v)
        ensures e in v && e in stored && e !in nodes
      {
        FilledIn(v, e);
        var i :| 0 <= i < |v| && v[i] == e;
        assert vector[i] == e;
      }
      forall e | e in stored
        ensures e in Filled(v) || e in nodes
      {
        FilledIn(v, e);
      }
      DistinctBoth(Filled(v), nodes);
      Both(Filled(v), nodes, stored);
    }

    static lemma Both(s: seq<Element<T>>, t: seq<Element<T>>, all: set<Element<T>>)
      requires (forall e :: e in s ==> e in all) && (forall e :: e in t ==> e in all)
      requires forall e :: e in all ==> e in s || e in t
      ensures (set e | e in s + t) == all
    {
    }

    static lemma DistinctBoth(s: seq<Element<T>>, t: seq<Element<T>>)
      requires Distinct(s) && Distinct(t) && forall e :: e in s ==> e !in t
      ensures Distinct(s + t)
    {
      var u := s + t;
      forall i, j | 0 <= i < j < |u|
        ensures u[i] != u[j]
      {
        if i < |s| <= j {
          assert u[i] in s && u[j] == t[j - |s|] && u[j] in t;
        }
      }
    }

    constructor (size: nat)
      requires size > 0
      ensures Valid() && vector.Length == size && stored == {}
      ensures fresh(vector) && fresh(synonyms)
    {
      vector := new Element?<T>[size](_ => null);
      synonyms := new SimpleOrderedList<T>();
      filled := 0;
      stored := {};
      new;
      NothingFilled(vector[..]);
    }

    static lemma {:induction false} NothingFilled(v: seq<Element?<T>>)
      requires forall i :: 0 <= i < |v| ==> v[i] == null
      ensures Filled(v) == []
    {
      if v != [] {
        NothingFilled(v[..|v| - 1]);
      }
    }

    /** Vector::insert. */
    method VectorInsert(e: Element<T>, i: nat) returns (done: bool)
      requires i < vector.Length && filled == |Filled(vector[..])|
      modifies `filled, vector
      ensures filled == |Filled(vector[..])| && (done <==> old(vector[i]) == null)
      ensures vector[..] == if done then old(vector[..])[i := e] else old(vector[..])
    {
      done := vector[i] == null;
      if done {
        FilledUpdate(vector[..], i, e);
        ghost var v := vector[..];
        vector[i] := e;
        assert vector[..] == v[i := e];
        filled := filled + 1;
      }
    }

    /** Vector::remove by index. */
    method VectorRemove(i: nat) returns (e: Element?<T>)
      requires i < vector.Length && filled == |Filled(vector[..])|
      modifies `filled, vector
      ensures filled == |Filled(vector[..])| && e == old(vector[i]) && vector[..] == old(vector[..])[i := null]
    {
      e := vector[i];
      if e != null {
        FilledUpdate(vector[..], i, null);
        ghost var v := vector[..];
        vector[i] := null;
        assert vector[..] == v[i := null];
        filled := filled - 1;
      }
    }

    /** Vector::remove by element: the slot it is in, if there is one. */
    method VectorRemoveElement(e: Element<T>) returns (found: bool)
      requires Valid()
      modifies `filled, `stored, vector
      ensures Valid() && (found <==> e in old(vector[..])) && synonyms.nodes == old(synonyms.nodes)
      ensures stored == if found then old(stored) - {e} else old(stored)
    {
      hide Slot, Filled, SimpleOrderedList.Valid;
      found := false;
      for k := 0 to vector.Length
        invariant e !in vector[..k] && Valid() && stored == old(stored)
      {
        if vector[k] == e {
          var _ := RemoveSlot(k);
          return true;
        }
      }
    }

    /** The element in a slot goes. */
    method RemoveSlot(i: nat) returns (e: Element?<T>)
      requires Valid() && i < vector.Length && vector[i] != null
      modifies `filled, `stored, vector
      ensures Valid() && e == old(vector[i]) && stored == old(stored) - {e}
    {
      hide Slot, Filled, SimpleOrderedList.Valid;
      OthersStay(vector[..], i, null);
      e := VectorRemove(i);
      assert Apart() && InSlots();
      stored := stored - {e};
      assert Holds();
    }

    static lemma OthersStay(v: seq<Element?<T>>, i: nat, y: Element?<T>)
      requires i < |v|
      ensures forall x :: x in v && x != v[i] ==> x in v[i := y]
    {
      forall x | x in v && x != v[i]
        ensures x in v[i := y]
      {
        var j :| 0 <= j < |v| && v[j] == x;
        assert v[i := y][j] == x;
      }
    }

    /** e goes into the slot of its key or, if that is taken, into the list, behind the synonyms of its key. */
    method Insert(e: Element<T>)
      requires Valid() && e !in stored
      modifies `filled, `stored, vector, synonyms, synonyms.nodes`next, e`next
      ensures Valid() && stored == old(stored) + {e}
      ensures var i := Slot(e.rank, vector.Length);
        if old(vector[Slot(e.rank, vector.Length)]) == null
        then vector[..] == old(vector[..])[i := e] && synonyms.nodes == old(synonyms.nodes)
        else vector[..] == old(vector[..])
             && synonyms.nodes == InsertAt(old(synonyms.nodes), Position(old(synonyms.Keys()), e.rank, false), e)
    {
      hide Slot, Filled, SimpleOrderedList.Valid;
      var i := Slot(e.rank, vector.Length);
      OthersStay(vector[..], i, e);
      var done := VectorInsert(e, i);
      if done {
        assert vector[i] == e;
        stored := stored + {e};
      } else {
        InsertSynonym(e);
      }
    }

    method InsertSynonym(e: Element<T>)
      requires Valid() && e !in stored
      modifies `stored, synonyms, synonyms.nodes`next, e`next
      ensures Valid() && stored == old(stored) + {e}
      ensures synonyms.nodes == InsertAt(old(synonyms.nodes), Position(old(synonyms.Keys()), e.rank, false), e)
    {
      hide Position, Slot, Filled, SimpleOrderedList.Valid;
      ghost var nodes, k := synonyms.nodes, Position(synonyms.Keys(), e.rank, false);
      synonyms.Insert(e);
      InsertMembers(nodes, k, e);
      stored := stored + {e};
    }

    static lemma InsertMembers(s: seq<Element<T>>, k: nat, e: Element<T>)
      requires k <= |s|
      ensures forall x :: x in InsertAt(s, k, e) <==> x in s || x == e
    {
      assert s == s[..k] + s[k..];
    }

    /** An element with this key, exactly when one is stored. */
    method SearchKey(key: int) returns (e: Element?<T>)
      requires Valid()
      ensures e == null ==> forall x :: x in stored ==> x.rank != key
      ensures e != null ==> e in stored && e.rank == key
      ensures var s := vector[Slot(key, vector.Length)]; s != null && s.rank == key ==> e == s
    {
      e := vector[Slot(key, vector.Length)];
      if e != null && e.rank == key {
        return;
      }
      e := synonyms.SearchRank(key);
    }

    /** Remove one element with this key, exactly when one is stored. */
    method RemoveKey(key: int) returns (e: Element?<T>)
      requires Valid()
      modifies `filled, `stored, vector, synonyms, synonyms.nodes`next
      ensures Valid()
      ensures e == null ==> stored == old(stored) && forall x :: x in stored ==> x.rank != key
      ensures e != null ==> e in old(stored) && e.rank == key && stored == old(stored) - {e}
    {
      hide Slot, Filled, SimpleOrderedList.Valid;
      var i := Slot(key, vector.Length);
      e := vector[i];
      if e != null && e.rank == key {
        e := RemoveSlot(i);
        return;
      }
      e := synonyms.SearchRank(key);
      if e != null {
        RemoveSynonym(e);
      }
    }

    /** The element in the list goes. */
    method RemoveSynonym(e: Element<T>)
      requires Valid() && e in synonyms.nodes
      modifies `stored, synonyms, synonyms.nodes`next
      ensures Valid() && stored == old(stored) - {e}
    {
      hide Slot, Filled, SimpleOrderedList.Valid;
      ghost var nodes := synonyms.nodes;
      synonyms.Ends();
      DistinctWithout(nodes, Index(nodes, e));
      synonyms.Remove(e);
      stored := stored - {e};
    }

    /** Remove a stored element. */
    method Remove(e: Element<T>)
      requires Valid() && e in stored
      modifies `filled, `stored, vector, synonyms, synonyms.nodes`next
      ensures Valid() && stored == old(stored) - {e}
    {
      hide Slot, Filled, SimpleOrderedList.Valid;
      var found := VectorRemoveElement(e);
      if !found {
        RemoveSynonym(e);
      }
    }
  }

  /** The forward iterator: its counter runs over the slots, then stands past them while current walks the list. */
  class Forward<T(==)> {
    const END: nat := 0xFFFF_FFFF
    const hash: SimpleHash<T>
    var counter: nat
    var current: Element?<T>
    ghost var seen: nat  // how many elements of the listing it has stood on

    ghost predicate OverSlots()
      reads this, hash, hash.vector
    {
      counter <= hash.vector.Length && seen == |Filled(hash.vector[..counter])|
    }

    ghost predicate OverList()
      reads this, hash, hash.vector, hash.synonyms
    {
      var slots := |Filled(hash.vector[..])|;
      && counter == hash.vector.Length + 1 && slots < seen <= slots + |hash.synonyms.nodes|
      && current == hash.synonyms.nodes[seen - slots - 1]
    }

    /** Where in the listing the iterator stands. */
    ghost predicate Standing()
      reads this, hash, hash.vector, hash.synonyms
    {
      && hash.vector.Length + 1 < END
      && if counter == END then current == null && seen == |hash.Listing()| else OverSlots() || OverList()
    }

    /** begin, before its step. */
    constructor (hash: SimpleHash<T>)
      requires hash.vector.Length + 1 < 0xFFFF_FFFF && hash.synonyms.Valid()
      ensures this.hash == hash && Standing() && counter == 0 && seen == 0
      ensures hash.synonyms.Valid() && hash.Listing() == old(hash.Listing())
    {
      this.hash := hash;
      counter := 0;
      current := null;
      seen := 0;
    }

    /** Past the empty slots. */
    method SkipEmpty()
      requires OverSlots()
      modifies `counter
      ensures OverSlots() && (counter < hash.vector.Length ==> hash.vector[counter] != null)
    {
      ghost var v := hash.vector[..];
      while counter < hash.vector.Length && hash.vector[counter] == null
        invariant OverSlots()
        decreases hash.vector.Length - counter
      {
        FilledNext(v, counter);
        assert v[..counter + 1] == hash.vector[..counter + 1];
        counter := counter + 1;
      }
    }

    method StandOnSlot()
      requires OverSlots() && counter < hash.vector.Length && hash.vector[counter] != null
      modifies `counter, `current, `seen
      ensures OverSlots() && seen == old(seen) + 1 && current != null
      ensures seen <= |hash.Listing()| && current == hash.Listing()[old(seen)]
    {
      ghost var v := hash.vector[..];
      assert v[..counter] == hash.vector[..counter] && v[..counter + 1] == hash.vector[..counter + 1];
      FilledNext(v, counter);
      FilledPrefix(v, counter + 1);
      current := hash.vector[counter];
      counter := counter + 1;
      seen := seen + 1;
    }

    method EnterList()
      requires OverSlots() && counter == hash.vector.Length && hash.synonyms.Valid()
      modifies `counter, `current, `seen
      ensures if hash.synonyms.nodes == [] then current == null && seen == old(seen) == |hash.Listing()|
              else OverList() && seen == old(seen) + 1 && current == hash.Listing()[old(seen)]
    {
      ghost var v := hash.vector[..];
      assert v[..counter] == v;
      hash.synonyms.Ends();
      current := hash.synonyms.head;
      counter := counter + 1;
      if current != null {
        seen := seen + 1;
      }
    }

    method StepList()
      requires OverList() && hash.synonyms.Valid()
      modifies `current, `seen
      ensures if old(seen) == |hash.Listing()| then current == null && seen == old(seen)
              else OverList() && seen == old(seen) + 1 && current == hash.Listing()[old(seen)]
    {
      hash.synonyms.Links(seen - |Filled(hash.vector[..])| - 1);
      current := current.next;
      if current != null {
        seen := seen + 1;
      }
    }

    /** operator++: on to the next element of the listing, or to the end. */
    method Advance()
      requires hash.synonyms.Valid() && Standing() && counter != END
      modifies this
      ensures Standing() && hash.synonyms.Valid() && hash.Listing() == old(hash.Listing())
      ensures old(seen) < |hash.Listing()| ==>
        counter != END && seen == old(seen) + 1 && current == hash.Listing()[old(seen)]
      ensures old(seen) == |hash.Listing()| ==> counter == END && seen == old(seen)
    {
      assert |hash.Listing()| == |Filled(hash.vector[..])| + |hash.synonyms.nodes|;
      AllSlots(hash.vector[..]);
      hide Filled, SimpleHash.Valid, SimpleOrderedList.Valid, SimpleHash.Listing;
      if counter <= hash.vector.Length {
        SkipEmpty();
      }
      if counter < hash.vector.Length {
        StandOnSlot();
      } else if counter == hash.vector.Length {
        EnterList();
      } else {
        StepList();
      }
      if current == null {
        counter := END;
      }
    }

    /** What was visited is the listing up to the current element, or all of it at the end. */
    ghost predicate Visited(visited: seq<Element<T>>, listing: seq<Element<T>>)
      reads this
    {
      if counter == END then visited == listing
      else 0 < seen <= |listing| && current == listing[seen - 1] && visited == listing[..seen - 1]
    }

    ghost function Left(listing: seq<Element<T>>): int
      reads this
    {
      if counter == END then 0 else 1 + |listing| - seen
    }

    /** Visit the current element and go on. */
    method Visit(before: seq<Element<T>>) returns (visited: seq<Element<T>>)
      requires hash.synonyms.Valid() && Standing() && counter != END && Visited(before, hash.Listing())
      modifies this
      ensures hash.synonyms.Valid() && Standing() && hash.Listing() == old(hash.Listing())
      ensures Visited(visited, hash.Listing()) && Left(hash.Listing()) < old(Left(hash.Listing()))
    {
      ghost var listing, n := hash.Listing(), seen;
      visited := before + [current];
      assert visited == listing[..n] && listing[..|listing|] == listing;
      hide SimpleOrderedList.Valid, SimpleHash.Listing, Standing, Filled;
      Advance();
    }
  }

  lemma AllSlots<T>(v: seq<Element?<T>>)
    ensures v[..|v|] == v
  {
  }

  lemma FilledNext<T>(v: seq<Element?<T>>, c: nat)
    requires c < |v|
    ensures Filled(v[..c + 1]) == Filled(v[..c]) + (if v[c] == null then [] else [v[c]])
  {
    assert v[..c + 1][..c] == v[..c];
  }

  lemma {:induction false} FilledPrefix<T>(v: seq<Element?<T>>, c: nat)
    requires c <= |v|
    ensures Filled(v[..c]) <= Filled(v)
    decreases |v| - c
  {
    if c == |v| {
      assert v[..c] == v;
    } else {
      FilledNext(v, c);
      FilledPrefix(v, c + 1);
    }
  }

  /** From begin to end, the iterator stands on every stored element exactly once, in the order of the listing. */
  method Iterate<T>(hash: SimpleHash<T>) returns (visited: seq<Element<T>>)
    requires hash.Valid() && hash.vector.Length + 1 < 0xFFFF_FFFF
    ensures visited == hash.Listing()
    ensures Distinct(visited) && (set e | e in visited) == hash.stored
  {
    hide SimpleHash.Valid, SimpleHash.Listing, Forward.Standing, SimpleOrderedList.Valid, Filled, Distinct;
    hash.ListingIsStored();
    ghost var listing, stored := hash.Listing(), hash.stored;
    visited := [];
    var it := new Forward(hash);
    it.Advance();
    while it.counter != it.END
      invariant it.hash == hash && it.Standing() && hash.synonyms.Valid() && hash.Listing() == listing
      invariant it.Visited(visited, listing)
      decreases it.Left(listing)
    {
      visited := it.Visit(visited);
    }
    assert hash.stored == stored;
  }
}
