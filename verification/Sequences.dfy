/** Inserting into and removing from sequences. */
module Sequences {

  function Without<T>(s: seq<T>, k: nat): seq<T>
    requires k < |s|
  {
    s[..k] + s[k + 1..]
  }

  lemma WithoutAt<T>(s: seq<T>, k: nat)
    requires k < |s|
    ensures |Without(s, k)| == |s| - 1
    ensures forall i :: 0 <= i < |s| - 1 ==> Without(s, k)[i] == s[if i < k then i else i + 1]
  {
  }

  lemma WithoutEnds<T>(s: seq<T>, k: nat)
    requires k < |s|
    ensures k == 0 ==> Without(s, k) == s[1..]
    ensures k == |s| - 1 ==> Without(s, k) == s[..k]
    ensures |s| == 1 ==> Without(s, k) == []
  {
  }

  /** Without the only element, or else without the first, or the last. */
  function Shorter<T>(s: seq<T>, first: bool): seq<T> {
    if |s| <= 1 then [] else if first then s[1..] else s[..|s| - 1]
  }

  lemma ShorterAt<T>(s: seq<T>, first: bool)
    ensures s != [] ==> Shorter(s, first) == Without(s, if first then 0 else |s| - 1)
    ensures s == [] ==> Shorter(s, first) == []
    ensures |Shorter(s, first)| == if s == [] then 0 else |s| - 1
    ensures forall i :: 0 <= i < |Shorter(s, first)| ==> Shorter(s, first)[i] == s[if first then i + 1 else i]
  {
  }

  lemma InsertAtAt<T>(s: seq<T>, k: nat, x: T)
    requires k <= |s|
    ensures |InsertAt(s, k, x)| == |s| + 1 && InsertAt(s, k, x)[k] == x
    ensures forall i :: 0 <= i < k ==> InsertAt(s, k, x)[i] == s[i]
    ensures forall i :: k < i <= |s| ==> InsertAt(s, k, x)[i] == s[i - 1]
  {
  }

  function InsertAt<T>(s: seq<T>, k: nat, x: T): seq<T>
    requires k <= |s|
  {
    s[..k] + [x] + s[k..]
  }

  /** The first position of x. */
  ghost function Index<T>(s: seq<T>, x: T): (k: nat)
    requires x in s
    ensures k < |s| && s[k] == x && x !in s[..k]
  {
    if s[0] == x then 0 else
      assert s == [s[0]] + s[1..];
      var k := 1 + Index(s[1..], x);
      assert s[..k] == [s[0]] + s[1..][..k - 1];
      k
  }

  ghost predicate Distinct<T>(s: seq<T>) {
    forall i, j :: 0 <= i < j < |s| ==> s[i] != s[j]
  }

  lemma DistinctWithout<T>(s: seq<T>, k: nat)
    requires Distinct(s) && k < |s|
    ensures Distinct(Without(s, k)) && s[k] !in Without(s, k)
    ensures forall x :: x in Without(s, k) <==> x in s && x != s[k]
  {
    var t := Without(s, k);
    forall x | x in s && x != s[k]
      ensures x in t
    {
      var i :| 0 <= i < |s| && s[i] == x;
      assert t[if i < k then i else i - 1] == x;
    }
  }

  lemma DistinctInsert<T>(s: seq<T>, k: nat, x: T)
    requires Distinct(s) && k <= |s| && x !in s
    ensures Distinct(InsertAt(s, k, x))
    ensures forall y :: y in InsertAt(s, k, x) <==> y in s || y == x
  {
    var t := InsertAt(s, k, x);
    assert t[k] == x;
    forall y | y in s
      ensures y in t
    {
      var i :| 0 <= i < |s| && s[i] == y;
      assert t[if i < k then i else i + 1] == y;
    }
  }

  lemma InsertMultiset<T>(s: seq<T>, k: nat, x: T)
    requires k <= |s|
    ensures multiset(InsertAt(s, k, x)) == multiset(s) + multiset{x}
  {
    assert s == s[..k] + s[k..];
  }

  lemma WithoutMultiset<T>(s: seq<T>, k: nat)
    requires k < |s|
    ensures multiset(s) == multiset(Without(s, k)) + multiset{s[k]}
  {
    assert s == s[..k] + [s[k]] + s[k + 1..];
  }

  lemma MultisetCancel<T>(a: multiset<T>, b: multiset<T>, c: multiset<T>)
    requires a + c == b + c
    ensures a == b
  {
    assert (a + c) - c == a && (b + c) - c == b;
  }

  lemma MultisetCancelLeft<T>(c: multiset<T>, a: multiset<T>, b: multiset<T>)
    requires c + a == c + b
    ensures a == b
  {
    assert (c + a) - c == a && (c + b) - c == b;
  }

  lemma MultisetRegroup<T>(a: multiset<T>, b: multiset<T>, c: multiset<T>)
    ensures (a + b) + c == a + (b + c) == (a + c) + b
  {
  }
}
