/** Polynomials over GF(2), as the sets of their exponents, and division by x^16 + x^12 + x^5 + 1. */
module Polynomials {

  type Poly = set<nat>

  const G: Poly := {16, 12, 5, 0}

  function Plus(p: Poly, q: Poly): Poly {
    (p - q) + (q - p)
  }

  lemma PlusAt(p: Poly, q: Poly, x: nat)
    ensures x in Plus(p, q) <==> (x in p) != (x in q)
  {
  }

  /** p times x^n. */
  ghost function Shift(p: Poly, n: nat): Poly {
    set x | x in p :: x + n
  }

  lemma ShiftAt(p: Poly, n: nat, x: nat)
    ensures x in Shift(p, n) <==> x >= n && x - n in p
  {
    if x >= n && x - n in p {
      assert (x - n) + n in Shift(p, n);
    }
  }

  /** q times the generator. */
  ghost function MulG(q: Poly): Poly {
    Plus(Plus(Shift(q, 16), Shift(q, 12)), Plus(Shift(q, 5), q))
  }

  ghost predicate Below16(p: Poly) {
    forall x :: x in p ==> x < 16
  }

  /** r is what division of p by the generator leaves. */
  ghost predicate IsRemainder(p: Poly, r: Poly) {
    Below16(r) && exists q :: p == Plus(MulG(q), r)
  }

  lemma MulGAt(q: Poly, x: nat)
    ensures x in MulG(q) <==>
      (((x >= 16 && x - 16 in q) != (x >= 12 && x - 12 in q)) != ((x >= 5 && x - 5 in q) != (x in q)))
  {
    hide Shift, Plus;
    ShiftAt(q, 16, x);
    ShiftAt(q, 12, x);
    ShiftAt(q, 5, x);
    PlusAt(Shift(q, 16), Shift(q, 12), x);
    PlusAt(Shift(q, 5), q, x);
    PlusAt(Plus(Shift(q, 16), Shift(q, 12)), Plus(Shift(q, 5), q), x);
  }

  lemma MulGPlus(p: Poly, q: Poly)
    ensures MulG(Plus(p, q)) == Plus(MulG(p), MulG(q))
  {
    hide MulG, Plus;
    var s := Plus(p, q);
    forall x: nat
      ensures x in MulG(s) <==> x in Plus(MulG(p), MulG(q))
    {
      MulGAt(p, x);
      MulGAt(q, x);
      MulGAt(s, x);
      PlusAt(MulG(p), MulG(q), x);
      PlusAt(p, q, x);
      if x >= 5 {
        PlusAt(p, q, x - 5);
      }
      if x >= 12 {
        PlusAt(p, q, x - 12);
      }
      if x >= 16 {
        PlusAt(p, q, x - 16);
      }
    }
  }

  lemma MulGShift(q: Poly, n: nat)
    ensures MulG(Shift(q, n)) == Shift(MulG(q), n)
  {
    hide MulG, Shift;
    var s := Shift(q, n);
    forall x: nat
      ensures x in MulG(s) <==> x in Shift(MulG(q), n)
    {
      MulGAt(s, x);
      ShiftAt(MulG(q), n, x);
      ShiftAt(q, n, x);
      if x >= 5 {
        ShiftAt(q, n, x - 5);
      }
      if x >= 12 {
        ShiftAt(q, n, x - 12);
      }
      if x >= 16 {
        ShiftAt(q, n, x - 16);
      }
      if x >= n {
        MulGAt(q, x - n);
      }
    }
  }

  lemma MulGOne()
    ensures MulG({0}) == G && MulG({}) == {}
  {
    hide MulG;
    forall x: nat
      ensures x in MulG({0}) <==> x in G
      ensures x !in MulG({})
    {
      MulGAt({0}, x);
      MulGAt({}, x);
    }
  }

  lemma ShiftPlus(p: Poly, q: Poly, n: nat)
    ensures Shift(Plus(p, q), n) == Plus(Shift(p, n), Shift(q, n))
  {
    hide Shift, Plus;
    forall x: nat
      ensures x in Shift(Plus(p, q), n) <==> x in Plus(Shift(p, n), Shift(q, n))
    {
      ShiftAt(Plus(p, q), n, x);
      ShiftAt(p, n, x);
      ShiftAt(q, n, x);
      PlusAt(Shift(p, n), Shift(q, n), x);
      if x >= n {
        PlusAt(p, q, x - n);
      }
    }
  }

  lemma ShiftShift(p: Poly, m: nat, n: nat)
    ensures Shift(Shift(p, m), n) == Shift(p, m + n)
  {
    hide Shift;
    forall x: nat
      ensures x in Shift(Shift(p, m), n) <==> x in Shift(p, m + n)
    {
      ShiftAt(Shift(p, m), n, x);
      ShiftAt(p, m + n, x);
      if x >= n {
        ShiftAt(p, m, x - n);
      }
    }
  }

  lemma PlusAssoc(a: Poly, b: Poly, c: Poly)
    ensures Plus(Plus(a, b), c) == Plus(a, Plus(b, c))
  {
    forall x: nat
      ensures x in Plus(Plus(a, b), c) <==> x in Plus(a, Plus(b, c))
    {
      PlusAt(a, b, x);
    }
  }

  /** (a + b) + (c + d) == (a + c) + (b + d). */
  lemma PlusRegroup(a: Poly, b: Poly, c: Poly, d: Poly)
    ensures Plus(Plus(a, b), Plus(c, d)) == Plus(Plus(a, c), Plus(b, d))
  {
    hide Plus;
    forall x: nat
      ensures x in Plus(Plus(a, b), Plus(c, d)) <==> x in Plus(Plus(a, c), Plus(b, d))
    {
      PlusAt(a, b, x);
      PlusAt(c, d, x);
      PlusAt(a, c, x);
      PlusAt(b, d, x);
      PlusAt(Plus(a, b), Plus(c, d), x);
      PlusAt(Plus(a, c), Plus(b, d), x);
    }
  }

  lemma PlusNothing(p: Poly)
    ensures Plus(p, {}) == p && Plus({}, p) == p && Plus(p, p) == {}
  {
  }

  /** Remainders add up. */
  lemma RemainderPlus(p: Poly, q: Poly, r: Poly, s: Poly)
    requires IsRemainder(p, r) && IsRemainder(q, s)
    ensures IsRemainder(Plus(p, q), Plus(r, s))
  {
    var a :| p == Plus(MulG(a), r);
    var b :| q == Plus(MulG(b), s);
    hide MulG;
    MulGPlus(a, b);
    PlusRegroup(MulG(a), r, MulG(b), s);
    assert Plus(p, q) == Plus(MulG(Plus(a, b)), Plus(r, s));
  }

  lemma {:induction false} Largest(q: Poly) returns (m: nat)
    requires q != {}
    ensures m in q && forall x :: x in q ==> x <= m
  {
    var x :| x in q;
    var rest := q - {x};
    if rest == {} {
      assert q == {x};
      m := x;
    } else {
      m := Largest(rest);
      assert forall y :: y in q ==> y == x || y in rest;
      if x > m {
        m := x;
      }
    }
  }

  /** No multiple of the generator but 0 is below x^16. */
  lemma MultipleBelow16(q: Poly)
    requires Below16(MulG(q))
    ensures q == {}
  {
    hide MulG;
    if q != {} {
      var m := Largest(q);
      MulGAt(q, m + 16);
    }
  }

  /** A polynomial has one remainder only. */
  lemma RemainderUnique(p: Poly, r: Poly, s: Poly)
    requires IsRemainder(p, r) && IsRemainder(p, s)
    ensures r == s
  {
    var a :| p == Plus(MulG(a), r);
    var b :| p == Plus(MulG(b), s);
    hide MulG, Plus;
    MulGPlus(a, b);
    PlusRegroup(MulG(a), r, MulG(b), s);
    PlusNothing(p);
    SameIfNothing(MulG(Plus(a, b)), Plus(r, s));
    RemainderBelow(r, s);
    MultipleBelow16(Plus(a, b));
    MulGOne();
    SameIfNothing(r, s);
  }

  lemma SameIfNothing(p: Poly, q: Poly)
    ensures Plus(p, q) == {} <==> p == q
  {
    forall x: nat
      ensures x in Plus(p, q) <==> (x in p) != (x in q)
    {
    }
  }

  lemma RemainderBelow(r: Poly, s: Poly)
    requires Below16(r) && Below16(s)
    ensures Below16(Plus(r, s))
  {
  }
}
