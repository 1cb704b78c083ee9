/** Congruence modulo m as an equivalence that arithmetic respects. */
module Congruence {
  import opened Divisibility

  ghost predicate Cong(a: int, b: int, m: nat) {
    Divides(m, a - b)
  }

  ghost predicate Unit(a: int, m: nat) {
    exists w: int :: Cong(a * w, 1, m)
  }

  lemma CongRefl(a: int, m: nat)
    ensures Cong(a, a, m)
  {
    DividesWitness(m, 0, 0);
  }

  lemma CongSym(a: int, b: int, m: nat)
    requires Cong(a, b, m)
    ensures Cong(b, a, m)
  {
    var k: int :| a - b == m * k;
    DividesWitness(m, b - a, -k);
  }

  lemma CongTrans(a: int, b: int, c: int, m: nat)
    requires Cong(a, b, m) && Cong(b, c, m)
    ensures Cong(a, c, m)
  {
    DividesSum(m, a - b, b - c);
  }

  lemma CongAdd(a: int, a': int, b: int, b': int, m: nat)
    requires Cong(a, a', m) && Cong(b, b', m)
    ensures Cong(a + b, a' + b', m)
    ensures Cong(a - b, a' - b', m)
  {
    DividesSum(m, a - a', b - b');
    assert (a - a') + (b - b') == (a + b) - (a' + b');
    assert (a - a') - (b - b') == (a - b) - (a' - b');
  }

  lemma CongMul(a: int, a': int, b: int, b': int, m: nat)
    requires Cong(a, a', m) && Cong(b, b', m)
    ensures Cong(a * b, a' * b', m)
  {
    DividesScale(m, a - a', b);
    DividesScale(m, b - b', a');
    DividesSum(m, b * (a - a'), a' * (b - b'));
    assert b * (a - a') + a' * (b - b') == a * b - a' * b';
  }

  lemma CongMod(a: int, m: nat)
    requires m > 0
    ensures Cong(a % m, a, m)
  {
    assert a == m * (a / m) + a % m;
    assert m * (-(a / m)) == -(m * (a / m));
    DividesWitness(m, a % m - a, -(a / m));
  }

  /** Congruent numbers have one residue. */
  lemma CongResidue(a: int, b: int, m: nat)
    requires m > 0
    ensures Cong(a, b, m) <==> a % m == b % m
  {
    TracksMod(a, b, m);
  }

  lemma UnitMul(a: int, b: int, m: nat)
    requires Unit(a, m) && Unit(b, m)
    ensures Unit(a * b, m)
  {
    var v: int :| Cong(a * v, 1, m);
    var w: int :| Cong(b * w, 1, m);
    CongMul(a * v, 1, b * w, 1, m);
    assert (a * v) * (b * w) == (a * b) * (v * w);
  }

  lemma UnitFactors(a: int, b: int, m: nat)
    requires Unit(a * b, m)
    ensures Unit(a, m) && Unit(b, m)
  {
    var w: int :| Cong((a * b) * w, 1, m);
    assert (a * b) * w == a * (b * w) == b * (a * w);
  }

  lemma UnitCong(a: int, b: int, m: nat)
    requires Unit(a, m) && Cong(a, b, m)
    ensures Unit(b, m)
  {
    var w: int :| Cong(a * w, 1, m);
    CongSym(a, b, m);
    CongRefl(w, m);
    CongMul(b, a, w, w, m);
    CongTrans(b * w, a * w, 1, m);
  }

  /** A unit has no common factor with the modulus. */
  lemma UnitCoprime(a: int, g: nat, m: nat)
    requires m > 0 && Unit(a, m) && IsGcd(g, a, m)
    ensures g == 1
  {
    var w: int :| Cong(a * w, 1, m);
    var k: int :| a * w - 1 == m * k;
    DividesScale(g, a, w);
    DividesScale(g, m, k);
    DividesSum(g, w * a, k * m);
    assert w * a - k * m == 1;
    DividesBound(g, 1);
  }
}
