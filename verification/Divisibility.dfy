/** Common divisors and congruences, as the inversion loop keeps them. */
module Divisibility {
  import opened Digits

  ghost predicate Divides(d: nat, n: int) {
    exists k: int :: n == d * k
  }

  ghost predicate IsGcd(g: nat, a: int, b: int) {
    && g > 0 && Divides(g, a) && Divides(g, b)
    && forall d: nat :: d > 0 && Divides(d, a) && Divides(d, b) ==> d <= g
  }

  /** u, v have exactly the common divisors of x, m. */
  ghost predicate SameDivisors(u: int, v: int, x: int, m: int) {
    forall d: nat :: d > 0 ==> (Divides(d, u) && Divides(d, v) <==> Divides(d, x) && Divides(d, m))
  }

  /** a * x and u agree modulo m. */
  ghost predicate Tracks(a: int, x: int, u: int, m: nat) {
    Divides(m, a * x - u)
  }

  lemma DividesWitness(d: nat, n: int, k: int)
    requires n == d * k
    ensures Divides(d, n)
  {
  }

  lemma DividesSum(d: nat, a: int, b: int)
    requires Divides(d, a) && Divides(d, b)
    ensures Divides(d, a + b) && Divides(d, a - b)
  {
    var i: int :| a == d * i;
    var j: int :| b == d * j;
    DividesWitness(d, a + b, i + j);
    DividesWitness(d, a - b, i - j);
  }

  lemma DividesScale(d: nat, a: int, c: int)
    requires Divides(d, a)
    ensures Divides(d, c * a)
  {
    var i: int :| a == d * i;
    DividesWitness(d, c * a, c * i);
  }

  lemma OddFactor(d: int, k: int)
    requires (d * k) % 2 == 1
    ensures d % 2 == 1
  {
    var half := d / 2 * k;
    assert d * k == 2 * half + (d % 2) * k by {
      assert d == 2 * (d / 2) + d % 2;
      assert (2 * (d / 2)) * k == 2 * half;
    }
  }

  /** An odd divisor of 2n divides n. */
  lemma DividesHalf(d: nat, n: int)
    requires d % 2 == 1 && Divides(d, 2 * n)
    ensures Divides(d, n)
  {
    var k: int :| 2 * n == d * k;
    var e := d / 2;
    assert d * k == 2 * (e * k) + k;
    assert k % 2 == 0;
    assert d * k == 2 * (d * (k / 2));
    DividesWitness(d, n, k / 2);
  }

  lemma SameDivisorsHalf(u: int, v: int, x: int, m: int)
    requires v % 2 == 1 && SameDivisors(2 * u, v, x, m)
    ensures SameDivisors(u, v, x, m)
  {
    forall d: nat | d > 0
      ensures Divides(d, u) && Divides(d, v) <==> Divides(d, x) && Divides(d, m)
    {
      if Divides(d, u) {
        DividesScale(d, u, 2);
      }
      if Divides(d, 2 * u) && Divides(d, v) {
        var j: int :| v == d * j;
        OddFactor(d, j);
        DividesHalf(d, u);
      }
    }
  }

  lemma SameDivisorsSub(u: int, v: int, x: int, m: int)
    requires SameDivisors(u, v, x, m)
    ensures SameDivisors(u - v, v, x, m)
  {
    forall d: nat | d > 0
      ensures Divides(d, u - v) && Divides(d, v) <==> Divides(d, x) && Divides(d, m)
    {
      if Divides(d, v) {
        if Divides(d, u) {
          DividesSum(d, u, v);
        }
        if Divides(d, u - v) {
          DividesSum(d, u - v, v);
        }
      }
    }
  }

  lemma SameDivisorsSwap(u: int, v: int, x: int, m: int)
    requires SameDivisors(u, v, x, m)
    ensures SameDivisors(v, u, x, m)
  {
  }

  lemma SameDivisorsGcd(v: nat, x: int, m: int)
    requires v > 0 && SameDivisors(0, v, x, m)
    ensures IsGcd(v, x, m)
  {
    DividesWitness(v, v, 1);
    DividesWitness(v, 0, 0);
    forall d: nat | d > 0 && Divides(d, x) && Divides(d, m)
      ensures d <= v
    {
      DividesBound(d, v);
    }
  }

  lemma DividesBound(d: nat, n: nat)
    requires n > 0 && Divides(d, n)
    ensures d <= n
  {
    var k: int :| n == d * k;
    if k >= 1 {
      assert d * k >= d;
    }
  }

  lemma TracksHalf(a: int, x: int, u: int, m: nat)
    requires m % 2 == 1 && Tracks(2 * a, x, 2 * u, m)
    ensures Tracks(a, x, u, m)
  {
    assert (2 * a) * x - 2 * u == 2 * (a * x - u);
    DividesHalf(m, a * x - u);
  }

  lemma TracksShift(a: int, x: int, u: int, m: nat)
    requires Tracks(a, x, u, m)
    ensures Tracks(a + m, x, u, m)
  {
    var k: int :| a * x - u == m * k;
    assert (a + m) * x - u == m * (k + x);
    DividesWitness(m, (a + m) * x - u, k + x);
  }

  lemma TracksSub(a: int, c: int, x: int, u: int, v: int, m: nat)
    requires Tracks(a, x, u, m) && Tracks(c, x, v, m)
    ensures Tracks(a - c, x, u - v, m)
  {
    DividesSum(m, a * x - u, c * x - v);
    assert (a * x - u) - (c * x - v) == (a - c) * x - (u - v);
  }

  /** Congruence is equality of remainders. */
  lemma TracksMod(p: int, u: int, m: nat)
    requires m > 0
    ensures Divides(m, p - u) <==> p % m == u % m
  {
    var q, r := p / m, u / m;
    assert p - u == m * (q - r) + (p % m - u % m);
    if Divides(m, p - u) {
      var k: int :| p - u == m * k;
      assert p % m - u % m == m * (k - (q - r));
      SmallMultiple(p % m - u % m, m, k - (q - r));
    }
    if p % m == u % m {
      DividesWitness(m, p - u, q - r);
    }
  }

  lemma SmallMultiple(n: int, m: nat, k: int)
    requires 0 - m < n < m && n == m * k
    ensures n == 0
  {
    if k >= 1 {
      MulMonotonic(m, 1, k);
    } else if k <= -1 {
      MulMonotonic(m, k, -1);
    }
  }

  /** A product congruent to gcd(x, m) is congruent to 1 exactly when x, m are coprime. */
  lemma InverseExactly(i: int, x: int, g: nat, m: nat)
    requires m > 1 && IsGcd(g, x, m) && Tracks(i, x, g, m)
    ensures (i * x) % m == 1 <==> g == 1
  {
    TracksMod(i * x, g, m);
    GcdBound(g, x, m);
    hide *;
    ResidueOne(i * x, g, m);
  }

  lemma GcdBound(g: nat, x: int, m: nat)
    requires m > 0 && IsGcd(g, x, m)
    ensures 0 < g <= m
  {
    DividesBound(g, m);
  }

  lemma ResidueOne(p: int, g: nat, m: nat)
    requires m > 1 && 0 < g <= m && p % m == g % m
    ensures p % m == 1 <==> g == 1
  {
    SmallRemainder(1, m);
    if g < m {
      SmallRemainder(g, m);
    } else {
      assert g % m == 0;
    }
  }

  lemma SmallRemainder(a: nat, m: nat)
    requires a < m
    ensures a % m == a
  {
  }
}
