/** The bits of a digit, most significant first. */
module Bits {
  import opened Digits

  function Pow2(n: nat): (p: nat)
    ensures p >= 1
  {
    if n == 0 then 1 else 2 * Pow2(n - 1)
  }

  /** The number the first t of the 32 bits of d denote. */
  function TopBits(d: Digit, t: nat): nat
    requires t <= 32
  {
    var p := Pow2(32 - t);
    QuotientNat(d, p);
    d / p
  }

  lemma QuotientNat(a: nat, d: nat)
    requires d > 0
    ensures a / d >= 0
  {
  }

  /** Bit j of d, counted from the most significant one. */
  predicate BitAt(d: Digit, j: nat)
    requires j < 32
  {
    TopBits(d, j + 1) % 2 == 1
  }

  /** The number denoted by the digits above i and the first t bits of digit i. */
  function Prefix(s: seq<Digit>, i: nat, t: nat): nat
    requires i < |s| && t <= 32
  {
    Val(s[i + 1..]) * Pow2(t) + TopBits(s[i], t)
  }

  lemma Pow2Digit()
    ensures Pow2(32) == 0x1_0000_0000
  {
    assert Pow2(8) == 0x100;
    assert Pow2(16) == 0x1_0000;
    assert Pow2(24) == 0x100_0000;
  }

  lemma HalveQuotient(a: nat, d: nat)
    requires d > 0
    ensures a / (2 * d) == a / d / 2
  {
    var q := a / d;
    assert a == d * q + a % d;
    assert d * q == (2 * d) * (q / 2) + d * (q % 2);
    var r := d * (q % 2) + a % d;
    assert 0 <= r < 2 * d;
    DivModUnique(a, 2 * d, q / 2, r);
  }

  lemma TopBitsStep(d: Digit, t: nat)
    requires t < 32
    ensures TopBits(d, t) == TopBits(d, t + 1) / 2
  {
    HalveQuotient(d, Pow2(32 - (t + 1)));
  }

  lemma TopBitsEnds(d: Digit)
    ensures TopBits(d, 0) == 0 && TopBits(d, 32) == d
  {
    Pow2Digit();
  }

  lemma {:induction false} TopBitsZero(d: Digit, t: nat)
    requires t <= 32
    requires forall j :: 0 <= j < t ==> !BitAt(d, j)
    ensures TopBits(d, t) == 0
  {
    hide TopBits;
    if t == 0 {
      TopBitsEnds(d);
    } else {
      TopBitsZero(d, t - 1);
      TopBitsStep(d, t - 1);
      assert !BitAt(d, t - 1);
    }
  }

  lemma PrefixStep(s: seq<Digit>, i: nat, t: nat)
    requires i < |s| && t < 32
    ensures Prefix(s, i, t + 1) == 2 * Prefix(s, i, t) + (if BitAt(s[i], t) then 1 else 0)
  {
    hide TopBits, Val;
    TopBitsStep(s[i], t);
    var v := Val(s[i + 1..]);
    assert v * (2 * Pow2(t)) == 2 * (v * Pow2(t));
  }

  lemma PrefixDone(s: seq<Digit>, i: nat)
    requires i < |s|
    ensures Prefix(s, i, 32) == Val(s[i..])
    ensures i > 0 ==> Prefix(s, i - 1, 0) == Val(s[i..])
  {
    hide TopBits;
    Pow2Digit();
    TopBitsEnds(s[i]);
    assert s[i..][1..] == s[i + 1..];
    if i > 0 {
      TopBitsEnds(s[i - 1]);
    }
  }

  lemma Pow2Zero()
    ensures Pow2(0) == 1
  {
  }

  lemma HalfTwice(rest: nat, n: nat)
    requires rest % 2 == 0
    ensures rest / 2 * Pow2(n + 1) == rest * Pow2(n)
  {
    var half, p := rest / 2, Pow2(n);
    assert rest == 2 * half;
    assert (2 * half) * p == half * (2 * p);
  }

  /** bin holds the bits of now, and current is one past the first of them that is set, if any. */
  method Binary(now: Digit) returns (bin: array<bool>, current: nat)
    ensures fresh(bin) && bin.Length == 32
    ensures forall j :: 0 <= j < 32 ==> bin[j] == BitAt(now, j)
    ensures now > 0 ==> 1 <= current <= 32 && TopBits(now, current) == 1
  {
    hide TopBits, Pow2;
    bin := new bool[32];
    current := 32;
    var rest: nat := now;
    TopBitsEnds(now);
    Pow2Zero();
    var i := 31;
    ghost var found := false;
    while i >= 0
      invariant -1 <= i <= 31
      invariant rest == TopBits(now, i + 1)
      invariant forall j :: i < j < 32 ==> bin[j] == BitAt(now, j)
      invariant found ==> i + 1 < current <= 32 && bin[current - 1] && forall j :: i < j < current - 1 ==> !bin[j]
      invariant !found ==> rest * Pow2(31 - i) == now
    {
      TopBitsStep(now, i);
      if rest % 2 == 1 {
        current := i + 1;
        found := true;
      } else {
        if !found {
          HalfTwice(rest, 31 - i);
        }
      }
      bin[i] := rest % 2 == 1;
      rest := rest / 2;
      i := i - 1;
    }
    if now > 0 {
      assert found;
      forall j | 0 <= j < current - 1
        ensures !BitAt(now, j)
      {
        assert !bin[j];
      }
      TopBitsZero(now, current - 1);
      TopBitsStep(now, current - 1);
    }
  }
}
