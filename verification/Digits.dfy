/** Little-endian digit sequences in base 2^32 and the numbers they denote. */
module Digits {

  type Digit = d: int | 0 <= d < 0x1_0000_0000

  // The source's unsigned long long: a value that leaves this range would wrap.
  type DoubleDigit = d: int | 0 <= d < 0x1_0000_0000_0000_0000

  /** 2^32 to the power n. */
  function Weight(n: nat): (w: nat)
    ensures w >= 1
  {
    if n == 0 then 1 else 0x1_0000_0000 * Weight(n - 1)
  }

  /** The number a digit sequence denotes, least significant digit first. */
  function Val(s: seq<Digit>): nat {
    if s == [] then 0 else s[0] + 0x1_0000_0000 * Val(s[1..])
  }

  lemma {:induction false} WeightAdd(m: nat, n: nat)
    ensures Weight(m + n) == Weight(m) * Weight(n)
  {
    if m == 0 {
    } else {
      WeightAdd(m - 1, n);
      MulAssoc(0x1_0000_0000, Weight(m - 1), Weight(n));
    }
  }

  lemma MulAssoc(a: int, b: int, c: int)
    ensures a * (b * c) == (a * b) * c
  {
  }

  lemma MulMonotonic(a: int, b: int, c: int)
    requires a >= 0 && b <= c
    ensures a * b <= a * c
  {
    assert a * (c - b) >= 0;
  }

  lemma {:induction false} ValAppend(s: seq<Digit>, t: seq<Digit>)
    ensures Val(s + t) == Val(s) + Weight(|s|) * Val(t)
  {
    if s == [] {
      assert s + t == t;
    } else {
      assert (s + t)[1..] == s[1..] + t;
      ValAppend(s[1..], t);
      MulAssoc(0x1_0000_0000, Weight(|s| - 1), Val(t));
    }
  }

  lemma ValOne(d: Digit)
    ensures Val([d]) == d
  {
    assert [d][1..] == [];
  }

  lemma ValSnoc(s: seq<Digit>, i: nat)
    requires i < |s|
    ensures Val(s[..i + 1]) == Val(s[..i]) + Weight(i) * s[i]
  {
    assert s[..i + 1] == s[..i] + [s[i]];
    ValAppend(s[..i], [s[i]]);
    ValOne(s[i]);
  }

  lemma ValSplit(s: seq<Digit>, i: nat)
    requires i <= |s|
    ensures Val(s) == Val(s[..i]) + Weight(i) * Val(s[i..])
  {
    assert s == s[..i] + s[i..];
    ValAppend(s[..i], s[i..]);
  }

  lemma {:induction false} ValBound(s: seq<Digit>)
    ensures Val(s) < Weight(|s|)
  {
    if s == [] {
    } else {
      ValBound(s[1..]);
    }
  }

  /** A digit sequence with a zero on top denotes the same number. */
  lemma ValPadded(s: seq<Digit>)
    ensures Val(s + [0]) == Val(s)
  {
    ValAppend(s, [0]);
    ValOne(0);
  }

  /** Truncating to the low n digits is reduction modulo Weight(n). */
  lemma ValTruncate(s: seq<Digit>, n: nat)
    requires n <= |s|
    ensures Val(s[..n]) == Val(s) % Weight(n)
    ensures Val(s[n..]) == Val(s) / Weight(n)
  {
    ValSplit(s, n);
    ValBound(s[..n]);
    DivModUnique(Val(s), Weight(n), Val(s[n..]), Val(s[..n]));
  }

  lemma DivModUnique(a: int, d: int, q: int, r: int)
    requires d > 0 && 0 <= r < d && a == d * q + r
    ensures a / d == q && a % d == r
  {
    var q', r' := a / d, a % d;
    assert a == d * q' + r';
    assert d * (q - q') == r' - r;
    if q - q' >= 1 {
      MulMonotonic(d, 1, q - q');
    } else if q - q' <= -1 {
      MulMonotonic(d, q - q', -1);
    }
  }

  /** The top differing digit decides the order. */
  lemma ValCompare(s: seq<Digit>, t: seq<Digit>, i: nat)
    requires |s| == |t| && i < |s|
    requires s[i + 1..] == t[i + 1..]
    ensures s[i] < t[i] ==> Val(s) < Val(t)
    ensures s[i] > t[i] ==> Val(s) > Val(t)
  {
    ValSplit(s, i + 1);
    ValSplit(t, i + 1);
    ValSnoc(s, i);
    ValSnoc(t, i);
    ValBound(s[..i]);
    ValBound(t[..i]);
    if s[i] < t[i] {
      Dominates(Weight(i), Val(s[..i]), Val(t[..i]), s[i], t[i]);
    } else if s[i] > t[i] {
      Dominates(Weight(i), Val(t[..i]), Val(s[..i]), t[i], s[i]);
    }
  }

  lemma Dominates(w: int, low: int, low': int, a: int, b: int)
    requires 0 <= low < w && 0 <= low' && a < b
    ensures low + w * a < low' + w * b
  {
    MulMonotonic(w, a + 1, b);
    assert w * (a + 1) == w * a + w;
  }

  /** Equal lengths and equal values mean equal digits. */
  lemma {:induction false} ValInjective(s: seq<Digit>, t: seq<Digit>)
    requires |s| == |t| && Val(s) == Val(t)
    ensures s == t
  {
    if s == [] {
    } else {
      assert s[0] == t[0] && Val(s[1..]) == Val(t[1..]);
      ValInjective(s[1..], t[1..]);
      assert s == [s[0]] + s[1..] && t == [t[0]] + t[1..];
    }
  }

  // ---------------------------------------------------------------------
  // Column products
  // ---------------------------------------------------------------------

  function Term(d: Digit, t: seq<Digit>, c: int): nat {
    if 0 <= c < |t| then d * t[c] else 0
  }

  /** Sum of s[j] * t[c - j] over every j that indexes both sequences. */
  function Column(s: seq<Digit>, t: seq<Digit>, c: int): nat {
    if s == [] || c < 0 then 0
    else Term(s[0], t, c) + Column(s[1..], t, c - 1)
  }

  /** The first n columns at their weights. */
  function ColumnSum(s: seq<Digit>, t: seq<Digit>, n: nat): nat {
    if n == 0 then 0 else ColumnSum(s, t, n - 1) + Weight(n - 1) * Column(s, t, n - 1)
  }

  /** What the columns from n on contribute, in units of Weight(n). */
  function ColumnRest(s: seq<Digit>, t: seq<Digit>, n: nat): nat {
    if s == [] then 0
    else if n == 0 then Val(s) * Val(t)
    else (if n <= |t| then s[0] * Val(t[n..]) else 0) + ColumnRest(s[1..], t, n - 1)
  }

  lemma {:induction false} ColumnSumEmpty(t: seq<Digit>, n: nat)
    ensures ColumnSum([], t, n) == 0
  {
    if n > 0 {
      ColumnSumEmpty(t, n - 1);
    }
  }

  lemma {:induction false} ColumnSumStep(s: seq<Digit>, t: seq<Digit>, n: nat)
    requires s != [] && n >= 1
    ensures ColumnSum(s, t, n)
         == s[0] * Val(Low(t, n)) + 0x1_0000_0000 * ColumnSum(s[1..], t, n - 1)
  {
    ColumnSumLow(s[0], t, n);
    if n == 1 {
      assert ColumnSum(s, t, 1) == Column(s, t, 0);
      assert Column(s[1..], t, -1) == 0;
    } else {
      ColumnSumStep(s, t, n - 1);
      var w, later := Weight(n - 2), Column(s[1..], t, n - 2);
      var here := Term(s[0], t, n - 1);
      assert Weight(n - 1) * (here + later) == Weight(n - 1) * here + Weight(n - 1) * later;
      MulAssoc(0x1_0000_0000, w, later);
    }
  }

  /** The part of t below index n, all of it when t is shorter. */
  function Low(t: seq<Digit>, n: nat): seq<Digit> {
    if n <= |t| then t[..n] else t
  }

  lemma ScaleSum(d: int, v: int, w: int, x: int)
    ensures d * (v + w * x) == d * v + w * (d * x)
  {
    assert d * (w * x) == w * (d * x);
  }

  lemma ColumnSumLow(d: Digit, t: seq<Digit>, n: nat)
    requires n >= 1
    ensures d * Val(Low(t, n))
         == d * Val(Low(t, n - 1)) + Weight(n - 1) * Term(d, t, n - 1)
  {
    if n - 1 < |t| {
      ValSnoc(t, n - 1);
      ScaleSum(d, Val(Low(t, n - 1)), Weight(n - 1), t[n - 1]);
    } else {
      assert Low(t, n) == Low(t, n - 1);
    }
  }

  lemma {:induction false} ColumnProduct(s: seq<Digit>, t: seq<Digit>, n: nat)
    ensures Val(s) * Val(t) == ColumnSum(s, t, n) + Weight(n) * ColumnRest(s, t, n)
  {
    if s == [] {
      ColumnSumEmpty(t, n);
    } else if n == 0 {
    } else {
      ColumnSumStep(s, t, n);
      ColumnProduct(s[1..], t, n - 1);
      var tv, low := Val(t), Val(Low(t, n));
      var high: int := if n <= |t| then Val(t[n..]) else 0;
      assert tv == low + Weight(n) * high by {
        if n <= |t| {
          ValSplit(t, n);
        }
      }
      ColumnRecombine(s[0], Val(s[1..]), tv, low, high, Weight(n - 1),
                      ColumnSum(s[1..], t, n - 1), ColumnRest(s[1..], t, n - 1));
    }
  }

  lemma ColumnRecombine(s0: int, sv: int, tv: int, low: int, high: int, w: int, sum: int, rest: int)
    requires tv == low + (0x1_0000_0000 * w) * high
    requires sv * tv == sum + w * rest
    ensures (s0 + 0x1_0000_0000 * sv) * tv
         == (s0 * low + 0x1_0000_0000 * sum) + (0x1_0000_0000 * w) * (s0 * high + rest)
  {
    var bw := 0x1_0000_0000 * w;
    assert (s0 + 0x1_0000_0000 * sv) * tv == s0 * tv + 0x1_0000_0000 * (sv * tv);
    assert s0 * tv == s0 * low + s0 * (bw * high);
    assert s0 * (bw * high) == bw * (s0 * high);
    assert bw * (s0 * high + rest) == bw * (s0 * high) + bw * rest;
    MulAssoc(0x1_0000_0000, w, rest);
  }

  lemma {:induction false} ColumnRestZero(s: seq<Digit>, t: seq<Digit>, n: nat)
    requires n + 1 >= |s| + |t| && |t| >= 1
    ensures ColumnRest(s, t, n) == 0
  {
    if s == [] {
    } else if n > 0 {
      ColumnRestZero(s[1..], t, n - 1);
      if n <= |t| {
        assert t[n..] == [];
      }
    }
  }
}
