/** include/utility/bignum.h: fixed-size big numbers with arithmetic modulo the field's modulus. */
module Bignums {
  import opened Digits
  import opened Divisibility
  import opened Bytes

  // ---------------------------------------------------------------------
  // Digit-array primitives
  // ---------------------------------------------------------------------

  function Sign(d: int): int {
    if d > 0 then 1 else if d < 0 then -1 else 0
  }

  method Cmp(a: array<Digit>, b: array<Digit>, size: nat) returns (c: int)
    requires size <= a.Length && size <= b.Length
    ensures c == Sign(Val(a[..size]) - Val(b[..size]))
  {
    var i := size - 1;
    while i >= 0
      invariant -1 <= i < size
      invariant forall k :: i < k < size ==> a[k] == b[k]
    {
      if a[i] != b[i] {
        assert a[..size][i + 1..] == b[..size][i + 1..];
        ValCompare(a[..size], b[..size], i);
        return if a[i] > b[i] then 1 else -1;
      }
      i := i - 1;
    }
    assert a[..size] == b[..size];
    return 0;
  }

  function Flag(b: bool): nat {
    if b then 1 else 0
  }

  /** A carry or borrow bit at digit position i. */
  function At(b: bool, i: nat): nat {
    if b then Weight(i) else 0
  }

  /** res = a - b without modulo; a, b and res may be the same array. */
  method SimpleSub(res: array<Digit>, a: array<Digit>, b: array<Digit>, size: nat) returns (borrow: bool)
    requires size <= res.Length && size <= a.Length && size <= b.Length
    modifies res
    ensures Val(res[..size]) == old(Val(a[..size])) - old(Val(b[..size])) + At(borrow, size)
    ensures res[size..] == old(res[size..])
  {
    ghost var x, y := a[..size], b[..size];
    borrow := false;
    var aux: DoubleDigit := 0x1_0000_0000;
    var i := 0;
    while i < size
      invariant 0 <= i <= size
      invariant forall k :: i <= k < size ==> a[k] == x[k] && b[k] == y[k]
      invariant forall k :: size <= k < res.Length ==> res[k] == old(res[k])
      invariant Val(res[..i]) == Val(x[..i]) - Val(y[..i]) + At(borrow, i)
    {
      ghost var done, c := res[..i], borrow;
      var anow: DoubleDigit := a[i];
      var bnow: DoubleDigit := b[i] + Flag(borrow);
      borrow := anow < bnow;
      res[i] := if borrow then (aux - bnow) + anow else anow - bnow;
      assert res[..i + 1] == done + [res[i]];
      BorrowStep(done, res[i], x, y, i, c, borrow);
      i := i + 1;
    }
    assert x[..size] == x && y[..size] == y;
  }

  lemma BorrowStep(done: seq<Digit>, r: Digit, x: seq<Digit>, y: seq<Digit>, i: nat, c: bool, c': bool)
    requires i == |done| < |x| == |y|
    requires Val(done) == Val(x[..i]) - Val(y[..i]) + At(c, i)
    requires r == x[i] - y[i] - Flag(c) + 0x1_0000_0000 * Flag(c')
    ensures Val(done + [r]) == Val(x[..i + 1]) - Val(y[..i + 1]) + At(c', i + 1)
  {
    ValAppend(done, [r]);
    ValOne(r);
    ValSnoc(x, i);
    ValSnoc(y, i);
    BorrowDigits(Weight(i), x[i], y[i], Flag(c), r, Flag(c'));
  }

  lemma BorrowDigits(w: int, x: int, y: int, c: int, r: int, c': int)
    requires r == x - y - c + 0x1_0000_0000 * c'
    ensures w * r == w * x - w * y - w * c + 0x1_0000_0000 * (w * c')
  {
    assert w * r == w * (x - y - c + 0x1_0000_0000 * c');
  }

  /** res = a + b without modulo; a, b and res may be the same array. */
  method SimpleAdd(res: array<Digit>, a: array<Digit>, b: array<Digit>, size: nat) returns (carry: bool)
    requires size <= res.Length && size <= a.Length && size <= b.Length
    modifies res
    ensures Val(res[..size]) + At(carry, size) == old(Val(a[..size])) + old(Val(b[..size]))
    ensures res[size..] == old(res[size..])
  {
    ghost var x, y := a[..size], b[..size];
    carry := false;
    var i := 0;
    while i < size
      invariant 0 <= i <= size
      invariant forall k :: i <= k < size ==> a[k] == x[k] && b[k] == y[k]
      invariant forall k :: size <= k < res.Length ==> res[k] == old(res[k])
      invariant Val(res[..i]) + At(carry, i) == Val(x[..i]) + Val(y[..i])
    {
      ghost var done, c := res[..i], carry;
      var tmp: DoubleDigit := Flag(carry) + a[i] + b[i];
      res[i] := tmp % 0x1_0000_0000;
      carry := tmp / 0x1_0000_0000 != 0;
      assert res[..i + 1] == done + [res[i]];
      CarryStep(done, res[i], x, y, i, c, carry);
      i := i + 1;
    }
    assert x[..size] == x && y[..size] == y;
  }

  lemma CarryStep(done: seq<Digit>, r: Digit, x: seq<Digit>, y: seq<Digit>, i: nat, c: bool, c': bool)
    requires i == |done| < |x| == |y|
    requires Val(done) + At(c, i) == Val(x[..i]) + Val(y[..i])
    requires r + 0x1_0000_0000 * Flag(c') == x[i] + y[i] + Flag(c)
    ensures Val(done + [r]) + At(c', i + 1) == Val(x[..i + 1]) + Val(y[..i + 1])
  {
    ValAppend(done, [r]);
    ValOne(r);
    ValSnoc(x, i);
    ValSnoc(y, i);
    BorrowDigits(Weight(i), r, y[i], Flag(c), x[i], Flag(c'));
  }

  /** The number an accumulator r0, r1, r2 of three digits holds. */
  function Acc(r0: int, r1: int, r2: int): int {
    r0 + 0x1_0000_0000 * r1 + 0x1_0000_0000_0000_0000 * r2
  }

  /** One multiply-accumulate step: no 64-bit sum wraps and r2 grows by at most one. */
  method MulAcc(x: Digit, y: Digit, in0: Digit, in1: Digit, in2: nat)
    returns (r0: Digit, r1: Digit, r2: DoubleDigit)
    requires in2 < 0x8000_0000
    ensures Acc(r0, r1, r2) == Acc(in0, in1, in2) + x * y
    ensures r2 <= in2 + 1
  {
    DigitProduct(x, y);
    var prod: DoubleDigit := x as int * y as int;
    var acc0: DoubleDigit := in0 + prod % 0x1_0000_0000;
    var acc1: DoubleDigit := in1 + (prod / 0x1_0000_0000 + acc0 / 0x1_0000_0000);
    r0 := acc0 % 0x1_0000_0000;
    r2 := in2 + acc1 / 0x1_0000_0000;
    r1 := acc1 % 0x1_0000_0000;
  }

  lemma DigitProduct(x: Digit, y: Digit)
    ensures 0 <= x * y <= 0xFFFF_FFFE_0000_0001
  {
    MulMonotonic(x, y, 0xFFFF_FFFF);
  }

  /** Column c of the product of s and t is added to the accumulator. */
  method AddColumn(s: seq<Digit>, t: seq<Digit>, c: nat, in0: Digit, in1: Digit)
    returns (r0: Digit, r1: Digit, r2: DoubleDigit)
    requires |s| < 0x8000_0000
    ensures Acc(r0, r1, r2) == Acc(in0, in1, 0) + Column(s, t, c)
    ensures r2 <= |s|
  {
    hide Column;
    r0, r1, r2 := in0, in1, 0;
    var j := 0;
    assert s[0..] == s;
    while j < |s| && j <= c
      invariant 0 <= j <= |s| && j <= c + 1
      invariant r2 <= j
      invariant Acc(r0, r1, r2) + Column(s[j..], t, c - j) == Acc(in0, in1, 0) + Column(s, t, c)
    {
      var k := c - j;
      ColumnHead(s, t, j, c);
      if k < |t| {
        r0, r1, r2 := MulAcc(s[j], t[k], r0, r1, r2);
      }
      j := j + 1;
    }
    ColumnEmpty(s[j..], t, c - j);
  }

  lemma ColumnHead(s: seq<Digit>, t: seq<Digit>, j: nat, c: int)
    requires j < |s| && j <= c
    ensures Column(s[j..], t, c - j) == Term(s[j], t, c - j) + Column(s[j + 1..], t, c - j - 1)
  {
    assert s[j..][0] == s[j] && s[j..][1..] == s[j + 1..];
  }

  lemma ColumnEmpty(s: seq<Digit>, t: seq<Digit>, c: int)
    requires s == [] || c < 0
    ensures Column(s, t, c) == 0
  {
  }

  /** done holds the finished columns below i; the accumulator carries the rest. */
  ghost predicate Columns(done: seq<Digit>, s: seq<Digit>, t: seq<Digit>, i: nat, r0: int, r1: int) {
    |done| == i && Val(done) + Weight(i) * (r0 + 0x1_0000_0000 * r1) == ColumnSum(s, t, i)
  }

  lemma ColumnsEmpty(s: seq<Digit>, t: seq<Digit>)
    ensures Columns([], s, t, 0, 0, 0)
  {
  }

  lemma ColumnsStep(done: seq<Digit>, s: seq<Digit>, t: seq<Digit>, i: nat,
                    in0: int, in1: int, r0: Digit, r1: int, r2: int)
    requires Columns(done, s, t, i, in0, in1)
    requires Acc(r0, r1, r2) == Acc(in0, in1, 0) + Column(s, t, i)
    ensures Columns(done + [r0], s, t, i + 1, r1, r2)
  {
    ValAppend(done, [r0]);
    ValOne(r0);
    ColumnsArith(Weight(i), r0, r1 + 0x1_0000_0000 * r2, in0 + 0x1_0000_0000 * in1, Column(s, t, i));
  }

  lemma ColumnsArith(w: int, r0: int, high: int, carry: int, col: int)
    requires r0 + 0x1_0000_0000 * high == carry + col
    ensures w * r0 + (0x1_0000_0000 * w) * high == w * carry + w * col
  {
    assert w * (r0 + 0x1_0000_0000 * high) == w * (carry + col);
  }

  /** |s| + |t| - 1 columns are the whole product, and it fits |s| + |t| digits. */
  lemma ColumnSumFull(s: seq<Digit>, t: seq<Digit>)
    requires |s| >= 1 && |t| >= 1
    ensures ColumnSum(s, t, |s| + |t| - 1) == Val(s) * Val(t) < Weight(|s| + |t|)
  {
    hide ColumnSum, ColumnRest, Val, Weight;
    var n := |s| + |t|;
    ColumnProduct(s, t, n - 1);
    ColumnRestZero(s, t, n - 1);
    ProductBound(s, t);
  }

  /** The last column of a full product fits one digit. */
  lemma ColumnsTop(done: seq<Digit>, s: seq<Digit>, t: seq<Digit>, r0: Digit, r1: nat)
    requires |s| >= 1 && |t| >= 1
    requires Columns(done, s, t, |s| + |t| - 1, r0, r1)
    ensures r1 == 0
    ensures Val(done + [r0]) == Val(s) * Val(t)
  {
    ColumnSumFull(s, t);
    ValAppend(done, [r0]);
    ValOne(r0);
    TopDigit(Val(done), Weight(|s| + |t| - 1), r0, r1);
  }

  lemma TopDigit(low: nat, w: nat, r0: nat, r1: nat)
    requires low + w * (r0 + 0x1_0000_0000 * r1) < 0x1_0000_0000 * w
    ensures r1 == 0
  {
    if r1 >= 1 {
      MulMonotonic(w, 0x1_0000_0000, r0 + 0x1_0000_0000 * r1);
    }
  }

  lemma ProductBound(s: seq<Digit>, t: seq<Digit>)
    ensures Val(s) * Val(t) < Weight(|s| + |t|)
  {
    ValBound(s);
    ValBound(t);
    WeightAdd(|s|, |t|);
    MulMonotonic(Val(s), Val(t), Weight(|t|));
    MulStrict(Val(s), Weight(|s|), Weight(|t|));
  }

  lemma MulStrict(a: int, b: int, c: int)
    requires a < b && c > 0
    ensures a * c < b * c
  {
    MulMonotonic(c, a + 1, b);
  }

  /** res = a * b, column by column. */
  method SimpleMult(res: array<Digit>, a: array<Digit>, b: array<Digit>, size: nat)
    requires 1 <= size < 0x8000_0000
    requires res.Length == 2 * size && size <= a.Length && size <= b.Length
    requires res != a && res != b
    modifies res
    ensures Val(res[..]) == Val(a[..size]) * Val(b[..size])
  {
    hide Val, Weight, Columns;
    var s, t := a[..size], b[..size];
    ColumnsEmpty(s, t);
    var r0: Digit, r1: Digit := 0, 0;
    var i := 0;
    while i < size * 2 - 1
      invariant 0 <= i <= size * 2 - 1
      invariant a[..size] == s && b[..size] == t
      invariant Columns(res[..i], s, t, i, r0, r1)
    {
      ghost var done, in0, in1 := res[..i], r0, r1;
      var c0, c1, c2 := AddColumn(s, t, i, r0, r1);
      res[i] := c0;
      assert res[..i + 1] == done + [c0];
      ColumnsStep(done, s, t, i, in0, in1, c0, c1, c2);
      r0, r1 := c1, c2;
      i := i + 1;
    }
    ghost var done := res[..i];
    res[i] := r0;
    assert res[..] == done + [r0];
    ColumnsTop(done, s, t, r0, r1);
  }

  // ---------------------------------------------------------------------
  // The modulus and its Barrett constant
  // ---------------------------------------------------------------------

  /** The static tables of one Bignum instantiation: k digits of modulus, k + 1 of its Barrett constant. */
  class Field {
    const digits: nat
    const mod: array<Digit>
    const barrettU: array<Digit>
    ghost const m: nat

    constructor (mod: array<Digit>, barrettU: array<Digit>)
      requires mod != barrettU && mod.Length < 0x7FFF_FFFF
      requires IsBarrettPair(mod[..], barrettU[..])
      ensures Valid() && this.mod == mod && this.barrettU == barrettU && m == Val(mod[..])
    {
      digits := mod.Length;
      this.mod := mod;
      this.barrettU := barrettU;
      m := Val(mod[..]);
    }

    ghost predicate Valid()
      reads mod, barrettU
    {
      && 1 <= digits < 0x7FFF_FFFF
      && mod.Length == digits && barrettU.Length == digits + 1 && mod != barrettU
      && IsBarrettPair(mod[..], barrettU[..])
      && m == Val(mod[..])
    }
  }

  /** u is floor(B^2k / m) for a k-digit modulus m above B^(k-1). */
  ghost predicate IsBarrettPair(mod: seq<Digit>, u: seq<Digit>) {
    && |mod| >= 1 && |u| == |mod| + 1
    && Val(mod) > Weight(|mod| - 1)
    && Val(u) == Weight(2 * |mod|) / Val(mod)
  }

  /** The estimated quotient is at most the true one and at most two below it. */
  lemma BarrettEstimate(a: nat, m: nat, p: nat, P: nat, a1: nat, u: nat, q: nat)
    requires 0 < p < m && P > 0 && a < p * P
    requires a1 == a / p && u == (p * P) / m && q == (a1 * u) / P
    ensures q * m <= a < (q + 3) * m
  {
    QuotientBounds(a, p, a1);
    QuotientBounds(p * P, m, u);
    QuotientBounds(a1 * u, P, q);
    BarrettLow(a, m, p, P, a1, u, q);
    BarrettHigh(a, m, p, P, a1, u, q);
  }

  lemma QuotientBounds(a: int, d: int, q: int)
    requires d > 0 && q == a / d
    ensures q * d <= a < (q + 1) * d
  {
    assert a == d * q + a % d;
  }

  lemma BarrettLow(a: nat, m: nat, p: nat, P: nat, a1: nat, u: nat, q: nat)
    requires P > 0 && a1 * p <= a && u * m <= p * P && q * P <= a1 * u
    ensures q * m <= a
  {
    calc <= {
      (q * m) * P;
      { assert (q * m) * P == m * (q * P); MulMonotonic(m, q * P, a1 * u); }
      m * (a1 * u);
      { assert m * (a1 * u) == a1 * (u * m); MulMonotonic(a1, u * m, p * P); }
      a1 * (p * P);
      { assert a1 * (p * P) == P * (a1 * p); MulMonotonic(P, a1 * p, a); }
      P * a;
    }
    if q * m > a {
      MulStrict(a, q * m, P);
    }
  }

  lemma BarrettHigh(a: nat, m: nat, p: nat, P: nat, a1: nat, u: nat, q: nat)
    requires 0 < p < m && P > 0 && a < p * P
    requires a1 * p <= a < (a1 + 1) * p && u * m <= p * P < (u + 1) * m && a1 * u < (q + 1) * P
    ensures a < (q + 3) * m
  {
    FactorsSmall(a, m, p, P, a1, u);
    FactorsSum(P, a1, u, q);
    ScaleUp(a, m, p, P, a1 + 1, u + 1);
    ScaleBack(a, m, P, (a1 + 1) * (u + 1), q + 3);
  }

  lemma ScaleUp(a: nat, m: nat, p: nat, P: nat, x: nat, y: nat)
    requires P > 0 && a < x * p && p * P < y * m
    ensures a * P < (x * y) * m
  {
    MulStrict(a, x * p, P);
    MulAssoc(x, p, P);
    MulMonotonic(x, p * P, y * m);
    MulAssoc(x, y, m);
  }

  lemma FactorsSmall(a: nat, m: nat, p: nat, P: nat, a1: nat, u: nat)
    requires 0 < p < m && P > 0 && a < p * P && a1 * p <= a && u * m <= p * P
    ensures a1 < P && u < P
  {
    if a1 >= P {
      MulMonotonic(p, P, a1);
    }
    if u >= P {
      MulMonotonic(m, P, u);
      MulStrict(p, m, P);
    }
  }

  lemma FactorsSum(P: nat, a1: nat, u: nat, q: nat)
    requires a1 < P && u < P && a1 * u < (q + 1) * P
    ensures (a1 + 1) * (u + 1) <= (q + 3) * P
  {
    assert (a1 + 1) * (u + 1) == a1 * u + a1 + u + 1;
    assert (q + 3) * P == (q + 1) * P + P + P;
  }

  lemma ScaleBack(a: nat, m: nat, P: nat, xy: nat, z: nat)
    requires P > 0 && a * P < xy * m && xy <= z * P
    ensures a < z * m
  {
    MulMonotonic(m, xy, z * P);
    assert m * (z * P) == (z * m) * P;
    if a >= z * m {
      MulMonotonic(P, z * m, a);
    }
  }

  /** floor(floor(a / B^(k-1)) * u / B^(k+1)), the quotient Barrett's method works with. */
  function Estimate(a: nat, u: nat, k: nat): int
    requires k >= 1
  {
    ((a / Weight(k - 1)) * u) / Weight(k + 1)
  }

  lemma EstimateDigits(product: seq<Digit>, a: seq<Digit>, u: seq<Digit>, k: nat)
    requires 1 <= k && |product| == 2 * k + 2 && |a| == 2 * k
    requires Val(product) == Val(a[k - 1..]) * Val(u)
    ensures Val(product[k + 1..]) == Estimate(Val(a), Val(u), k)
  {
    ValTruncate(a, k - 1);
    ValTruncate(product, k + 1);
  }

  /** The estimate leaves less than three moduli, which fit the k + 1 digits kept of the difference. */
  lemma BarrettRemainder(mod: seq<Digit>, u: seq<Digit>, a: seq<Digit>, q: nat)
    requires IsBarrettPair(mod, u) && |a| == 2 * |mod|
    requires q == Estimate(Val(a), Val(u), |mod|)
    ensures 0 <= Val(a) - q * Val(mod) < 3 * Val(mod)
    ensures 3 * Val(mod) < Weight(|mod| + 1)
    ensures (Val(a) - q * Val(mod)) % Val(mod) == Val(a) % Val(mod)
  {
    hide Val;
    var k := |mod|;
    ValBound(a);
    ValBound(mod);
    WeightAdd(k - 1, k + 1);
    BarrettNumbers(Val(a), Val(mod), Weight(k - 1), Weight(k + 1), Val(u), q);
  }

  lemma BarrettNumbers(a: nat, m: nat, p: nat, P: nat, u: nat, q: nat)
    requires 0 < p < m && P > 0 && a < p * P
    requires u == (p * P) / m && q == ((a / p) * u) / P
    ensures 0 <= a - q * m < 3 * m
    ensures (a - q * m) % m == a % m
  {
    BarrettEstimate(a, m, p, P, a / p, u, q);
    assert (q + 3) * m == q * m + 3 * m;
    ModSubtract(a, q, m);
  }

  lemma SmallMod(a: nat, d: nat)
    requires a < d
    ensures a % d == a
  {
  }

  lemma ModSubtract(a: int, q: int, m: nat)
    requires m > 0
    ensures (a - q * m) % m == a % m
  {
    var d, r := a / m, a % m;
    assert a == m * d + r;
    assert a - q * m == m * (d - q) + r;
    DivModUnique(a - q * m, m, d - q, r);
  }

  /** An element of the field: field.digits digits, updated in place. */
  class Bignum {
    const field: Field
    const data: array<Digit>

    ghost predicate Valid()
      reads field.mod, field.barrettU
    {
      field.Valid() && data.Length == field.digits && data != field.mod && data != field.barrettU
    }

    ghost function Value(): nat
      reads data
    {
      Val(data[..])
    }

    /** The number n. */
    constructor (field: Field, n: Digit)
      requires field.Valid()
      ensures Valid() && this.field == field && fresh(data) && Value() == n
    {
      this.field := field;
      data := new Digit[field.digits];
      new;
      AssignSmall(n);
    }

    /** The number of little-endian bytes, as many as fit. */
    constructor FromBytes(field: Field, bytes: seq<Byte>)
      requires field.Valid()
      ensures Valid() && this.field == field && fresh(data)
      ensures Packed(data[..], Fit(bytes, 4 * field.digits))
    {
      this.field := field;
      data := new Digit[field.digits];
      new;
      Load(data, bytes);
    }

    method AssignSmall(n: Digit)
      requires Valid()
      modifies data
      ensures Value() == n
    {
      data[0] := n;
      var i := 1;
      while i < data.Length
        invariant 1 <= i <= data.Length
        invariant data[0] == n
        invariant forall k :: 1 <= k < i ==> data[k] == 0
      {
        data[i] := 0;
        i := i + 1;
      }
      ValZeros(data[1..]);
    }

    /** q = floor(floor(a / B^(k-1)) * u / B^(k+1)). */
    method EstimateQuotient(a: array<Digit>) returns (q: array<Digit>)
      requires Valid() && a.Length == 2 * field.digits
      ensures fresh(q) && q.Length == field.digits + 1
      ensures Val(q[..]) == Estimate(Val(a[..]), Val(field.barrettU[..]), field.digits)
    {
      hide Val, Weight, Columns, Estimate;
      ColumnsEmpty(a[field.digits - 1..], field.barrettU[..]);
      var size := field.digits;
      q := new Digit[size + 1];
      var s, t := a[size - 1..], field.barrettU[..];
      var r0: Digit, r1: Digit := 0, 0;
      var i := 0;
      ghost var done: seq<Digit> := [];
      while i < 2 * (size + 1) - 1
        invariant 0 <= i <= 2 * (size + 1) - 1
        invariant a[..] == old(a[..])
        invariant |done| == i && Columns(done, s, t, i, r0, r1)
        invariant forall k :: size + 1 <= k < i ==> q[k - (size + 1)] == done[k]
      {
        var c0, c1, c2 := AddColumn(s, t, i, r0, r1);
        if i >= size + 1 {
          q[i - (size + 1)] := c0;
        }
        ColumnsStep(done, s, t, i, r0, r1, c0, c1, c2);
        done := done + [c0];
        r0, r1 := c1, c2;
        i := i + 1;
      }
      q[i - (size + 1)] := r0;
      ColumnsTop(done, s, t, r0, r1);
      done := done + [r0];
      assert q[..] == done[size + 1..];
      EstimateDigits(done, a[..], t, size);
    }

    /** r = (q * m) mod B^(k+1). */
    method LowProduct(q: array<Digit>) returns (r: array<Digit>)
      requires Valid() && q.Length == field.digits + 1
      ensures fresh(r) && r.Length == field.digits + 1
      ensures Val(r[..]) == (Val(q[..]) * field.m) % Weight(field.digits + 1)
    {
      hide Val, Weight, Columns;
      ColumnsEmpty(q[..], field.mod[..] + [0]);
      var size := field.digits;
      r := new Digit[size + 1];
      var s, t := q[..], field.mod[..] + [0];
      var r0: Digit, r1: Digit := 0, 0;
      var i := 0;
      while i < size + 1
        invariant 0 <= i <= size + 1
        invariant q[..] == s && field.mod[..] + [0] == t && Valid()
        invariant Columns(r[..i], s, t, i, r0, r1)
      {
        ghost var done, in0, in1 := r[..i], r0, r1;
        var c0, c1, c2 := AddColumn(s, t, i, r0, r1);
        r[i] := c0;
        assert r[..i + 1] == done + [c0];
        ColumnsStep(done, s, t, i, in0, in1, c0, c1, c2);
        r0, r1 := c1, c2;
        i := i + 1;
      }
      assert r[..size + 1] == r[..];
      ValPadded(field.mod[..]);
      LowColumns(r[..], s, t, r0, r1);
    }

    /** r[size] > 0 || cmp(r, mod, size) >= 0: does r, one digit longer than the modulus, reach it? */
    method ReachesModulus(r: array<Digit>) returns (reaches: bool)
      requires Valid() && r.Length == field.digits + 1
      ensures reaches <==> Val(r[..]) >= field.m
    {
      hide Val, Weight;
      var size := field.digits;
      var c := Cmp(r, field.mod, size);
      assert field.mod[..size] == field.mod[..] && r[..][..size] == r[..size];
      Split(r[..], size);
      ValBound(field.mod[..]);
      TopDigitReaches(Val(r[..size]), Weight(size), r[size], field.m);
      reaches := r[size] > 0 || c >= 0;
    }

    /** r -= m; a borrow out of the low digits is taken from the top one, which then is not zero. */
    method SubtractModulus(r: array<Digit>)
      requires Valid() && r.Length == field.digits + 1 && r != field.mod && r != field.barrettU
      requires Val(r[..]) >= field.m
      modifies r
      ensures Val(r[..]) == old(Val(r[..])) - field.m
    {
      hide Val, Weight;
      var size := field.digits;
      ghost var before := r[..];
      Split(before, size);
      assert before[..size] == r[..size] && field.mod[..size] == field.mod[..];
      ValBound(before[..size]);
      var borrow := SimpleSub(r, r, field.mod, size);
      assert r[size] == r[size..][0] == before[size];
      ValBound(r[..size]);
      if borrow {
        BorrowFromTop(Val(before[..size]), Val(r[..size]), Weight(size), r[size], field.m);
        r[size] := r[size] - 1;
      }
      Split(r[..], size);
      assert r[..][..size] == r[..size];
    }

    /** r = (a mod B^(k+1) - q * m mod B^(k+1)) mod B^(k+1), which is a less a multiple of m. */
    method Residual(a: array<Digit>) returns (r: array<Digit>)
      requires Valid() && a.Length == 2 * field.digits
      ensures fresh(r) && r.Length == field.digits + 1
      ensures Val(r[..]) < 3 * field.m
      ensures Val(r[..]) % field.m == Val(a[..]) % field.m
    {
      hide Val, Weight, Estimate;
      var size := field.digits;
      var q := EstimateQuotient(a);
      r := LowProduct(q);
      ghost var low, av, qm := Val(r[..]), Val(a[..]), Val(q[..]) * field.m;
      BarrettRemainder(field.mod[..], field.barrettU[..], a[..], Val(q[..]));
      assert r[..size + 1] == r[..] && a[..][..size + 1] == a[..size + 1];
      ValTruncate(a[..], size + 1);
      var borrow := SimpleSub(r, a, r, size + 1);
      assert r[..size + 1] == r[..];
      ValBound(r[..]);
      WrappedDifference(av, qm, Weight(size + 1), low, Val(r[..]), Flag(borrow));
    }

    /** res = a mod m for any a of 2k digits; corrections counts the final subtractions. */
    method BarrettReduction(res: array<Digit>, a: array<Digit>) returns (ghost corrections: nat)
      requires Valid() && a.Length == 2 * field.digits && res.Length == field.digits
      requires res != field.mod && res != field.barrettU
      modifies res
      ensures Val(res[..]) == old(Val(a[..])) % field.m
      ensures corrections <= 2
    {
      hide Val, Weight, Corrected;
      var size := field.digits;
      var r := Residual(a);
      ghost var d := Val(r[..]);
      assert a[..] == old(a[..]);
      corrections := 0;
      CorrectedNone(d, field.m);
      var reaches := ReachesModulus(r);
      while reaches
        invariant reaches <==> Val(r[..]) >= field.m
        invariant Corrected(Val(r[..]), corrections, field.m, d)
        decreases Val(r[..])
      {
        CorrectedStep(Val(r[..]), corrections, field.m, d);
        SubtractModulus(r);
        corrections := corrections + 1;
        reaches := ReachesModulus(r);
      }
      CorrectionsBound(Val(r[..]), corrections, field.m, d);
      FitsBelowTop(r[..], size, field.mod[..]);
      ghost var low := r[..][..size];
      var i := 0;
      while i < size
        invariant 0 <= i <= size
        invariant r[..][..size] == low
        invariant forall k :: 0 <= k < i ==> res[k] == r[k]
      {
        res[i] := r[i];
        i := i + 1;
      }
      assert res[..] == low;
    }

    method AssignFrom(b: Bignum)
      requires Valid() && b.Valid() && b.field == field
      modifies data
      ensures Value() == old(b.Value())
    {
      var i := 0;
      while i < data.Length
        invariant 0 <= i <= data.Length
        invariant forall k :: 0 <= k < data.Length ==> b.data[k] == old(b.data[k])
        invariant forall k :: 0 <= k < i ==> data[k] == b.data[k]
      {
        data[i] := b.data[i];
        i := i + 1;
      }
      assert data[..] == old(b.data[..]);
    }

    method Compare(b: Bignum) returns (c: int)
      requires Valid() && b.Valid() && b.field == field
      ensures c == Sign(Value() - b.Value())
    {
      c := Cmp(data, b.data, field.digits);
      assert data[..field.digits] == data[..] && b.data[..field.digits] == b.data[..];
    }

    /** this = this * b mod m, except that b = 1 returns at once. */
    method MulAssign(b: Bignum)
      requires Valid() && b.Valid() && b.field == field
      modifies data
      ensures Value() == ModMul(old(Value()), old(b.Value()), field.m)
    {
      hide Val, Weight;
      var one := new Bignum(field, 1);
      var c := b.Compare(one);
      if c == 0 {
        return;
      }
      var product := new Digit[2 * field.digits];
      SimpleMult(product, data, b.data, field.digits);
      assert old(data[..]) == data[..field.digits] && old(b.data[..]) == b.data[..field.digits];
      var _ := BarrettReduction(data, product);
    }

    /** this = this + b mod m. */
    method AddAssign(b: Bignum)
      requires Valid() && b.Valid() && b.field == field
      modifies data
      ensures Value() == TwiceCorrected(old(Value()) + old(b.Value()), field.m, Weight(field.digits))
      ensures Value() == (old(Value()) + old(b.Value())) % field.m
        <==> Suffices(old(Value()) + old(b.Value()), field.m, Weight(field.digits))
      ensures old(Value()) < field.m && old(b.Value()) < field.m ==>
        Value() == (old(Value()) + old(b.Value())) % field.m
    {
      hide Val, Weight, Suffices, Once;
      ghost var sum := Value() + b.Value();
      Bounded();
      b.Bounded();
      AddOnce(b);
      SubtractIfAbove();
      SufficesExactly(sum, field.m, Weight(field.digits));
    }

    lemma Bounded()
      requires Valid()
      ensures 0 < field.m < Weight(field.digits) && Value() < Weight(field.digits)
    {
      ValBound(field.mod[..]);
      ValBound(data[..]);
    }

    /** The addition, and m off once if it carries. */
    method AddOnce(b: Bignum)
      requires Valid() && b.Valid() && b.field == field
      modifies data
      ensures Value() == Once(old(Value()) + old(b.Value()), field.m, Weight(field.digits))
    {
      hide Val, Weight;
      var n := field.digits;
      assert data[..n] == data[..] && b.data[..n] == b.data[..] && field.mod[..n] == field.mod[..];
      ValBound(field.mod[..]);
      ValBound(data[..]);
      ValBound(b.data[..]);
      var carry := SimpleAdd(data, data, b.data, n);
      assert data[..n] == data[..];
      ValBound(data[..]);
      if carry {
        var borrow := SimpleSub(data, data, field.mod, n);
        assert data[..n] == data[..];
        ValBound(data[..]);
      }
    }

    /** m off if what is left is not below it. */
    method SubtractIfAbove()
      requires Valid()
      modifies data
      ensures Value() == if old(Value()) >= field.m then old(Value()) - field.m else old(Value())
    {
      hide Val, Weight;
      var n := field.digits;
      assert data[..n] == data[..] && field.mod[..n] == field.mod[..];
      ValBound(data[..]);
      var c := Cmp(data, field.mod, n);
      if c >= 0 {
        var borrow := SimpleSub(data, data, field.mod, n);
        assert data[..n] == data[..];
        ValBound(data[..]);
      }
    }

    /** this = this - b, with m added back after a borrow; what is still negative then wraps. */
    method SubAssign(b: Bignum)
      requires Valid() && b.Valid() && b.field == field
      modifies data
      ensures var d := old(Value()) - old(b.Value()) + (if old(Value()) < old(b.Value()) then field.m else 0);
        Value() == if d >= 0 then d else d + Weight(field.digits)
    {
      hide Val, Weight;
      var n := field.digits;
      assert data[..n] == data[..] && b.data[..n] == b.data[..] && field.mod[..n] == field.mod[..];
      ValBound(field.mod[..]);
      var borrow := SimpleSub(data, data, b.data, n);
      assert data[..n] == data[..];
      ValBound(data[..]);
      if borrow {
        var carry := SimpleAdd(data, data, field.mod, n);
        assert data[..n] == data[..];
        ValBound(data[..]);
      }
    }

    predicate IsEven()
      requires data.Length > 0
      reads data
    {
      data[0] % 2 == 0
    }

    lemma EvenValue()
      requires Valid()
      ensures IsEven() <==> Value() % 2 == 0
    {
      assert Val(data[..]) == data[0] + 0x1_0000_0000 * Val(data[1..]);
    }

    /** Shift right by one bit, with carry entering at the top; returns the bit shifted out. */
    method DivideByTwo(carry: bool := false) returns (out: bool)
      requires Valid()
      modifies data
      ensures 2 * Value() + Flag(out) == old(Value()) + At(carry, field.digits)
    {
      hide Val, Weight, IsBarrettPair, Halved, At;
      out := carry;
      ghost var x := data[..];
      ghost var high: seq<Digit>, tail: seq<Digit> := [], [];
      HalfEmpty(carry);
      var i := data.Length - 1;
      while i >= 0
        invariant -1 <= i < data.Length
        invariant |high| == |tail| == data.Length - (i + 1)
        invariant forall k :: 0 <= k <= i ==> data[k] == x[k]
        invariant forall k :: 0 <= k < |high| ==> data[i + 1 + k] == high[k] && x[i + 1 + k] == tail[k]
        invariant Halved(high, tail, carry, out)
      {
        ghost var c := out;
        var next := data[i] % 2 != 0;
        data[i] := data[i] / 2 + (if out then 0x8000_0000 else 0);
        out := next;
        HalfStep(data[i], high, x[i], tail, carry, c, out);
        high, tail := [data[i]] + high, [x[i]] + tail;
        i := i - 1;
      }
      assert high == data[..] && tail == x;
      HalfDone(high, tail, carry, out);
    }

    /** Half of the value modulo m: an odd value first gets the odd modulus added, carry included. */
    method HalveModulo()
      requires Valid() && field.m % 2 == 1 && Value() < field.m
      modifies data
      ensures Value() < field.m
      ensures 2 * Value() == old(Value()) + (if old(Value()) % 2 == 0 then 0 else field.m)
    {
      hide Val, Weight, IsBarrettPair;
      EvenValue();
      if IsEven() {
        var out := DivideByTwo();
      } else {
        var n := field.digits;
        assert data[..n] == data[..] && field.mod[..n] == field.mod[..];
        var carry := SimpleAdd(data, data, field.mod, n);
        assert data[..n] == data[..];
        var out := DivideByTwo(carry);
      }
    }

    /** Halve u until it is odd, halving this modulo m alongside. */
    method StripTwos(u: Bignum, ghost x: int, ghost other: int)
      requires Valid() && u.Valid() && u.field == field && u.data != data
      requires field.m % 2 == 1 && Value() < field.m
      requires u.Value() > 0 && (u.Value() % 2 == 1 || other % 2 == 1)
      requires Tracks(Value(), x, u.Value(), field.m)
      requires SameDivisors(u.Value(), other, x, field.m)
      modifies data, u.data
      ensures Value() < field.m
      ensures 0 < u.Value() <= old(u.Value()) && u.Value() % 2 == 1
      ensures Tracks(Value(), x, u.Value(), field.m)
      ensures SameDivisors(u.Value(), other, x, field.m)
    {
      hide Val, Weight, IsBarrettPair, Tracks, SameDivisors;
      u.EvenValue();
      while u.IsEven()
        invariant u.IsEven() <==> u.Value() % 2 == 0
        invariant Value() < field.m
        invariant 0 < u.Value() <= old(u.Value()) && (u.Value() % 2 == 1 || other % 2 == 1)
        invariant Tracks(Value(), x, u.Value(), field.m)
        invariant SameDivisors(u.Value(), other, x, field.m)
        decreases u.Value()
      {
        ghost var a0, u0 := Value(), u.Value();
        var out := u.DivideByTwo();
        SameDivisorsHalf(u.Value(), other, x, field.m);
        HalveModulo();
        if a0 % 2 == 1 {
          TracksShift(a0, x, u0, field.m);
        }
        TracksHalf(Value(), x, u.Value(), field.m);
        u.EvenValue();
      }
    }

    /** Take the smaller of the odd u and v off the larger, and their coefficients likewise. */
    method SubtractSmaller(a: Bignum, u: Bignum, v: Bignum, ghost x: nat)
      requires Valid() && a.Valid() && u.Valid() && v.Valid()
      requires a.field == u.field == v.field == field
      requires data != a.data && data != u.data && data != v.data
      requires a.data != u.data && a.data != v.data && u.data != v.data
      requires Inverting(a.Value(), Value(), u.Value(), v.Value(), x, field.m)
      requires u.Value() % 2 == v.Value() % 2 == 1
      modifies data, a.data, u.data, v.data
      ensures Inverting(a.Value(), Value(), u.Value(), v.Value(), x, field.m)
      ensures u.Value() + v.Value() < old(u.Value() + v.Value())
      ensures u.Value() % 2 == 1 || v.Value() % 2 == 1
    {
      hide Val, Weight, IsBarrettPair, Inverting;
      ghost var a0, c0, u0, v0 := a.Value(), Value(), u.Value(), v.Value();
      InvertingBounds(a0, c0, u0, v0, x, field.m);
      var order := u.Compare(v);
      if order >= 0 {
        InvertingSubU(a0, c0, u0, v0, x, field.m);
        u.SubAssign(v);
        a.SubAssign(this);
      } else {
        InvertingSubV(a0, c0, u0, v0, x, field.m);
        v.SubAssign(u);
        SubAssign(a);
      }
    }

    /** Binary extended Euclid: with x the old value, the new value times x is gcd(x, m) modulo m. */
    method Invert() returns (ghost g: nat)
      requires Valid() && field.m % 2 == 1
      modifies data
      ensures Value() < field.m
      ensures IsGcd(g, old(Value()), field.m)
      ensures Tracks(Value(), old(Value()), g, field.m)
    {
      hide Val, Weight, IsBarrettPair, Tracks, SameDivisors, IsGcd;
      ghost var x, m := Value(), field.m;
      OddModulus();
      var a := new Bignum(field, 1);
      var u := new Bignum(field, 0);
      var v := new Bignum(field, 0);
      var zero := new Bignum(field, 0);
      u.AssignFrom(this);
      v.AssignModulus();
      AssignSmall(0);
      InversionStart(x, m);
      var c := u.Compare(zero);
      while c != 0
        invariant zero.Value() == 0
        invariant c == Sign(u.Value())
        invariant u.Value() % 2 == 1 || v.Value() % 2 == 1
        invariant Inverting(a.Value(), Value(), u.Value(), v.Value(), x, m)
        decreases u.Value() + v.Value()
      {
        a.StripTwos(u, x, v.Value());
        SameDivisorsSwap(u.Value(), v.Value(), x, m);
        StripTwos(v, x, u.Value());
        SameDivisorsSwap(v.Value(), u.Value(), x, m);
        SubtractSmaller(a, u, v, x);
        c := u.Compare(zero);
      }
      g := v.Value();
      SameDivisorsGcd(g, x, m);
    }

    method AssignModulus()
      requires Valid()
      modifies data
      ensures Value() == field.m
    {
      var i := 0;
      while i < data.Length
        invariant 0 <= i <= data.Length
        invariant Valid()
        invariant forall k :: 0 <= k < i ==> data[k] == field.mod[k]
      {
        data[i] := field.mod[i];
        i := i + 1;
      }
      assert data[..] == field.mod[..];
    }

    lemma PositiveModulus()
      requires Valid()
      ensures field.m > 1
    {
    }

    lemma OddModulus()
      requires Valid() && field.m % 2 == 1
      ensures field.m >= 3
    {
    }
  }

  /** What the inversion loop keeps: a and c are the coefficients of u and v. */
  ghost predicate Inverting(a: nat, c: nat, u: nat, v: nat, x: nat, m: nat) {
    && a < m && c < m && v > 0
    && Tracks(a, x, u, m) && Tracks(c, x, v, m)
    && SameDivisors(u, v, x, m)
  }

  lemma InversionStart(x: nat, m: nat)
    requires m > 1
    ensures Inverting(1, 0, x, m, x, m)
  {
    DividesWitness(m, 1 * x - x, 0);
    DividesWitness(m, 0 * x - m, -1);
  }

  lemma InvertingBounds(a: nat, c: nat, u: nat, v: nat, x: nat, m: nat)
    requires Inverting(a, c, u, v, x, m)
    ensures a < m && c < m && v > 0
  {
  }

  lemma InvertingSubU(a: nat, c: nat, u: nat, v: nat, x: nat, m: nat)
    requires Inverting(a, c, u, v, x, m) && u >= v
    ensures Inverting(a - c + (if a < c then m else 0), c, u - v, v, x, m)
  {
    hide Tracks, SameDivisors;
    SameDivisorsSub(u, v, x, m);
    TracksSub(a, c, x, u, v, m);
    TracksShift(a - c, x, u - v, m);
  }

  lemma InvertingSubV(a: nat, c: nat, u: nat, v: nat, x: nat, m: nat)
    requires Inverting(a, c, u, v, x, m) && u < v
    ensures Inverting(a, c - a + (if c < a then m else 0), u, v - u, x, m)
  {
    hide Tracks, SameDivisors;
    SameDivisorsSwap(u, v, x, m);
    SameDivisorsSub(v, u, x, m);
    SameDivisorsSwap(v - u, u, x, m);
    TracksSub(c, a, x, v, u, m);
    TracksShift(c - a, x, v - u, m);
  }

  /** What *= computes: the b = 1 shortcut leaves a as it is. */
  function ModMul(a: nat, b: nat, m: nat): nat
    requires m > 0
  {
    if b == 1 then a else (a * b) % m
  }

  /** *= is multiplication modulo m except on one family of inputs: b = 1 with an unreduced a. */
  lemma ModMulExact(a: nat, b: nat, m: nat)
    requires m > 0
    ensures ModMul(a, b, m) == (a * b) % m <==> (b != 1 || a < m)
  {
    if b == 1 && a < m {
      SmallMod(a, m);
    }
  }

  /** A sum below 2w, cut to numbers below w: m taken off for the carry, modulo w. */
  function Once(sum: nat, m: nat, w: nat): int {
    if sum < w then sum else if sum < w + m then sum - m else sum - m - w
  }

  /** And taken off again if it still fits. */
  function TwiceCorrected(sum: nat, m: nat, w: nat): int {
    if Once(sum, m, w) >= m then Once(sum, m, w) - m else Once(sum, m, w)
  }

  /** Do the two corrections make the residue of the sum? */
  predicate Suffices(sum: nat, m: nat, w: nat)
    requires m > 0
  {
    if sum < w then sum < 2 * m
    else if sum < w + m then sum < 3 * m
    else w % m == 0 && sum < w + 3 * m
  }

  lemma SufficesExactly(sum: nat, m: nat, w: nat)
    requires 0 < m < w && sum < 2 * w
    ensures TwiceCorrected(sum, m, w) == sum % m <==> Suffices(sum, m, w)
    ensures sum < 2 * m ==> Suffices(sum, m, w)
  {
    var r := TwiceCorrected(sum, m, w);
    if sum < w {
      ResidueExactly(sum, m, r, if sum < m then 0 else 1);
    } else if sum < w + m {
      ResidueExactly(sum, m, r, if sum - m < m then 1 else 2);
    } else {
      var j := if sum - m - w < m then 1 else 2;
      ResidueExactly(sum - w, m, r, j);
      SameResidue(sum, w, m);
      SmallResidue(r, sum, m);
    }
  }

  lemma ResidueExactly(a: int, m: nat, r: int, j: int)
    requires m > 0 && r == a - j * m && r >= 0
    ensures r == a % m <==> r < m
  {
    if r < m {
      DivModUnique(a, m, j, r);
    }
  }

  /** Taking w off keeps the residue exactly when m divides w. */
  lemma SameResidue(a: int, w: int, m: nat)
    requires m > 0
    ensures (a - w) % m == a % m <==> w % m == 0
  {
    var i, j := a / m, w / m;
    assert a == m * i + a % m && w == m * j + w % m;
    var d := a % m - w % m;
    assert a - w == m * (i - j) + d;
    if d >= 0 {
      DivModUnique(a - w, m, i - j, d);
    } else {
      assert m * (i - j) == m * (i - j - 1) + m;
      DivModUnique(a - w, m, i - j - 1, d + m);
    }
  }

  lemma SmallResidue(r: int, a: int, m: nat)
    requires m > 0 && r >= 0
    ensures r == a % m ==> r < m
  {
  }

  /** high is tail shifted right by one bit: carry came in above it, out went out below. */
  ghost predicate Halved(high: seq<Digit>, tail: seq<Digit>, carry: bool, out: bool) {
    |high| == |tail| && 2 * Val(high) + Flag(out) == Val(tail) + At(carry, |tail|)
  }

  lemma HalfEmpty(carry: bool)
    ensures Halved([], [], carry, carry)
  {
  }

  lemma HalfDone(s: seq<Digit>, x: seq<Digit>, carry: bool, out: bool)
    requires Halved(s, x, carry, out)
    ensures 2 * Val(s) + Flag(out) == Val(x) + At(carry, |x|)
  {
  }

  lemma HalfStep(d: Digit, high: seq<Digit>, d0: Digit, tail: seq<Digit>, carry: bool, c: bool, out: bool)
    requires Halved(high, tail, carry, c)
    requires 2 * d + Flag(out) == d0 + 0x1_0000_0000 * Flag(c)
    ensures Halved([d] + high, [d0] + tail, carry, out)
  {
    assert ([d] + high)[1..] == high && ([d0] + tail)[1..] == tail;
  }

  lemma TopDigitReaches(low: nat, w: nat, top: nat, m: nat)
    requires m < w
    ensures (top > 0 || low >= m) <==> low + w * top >= m
  {
    if top > 0 {
      MulMonotonic(w, 1, top);
    } else {
      assert w * top == 0;
    }
  }

  lemma BorrowFromTop(low: nat, low': nat, w: nat, top: nat, m: nat)
    requires low + w * top >= m && low' == low - m + w && low' < w
    ensures top >= 1 && low' + w * (top - 1) == low + w * top - m
  {
    assert w * (top - 1) == w * top - w;
  }

  /** Subtracting two residues modulo w and wrapping gives the true difference when that fits. */
  lemma WrappedDifference(a: nat, b: nat, w: nat, low: nat, d: nat, c: nat)
    requires w > 0 && low == b % w && d < w && c <= 1 && 0 <= a - b < w
    requires d == a % w - low + c * w
    ensures d == a - b
  {
    var x, y := a / w, b / w;
    assert a == w * x + a % w && b == w * y + b % w;
    assert a - b == w * (x - y - c) + d by {
      assert w * (x - y - c) == w * x - w * y - c * w;
    }
    DivModUnique(a - b, w, x - y - c, d);
    DivModUnique(a - b, w, 0, a - b);
  }

  /** n moduli have been taken off d, leaving r. */
  ghost predicate Corrected(r: int, n: nat, m: nat, d: int) {
    r + n * m == d
  }

  lemma CorrectedNone(d: int, m: nat)
    ensures Corrected(d, 0, m, d)
  {
  }

  lemma CorrectedStep(r: int, n: nat, m: nat, d: int)
    requires Corrected(r, n, m, d)
    ensures Corrected(r - m, n + 1, m, d)
  {
  }

  lemma CorrectionsBound(r: nat, n: nat, m: nat, d: int)
    requires r < m && Corrected(r, n, m, d) && d < 3 * m
    ensures n <= 2
    ensures r == d % m
  {
    if n >= 3 {
      MulMonotonic(m, 3, n);
    }
    DivModUnique(d, m, n, r);
  }

  lemma FitsBelowTop(r: seq<Digit>, k: nat, mod: seq<Digit>)
    requires |r| == k + 1 && |mod| == k && Val(r) < Val(mod)
    ensures Val(r[..k]) == Val(r)
  {
    hide Val, Weight;
    Split(r, k);
    ValBound(mod);
    TopDigitReaches(Val(r[..k]), Weight(k), r[k], Val(mod));
    assert Weight(k) * r[k] == 0;
  }

  lemma Split(s: seq<Digit>, k: nat)
    requires |s| == k + 1
    ensures Val(s) == Val(s[..k]) + Weight(k) * s[k]
  {
    ValSnoc(s, k);
    assert s[..k + 1] == s;
  }

  lemma {:induction false} ValZeros(s: seq<Digit>)
    requires forall k :: 0 <= k < |s| ==> s[k] == 0
    ensures Val(s) == 0
  {
    if s != [] {
      ValZeros(s[1..]);
    }
  }

  lemma LowColumns(done: seq<Digit>, s: seq<Digit>, t: seq<Digit>, r0: nat, r1: nat)
    requires Columns(done, s, t, |done|, r0, r1)
    ensures Val(done) == (Val(s) * Val(t)) % Weight(|done|)
  {
    hide Val, Weight, ColumnSum, ColumnRest;
    ColumnProduct(s, t, |done|);
    ValBound(done);
    ModOfSum(Val(done), Weight(|done|), r0 + 0x1_0000_0000 * r1, ColumnRest(s, t, |done|), Val(s) * Val(t));
  }

  lemma ModOfSum(low: nat, w: nat, h: int, g: int, total: int)
    requires low < w && total == low + w * h + w * g
    ensures low == total % w
  {
    assert total == w * (h + g) + low;
    DivModUnique(total, w, h + g, low);
  }
}
