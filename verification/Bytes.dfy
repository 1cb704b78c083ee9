/** Little-endian bytes and how they lie inside 32-bit digits. */
module Bytes {
  import opened Digits

  type Byte = b: int | 0 <= b < 0x100

  /** 256 to the power n. */
  function ByteWeight(n: nat): (w: nat)
    ensures w >= 1
  {
    if n == 0 then 1 else 0x100 * ByteWeight(n - 1)
  }

  /** The number a byte sequence denotes, least significant byte first. */
  function BytesVal(s: seq<Byte>): nat {
    if s == [] then 0 else s[0] + 0x100 * BytesVal(s[1..])
  }

  function DigitOf(b0: Byte, b1: Byte, b2: Byte, b3: Byte): Digit {
    b0 + 0x100 * b1 + 0x1_0000 * b2 + 0x100_0000 * b3
  }

  /** Four bytes a digit, in order. */
  ghost predicate Packed(s: seq<Digit>, bytes: seq<Byte>) {
    && |bytes| == 4 * |s|
    && forall i :: 0 <= i < |s| ==> s[i] == DigitOf(bytes[4 * i], bytes[4 * i + 1], bytes[4 * i + 2], bytes[4 * i + 3])
  }

  /** Byte b at place k of a digit: b << 8k. */
  function Shifted(b: int, k: nat): int
    requires k < 4
  {
    if k == 0 then b else if k == 1 then 0x100 * b else if k == 2 then 0x1_0000 * b else 0x100_0000 * b
  }

  function DigitByte(d: Digit, k: nat): Byte
    requires k < 4
  {
    if k == 0 then d % 0x100
    else if k == 1 then d / 0x100 % 0x100
    else if k == 2 then d / 0x1_0000 % 0x100
    else d / 0x100_0000
  }

  /** Digit d with its byte k replaced by v. */
  function WithByte(d: Digit, k: nat, v: Byte): Digit
    requires k < 4
  {
    DigitParts(d);
    d + Shifted(v - DigitByte(d, k), k)
  }

  lemma DigitParts(d: Digit)
    ensures d == DigitOf(DigitByte(d, 0), DigitByte(d, 1), DigitByte(d, 2), DigitByte(d, 3))
  {
    assert d / 0x1_0000 == d / 0x100 / 0x100;
    assert d / 0x100_0000 == d / 0x1_0000 / 0x100;
  }

  lemma DigitBytes(b0: Byte, b1: Byte, b2: Byte, b3: Byte)
    ensures DigitByte(DigitOf(b0, b1, b2, b3), 0) == b0
    ensures DigitByte(DigitOf(b0, b1, b2, b3), 1) == b1
    ensures DigitByte(DigitOf(b0, b1, b2, b3), 2) == b2
    ensures DigitByte(DigitOf(b0, b1, b2, b3), 3) == b3
  {
    var d := DigitOf(b0, b1, b2, b3);
    DigitParts(d);
    DigitOfInjective(b0, b1, b2, b3, DigitByte(d, 0), DigitByte(d, 1), DigitByte(d, 2), DigitByte(d, 3));
  }

  lemma DigitOfInjective(a0: Byte, a1: Byte, a2: Byte, a3: Byte, b0: Byte, b1: Byte, b2: Byte, b3: Byte)
    requires DigitOf(a0, a1, a2, a3) == DigitOf(b0, b1, b2, b3)
    ensures a0 == b0 && a1 == b1 && a2 == b2 && a3 == b3
  {
    LowByte(a0, a1 + 0x100 * (a2 + 0x100 * a3), b0, b1 + 0x100 * (b2 + 0x100 * b3));
    LowByte(a1, a2 + 0x100 * a3, b1, b2 + 0x100 * b3);
    LowByte(a2, a3, b2, b3);
  }

  lemma LowByte(a: Byte, x: int, b: Byte, y: int)
    requires a + 0x100 * x == b + 0x100 * y
    ensures a == b && x == y
  {
  }

  /** The byte at index of an array of digits, read as C++ reads it through an unsigned char pointer. */
  method ReadByte(data: array<Digit>, index: nat, ghost bytes: seq<Byte>) returns (b: Byte)
    requires index < 4 * data.Length && Packed(data[..], bytes)
    ensures b == bytes[index]
  {
    var i, k := index / 4, index % 4;
    DigitBytes(bytes[4 * i], bytes[4 * i + 1], bytes[4 * i + 2], bytes[4 * i + 3]);
    b := DigitByte(data[i], k);
  }

  method WriteByte(data: array<Digit>, index: nat, v: Byte, ghost bytes: seq<Byte>)
    requires index < 4 * data.Length && Packed(data[..], bytes)
    modifies data
    ensures Packed(data[..], bytes[index := v])
  {
    var i, k := index / 4, index % 4;
    assert index == 4 * i + k;
    data[i] := WithByte(data[i], k, v);
    PackedUpdate(old(data[..]), data[..], bytes, i, k, v);
  }

  lemma PackedUpdate(s: seq<Digit>, s': seq<Digit>, bytes: seq<Byte>, i: nat, k: nat, v: Byte)
    requires Packed(s, bytes) && i < |s| && k < 4
    requires s' == s[i := WithByte(s[i], k, v)]
    ensures Packed(s', bytes[4 * i + k := v])
  {
    DigitBytes(bytes[4 * i], bytes[4 * i + 1], bytes[4 * i + 2], bytes[4 * i + 3]);
    var now := bytes[4 * i + k := v];
    forall h | 0 <= h < |s|
      ensures s'[h] == DigitOf(now[4 * h], now[4 * h + 1], now[4 * h + 2], now[4 * h + 3])
    {
      if h == i {
        WithByteOf(s[i], k, v, bytes[4 * i], bytes[4 * i + 1], bytes[4 * i + 2], bytes[4 * i + 3]);
      }
    }
  }

  lemma WithByteOf(d: Digit, k: nat, v: Byte, b0: Byte, b1: Byte, b2: Byte, b3: Byte)
    requires k < 4 && d == DigitOf(b0, b1, b2, b3)
    ensures WithByte(d, k, v) == DigitOf(if k == 0 then v else b0, if k == 1 then v else b1,
                                         if k == 2 then v else b2, if k == 3 then v else b3)
  {
    DigitBytes(b0, b1, b2, b3);
  }

  lemma {:induction false} PackedVal(s: seq<Digit>, bytes: seq<Byte>)
    requires Packed(s, bytes)
    ensures Val(s) == BytesVal(bytes)
  {
    if s != [] {
      var rest := bytes[4..];
      assert Packed(s[1..], rest) by {
        forall i | 0 <= i < |s| - 1
          ensures s[1..][i] == DigitOf(rest[4 * i], rest[4 * i + 1], rest[4 * i + 2], rest[4 * i + 3])
        {
          assert s[1..][i] == s[i + 1];
          assert 4 * (i + 1) == 4 * i + 4;
        }
      }
      PackedVal(s[1..], rest);
      assert s[0] == DigitOf(bytes[4 * 0], bytes[4 * 0 + 1], bytes[4 * 0 + 2], bytes[4 * 0 + 3]);
      BytesFour(bytes);
    }
  }

  lemma BytesFour(bytes: seq<Byte>)
    requires |bytes| >= 4
    ensures BytesVal(bytes) == DigitOf(bytes[0], bytes[1], bytes[2], bytes[3]) + 0x1_0000_0000 * BytesVal(bytes[4..])
  {
    assert bytes[1..][1..] == bytes[2..];
    assert bytes[2..][1..] == bytes[3..];
    assert bytes[3..][1..] == bytes[4..];
    assert BytesVal(bytes[1..]) == bytes[1] + 0x100 * BytesVal(bytes[2..]);
    assert BytesVal(bytes[2..]) == bytes[2] + 0x100 * BytesVal(bytes[3..]);
    assert BytesVal(bytes[3..]) == bytes[3] + 0x100 * BytesVal(bytes[4..]);
  }

  function Zeros(n: nat): (s: seq<Byte>)
    ensures |s| == n && forall i :: 0 <= i < n ==> s[i] == 0
  {
    seq(n, i => 0)
  }

  lemma {:induction false} BytesPadded(s: seq<Byte>, n: nat)
    ensures BytesVal(s + Zeros(n)) == BytesVal(s)
  {
    if s == [] {
      assert s + Zeros(n) == Zeros(n);
      if n > 0 {
        assert Zeros(n)[1..] == [] + Zeros(n - 1);
        BytesPadded([], n - 1);
      }
    } else {
      assert (s + Zeros(n))[1..] == s[1..] + Zeros(n);
      BytesPadded(s[1..], n);
    }
  }

  lemma {:induction false} BytesBound(s: seq<Byte>)
    ensures BytesVal(s) < ByteWeight(|s|)
  {
    if s != [] {
      BytesBound(s[1..]);
    }
  }

  lemma {:induction false} BytesInjective(s: seq<Byte>, t: seq<Byte>)
    requires |s| == |t| && BytesVal(s) == BytesVal(t)
    ensures s == t
  {
    if s != [] {
      assert s[0] == t[0] && BytesVal(s[1..]) == BytesVal(t[1..]);
      BytesInjective(s[1..], t[1..]);
      assert s == [s[0]] + s[1..] && t == [t[0]] + t[1..];
    }
  }

  /** Bitwise and. */
  function And(a: nat, mask: nat): (r: nat)
    ensures r <= a
    decreases mask
  {
    if mask == 0 then 0 else (if a % 2 == 1 && mask % 2 == 1 then 1 else 0) + 2 * And(a / 2, mask / 2)
  }

  lemma AndNone(a: nat)
    ensures And(a, 0) == 0
  {
  }

  lemma AndOdd(a: nat, m: nat)
    ensures And(a, 2 * m + 1) == a % 2 + 2 * And(a / 2, m)
  {
    assert (2 * m + 1) % 2 == 1 && (2 * m + 1) / 2 == m;
  }

  lemma AndEven(a: nat, m: nat)
    ensures And(a, 2 * m) == 2 * And(a / 2, m)
  {
    assert (2 * m) % 2 == 0 && (2 * m) / 2 == m;
    if m == 0 {
      AndNone(a / 2);
    }
  }

  /** 2 to the power n, less one. */
  function Ones(n: nat): nat {
    if n == 0 then 0 else 2 * Ones(n - 1) + 1
  }

  lemma {:induction false} AndAll(a: nat, n: nat)
    requires a <= Ones(n)
    ensures And(a, Ones(n)) == a
  {
    hide And;
    if n == 0 {
      AndNone(a);
    } else {
      AndOdd(a, Ones(n - 1));
      AndAll(a / 2, n - 1);
    }
  }

  /** Bitwise and works on the low n bits and on the rest apart. */
  lemma {:induction false} AndSplit(a: nat, x: nat, m: nat, y: nat, n: nat)
    requires a <= Ones(n) && m <= Ones(n)
    ensures And(a + (Ones(n) + 1) * x, m + (Ones(n) + 1) * y) == And(a, m) + (Ones(n) + 1) * And(x, y)
  {
    hide And;
    if n == 0 {
      AndNone(0);
    } else {
      var w := Ones(n - 1) + 1;
      AndSplit(a / 2, x, m / 2, y, n - 1);
      AndBit(a % 2, a / 2, m % 2, m / 2);
      AndBit(a % 2, a / 2 + w * x, m % 2, m / 2 + w * y);
      Doubled(a, w, x);
      Doubled(m, w, y);
      Doubled(And(a, m), w, And(x, y));
    }
  }

  lemma Doubled(a: int, w: int, x: int)
    ensures a + (2 * w) * x == a % 2 + 2 * (a / 2 + w * x)
  {
    MulAssoc(2, w, x);
  }

  lemma AndBit(a: nat, x: nat, m: nat, y: nat)
    requires a < 2 && m < 2
    ensures And(a + 2 * x, m + 2 * y) == a * m + 2 * And(x, y)
  {
    hide And;
    assert (a + 2 * x) % 2 == a && (a + 2 * x) / 2 == x;
    if m == 1 {
      AndOdd(a + 2 * x, y);
    } else {
      AndEven(a + 2 * x, y);
    }
  }

  function Masked(s: seq<Byte>, mask: seq<Byte>): (t: seq<Byte>)
    requires |s| == |mask|
    ensures |t| == |s|
  {
    seq(|s|, i requires 0 <= i < |s| => And(s[i], mask[i]))
  }

  /** Masking byte by byte is masking the number. */
  lemma {:induction false} MaskedVal(s: seq<Byte>, mask: seq<Byte>)
    requires |s| == |mask|
    ensures BytesVal(Masked(s, mask)) == And(BytesVal(s), BytesVal(mask))
  {
    hide And;
    if s == [] {
      AndNone(0);
    } else {
      assert Masked(s, mask)[1..] == Masked(s[1..], mask[1..]);
      MaskedVal(s[1..], mask[1..]);
      assert Ones(8) == 255;
      AndSplit(s[0], BytesVal(s[1..]), mask[0], BytesVal(mask[1..]), 8);
    }
  }

  lemma Mask255(b: Byte)
    ensures And(b, 255) == b
  {
    assert Ones(8) == 255;
    AndAll(b, 8);
  }

  lemma Mask15(b: Byte)
    ensures And(b, 15) == b % 16
  {
    hide And;
    AndOdd(b, 7);
    AndOdd(b / 2, 3);
    AndOdd(b / 2 / 2, 1);
    AndOdd(b / 2 / 2 / 2, 0);
    AndNone(b / 2 / 2 / 2 / 2);
    Quarter(b);
    Quarter(b / 2 / 2);
    DivModUnique(b, 16, b / 2 / 2 / 2 / 2, And(b, 15));
  }

  lemma Mask252(b: Byte)
    ensures And(b, 252) == b - b % 4
  {
    hide And;
    AndEven(b, 126);
    AndEven(b / 2, 63);
    Quarter(b);
    assert Ones(6) == 63;
    AndAll(b / 2 / 2, 6);
  }

  lemma Quarter(b: nat)
    ensures b / 2 / 2 == b / 4 && b == 4 * (b / 2 / 2) + 2 * (b / 2 % 2) + b % 2
  {
  }

  function ByteAt(bytes: seq<Byte>, n: nat): Byte {
    if n < |bytes| then bytes[n] else 0
  }

  lemma {:induction false} BytesSnoc(s: seq<Byte>, b: Byte)
    ensures BytesVal(s + [b]) == BytesVal(s) + ByteWeight(|s|) * b
  {
    if s == [] {
      assert s + [b] == [b] && [b][1..] == [];
    } else {
      assert (s + [b])[1..] == s[1..] + [b];
      BytesSnoc(s[1..], b);
      MulAssoc(0x100, ByteWeight(|s| - 1), b);
    }
  }

  /** The byte that follows k < 4 others lands at place k of their digit. */
  lemma ShiftIn(s: seq<Byte>, b: Byte)
    requires |s| < 4
    ensures BytesVal(s + [b]) == BytesVal(s) + Shifted(b, |s|) <= 0xFFFF_FFFF
  {
    BytesSnoc(s, b);
    BytesBound(s + [b]);
    assert ByteWeight(1) == 0x100;
    assert ByteWeight(2) == 0x1_0000;
    assert ByteWeight(3) == 0x100_0000;
    assert ByteWeight(4) == 0x1_0000_0000;
  }

  lemma DigitOfSlice(bytes: seq<Byte>, j: nat, s: seq<Byte>)
    requires |s| <= 4 && s == Slice(bytes, j, |s|) && (|s| == 4 || j + |s| >= |bytes|)
    ensures BytesVal(s) == DigitOf(ByteAt(bytes, j), ByteAt(bytes, j + 1), ByteAt(bytes, j + 2), ByteAt(bytes, j + 3))
  {
    hide BytesVal, DigitOf;
    var four := s + Zeros(4 - |s|);
    BytesPadded(s, 4 - |s|);
    BytesFour(four);
    BytesNone();
    assert four[4..] == [];
    assert four[0] == ByteAt(bytes, j);
    assert four[1] == ByteAt(bytes, j + 1);
    assert four[2] == ByteAt(bytes, j + 2);
    assert four[3] == ByteAt(bytes, j + 3);
  }

  /** n bytes from j on, as many of them as there are. */
  function Slice(bytes: seq<Byte>, j: nat, n: nat): seq<Byte> {
    if j + n <= |bytes| then bytes[j..j + n] else if j <= |bytes| then bytes[j..] else []
  }

  /** Up to four bytes from j on, shifted into one digit. */
  method LoadDigit(bytes: seq<Byte>, j: nat) returns (d: Digit)
    ensures d == DigitOf(ByteAt(bytes, j), ByteAt(bytes, j + 1), ByteAt(bytes, j + 2), ByteAt(bytes, j + 3))
  {
    hide BytesVal, DigitOf, Shifted, ByteAt;
    var sum := 0;
    var k := 0;
    BytesNone();
    while k < 4 && j + k < |bytes|
      invariant 0 <= k <= 4 && |Slice(bytes, j, k)| == k
      invariant sum == BytesVal(Slice(bytes, j, k)) && 0 <= sum <= 0xFFFF_FFFF
    {
      ShiftIn(Slice(bytes, j, k), bytes[j + k]);
      assert Slice(bytes, j, k + 1) == Slice(bytes, j, k) + [bytes[j + k]];
      sum := sum + Shifted(bytes[j + k], k);
      k := k + 1;
    }
    DigitOfSlice(bytes, j, Slice(bytes, j, k));
    d := sum;
  }

  lemma BytesNone()
    ensures BytesVal([]) == 0
  {
  }

  /** The bytes cut or padded with zeros to length n. */
  function Fit(bytes: seq<Byte>, n: nat): (s: seq<Byte>)
    ensures |s| == n
  {
    if |bytes| >= n then bytes[..n] else bytes + Zeros(n - |bytes|)
  }

  /** Fill digits from bytes, four to a digit; zeros where the bytes run out, nothing of what does not fit. */
  method Load(data: array<Digit>, bytes: seq<Byte>)
    modifies data
    ensures Packed(data[..], Fit(bytes, 4 * data.Length))
  {
    hide DigitOf;
    var i := 0;
    while i < data.Length
      invariant 0 <= i <= data.Length
      invariant forall h :: 0 <= h < i ==>
        data[h] == DigitOf(ByteAt(bytes, 4 * h), ByteAt(bytes, 4 * h + 1),
                           ByteAt(bytes, 4 * h + 2), ByteAt(bytes, 4 * h + 3))
    {
      data[i] := LoadDigit(bytes, 4 * i);
      i := i + 1;
    }
  }
}
