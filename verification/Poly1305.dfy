/** include/utility/poly1305.h: the Poly1305 authenticator over the big-number field 2^130 - 5. */
module Poly1305s {
  import opened Digits
  import opened Bytes
  import opened Bignums
  import opened FieldTables
  import opened Words

  // ---------------------------------------------------------------------
  // Section 2.5 of RFC 8439: the polynomial and the tag
  // ---------------------------------------------------------------------

  function Power(r: nat, n: nat): nat {
    if n == 0 then 1 else r * Power(r, n - 1)
  }

  function MinLen(a: nat, b: nat): nat {
    if a <= b then a else b
  }

  /** The 16-byte blocks as numbers, each with one bit set beyond its last byte. */
  function Blocks(message: seq<Byte>): (cs: seq<nat>) {
    if message == [] then []
    else
      var len := MinLen(16, |message|);
      [BytesVal(message[..len] + [1])] + Blocks(message[len..])
  }

  /** c_1 * r^q + c_2 * r^(q-1) + ... + c_q * r. */
  function Polynomial(cs: seq<nat>, r: nat): nat {
    if cs == [] then 0 else cs[0] * Power(r, |cs|) + Polynomial(cs[1..], r)
  }

  function Tag(message: seq<Byte>, r: nat, s: nat): nat {
    (Polynomial(Blocks(message), r) % P1305 + s) % Weight(4)
  }

  /** Bytes 3, 7, 11, 15 lose their top four bits; bytes 4, 8, 12 their bottom two. */
  function Clamped(r: seq<Byte>): seq<Byte>
    requires |r| >= 16
  {
    r[3 := r[3] % 16][7 := r[7] % 16][11 := r[11] % 16][15 := r[15] % 16]
     [4 := r[4] - r[4] % 4][8 := r[8] - r[8] % 4][12 := r[12] - r[12] % 4]
  }

  /** The message of the given length at the start of a buffer. */
  function Covered(buffer: seq<Byte>, messageLen: int): seq<Byte>
    requires messageLen <= |buffer|
  {
    if messageLen > 0 then buffer[..messageLen] else []
  }

  lemma {:induction false} HornerStep(cs: seq<nat>, c: nat, r: nat)
    ensures Polynomial(cs + [c], r) == (Polynomial(cs, r) + c) * r
  {
    if cs == [] {
      assert cs + [c] == [c] && [c][1..] == [];
      assert Power(r, 1) == r;
    } else {
      assert (cs + [c])[1..] == cs[1..] + [c];
      HornerStep(cs[1..], c, r);
      HornerArith(cs[0], r, Power(r, |cs|), Polynomial(cs[1..], r), c);
    }
  }

  lemma HornerArith(c0: int, r: int, p: int, rest: int, c: int)
    ensures c0 * (r * p) + (rest + c) * r == (c0 * p + rest + c) * r
  {
    assert c0 * (r * p) == (c0 * p) * r;
  }

  lemma ModStep(a: nat, c: nat, r: nat, m: nat)
    requires m > 0
    ensures ((a % m + c) % m * r) % m == ((a + c) * r) % m
  {
    var x := a % m + c;
    var i, j := a / m, x / m;
    assert a == m * i + a % m && x == m * j + x % m;
    assert (a + c) * r == (m * (i + j) + x % m) * r;
    assert (m * (i + j) + x % m) * r == (x % m) * r + (r * (i + j)) * m;
    ModSubtract((a + c) * r, r * (i + j), m);
  }

  /** One += and *= of the loop, the b = 1 shortcut included, is one Horner step modulo m. */
  lemma HornerReduced(cs: seq<nat>, c: nat, r: nat, m: nat)
    requires m > 0
    ensures ModMul((Polynomial(cs, r) % m + c) % m, r, m) == Polynomial(cs + [c], r) % m
  {
    HornerStep(cs, c, r);
    ModStep(Polynomial(cs, r), c, r, m);
    ModMulExact((Polynomial(cs, r) % m + c) % m, r, m);
  }

  /** Block i starts at byte 16 i, has 16 bytes or what is left of the message, and one bit behind them. */
  lemma {:induction false} BlocksAre(message: seq<Byte>, i: nat)
    requires 16 * i < |message|
    ensures |Blocks(message)| == (|message| + 15) / 16 && i < |Blocks(message)|
    ensures var len := MinLen(16, |message| - 16 * i);
      Blocks(message)[i] == BytesVal(message[16 * i..16 * i + len]) + ByteWeight(len)
    decreases i
  {
    hide BytesVal, ByteWeight;
    var len := MinLen(16, |message|);
    BlockCount(message);
    BytesSnoc(message[..len], 1);
    if i > 0 {
      var rest, n := message[len..], MinLen(16, |message| - 16 * i);
      BlocksAre(rest, i - 1);
      assert rest[16 * (i - 1)..16 * (i - 1) + n] == message[16 * i..16 * i + n];
    }
  }

  lemma {:induction false} BlockCount(message: seq<Byte>)
    ensures |Blocks(message)| == (|message| + 15) / 16
    decreases |message|
  {
    if message != [] {
      BlockCount(message[MinLen(16, |message|)..]);
    }
  }

  lemma BlocksNone()
    ensures Blocks([]) == []
  {
  }

  /** A block value stays under the modulus. */
  lemma BlockBound(block: seq<Byte>)
    requires |block| <= 16
    ensures BytesVal(block + [1]) < P1305
  {
    hide BytesVal, ByteWeight;
    BytesSnoc(block, 1);
    BytesBound(block);
    ByteWeightBound(|block|);
  }

  lemma ByteWeightBound(n: nat)
    requires n <= 16
    ensures ByteWeight(n) <= 0x1_0000_0000_0000_0000_0000_0000_0000_0000
  {
    assert ByteWeight(4) == 0x1_0000_0000;
    assert ByteWeight(8) == 0x1_0000_0000_0000_0000;
    assert ByteWeight(12) == 0x1_0000_0000_0000_0000_0000_0000;
    assert ByteWeight(16) == 0x1_0000_0000_0000_0000_0000_0000_0000_0000;
    ByteWeightMonotonic(n, 16);
  }

  lemma {:induction false} ByteWeightMonotonic(m: nat, n: nat)
    requires m <= n
    ensures ByteWeight(m) <= ByteWeight(n)
  {
    if m < n {
      ByteWeightMonotonic(m, n - 1);
    }
  }

  /** Adding two four-digit numbers and dropping the carry is addition modulo 2^128. */
  lemma TagSum(out: seq<Digit>, carry: bool, s: seq<Digit>, cr: seq<Digit>)
    requires |out| == |s| == 4 && |cr| == 5
    requires Val(out) + At(carry, 4) == Val(s) + Val(cr[..4])
    ensures Val(out) == (Val(cr) + Val(s)) % Weight(4)
  {
    hide Val;
    ValSplit(cr, 4);
    ValBound(out);
    var w: int, h: int := Weight(4), Val(cr[4..]);
    assert w * (h + Flag(carry)) == w * h + At(carry, 4);
    DivModUnique(Val(cr) + Val(s), w, h + Flag(carry), Val(out));
  }

  lemma ClampedBound(r: seq<Byte>)
    requires |r| == 16
    ensures BytesVal(Clamped(r)) < P1305
  {
    var c := Clamped(r);
    assert c == c[..15] + [c[15]];
    BytesSnoc(c[..15], c[15]);
    BytesBound(c[..15]);
    assert ByteWeight(4) == 0x1_0000_0000;
    assert ByteWeight(8) == 0x1_0000_0000_0000_0000;
    assert ByteWeight(12) == 0x1_0000_0000_0000_0000_0000_0000;
    assert ByteWeight(15) == 0x1_0000_0000_0000_0000_0000_0000_0000_00;
    assert c[15] < 16;
  }

  /** The mask of section 2.5 of RFC 8439. */
  const MASK: nat := 0x0ffffffc_0ffffffc_0ffffffc_0fffffff

  function MaskBytes(): (mask: seq<Byte>)
    ensures |mask| == 16
  {
    [0xff, 0xff, 0xff, 0x0f] + ([0xfc, 0xff, 0xff, 0x0f] + ([0xfc, 0xff, 0xff, 0x0f] + ([0xfc, 0xff, 0xff, 0x0f] + [])))
  }

  lemma MaskIs()
    ensures BytesVal(MaskBytes()) == MASK
  {
    hide BytesVal;
    BytesNone();
    FourBytes(0xfc, 0xff, 0xff, 0x0f, []);
    var top := [0xfc, 0xff, 0xff, 0x0f] + [];
    FourBytes(0xfc, 0xff, 0xff, 0x0f, top);
    FourBytes(0xfc, 0xff, 0xff, 0x0f, [0xfc, 0xff, 0xff, 0x0f] + top);
    FourBytes(0xff, 0xff, 0xff, 0x0f, [0xfc, 0xff, 0xff, 0x0f] + ([0xfc, 0xff, 0xff, 0x0f] + top));
  }

  lemma FourBytes(b0: Byte, b1: Byte, b2: Byte, b3: Byte, rest: seq<Byte>)
    ensures BytesVal([b0, b1, b2, b3] + rest)
         == b0 + 0x100 * b1 + 0x1_0000 * b2 + 0x100_0000 * b3 + 0x1_0000_0000 * BytesVal(rest)
  {
    var s := [b0, b1, b2, b3] + rest;
    BytesFour(s);
    assert s[4..] == rest;
  }

  /** Clamping clears exactly the bits that are clear in the mask. */
  lemma ClampedMask(r: seq<Byte>)
    requires |r| == 16
    ensures BytesVal(Clamped(r)) == And(BytesVal(r), MASK)
  {
    hide And, BytesVal;
    MaskedVal(r, MaskBytes());
    MaskIs();
    forall i | 0 <= i < 16
      ensures Masked(r, MaskBytes())[i] == Clamped(r)[i]
    {
      Mask255(r[i]);
      Bytes.Mask15(r[i]);
      Bytes.Mask252(r[i]);
    }
    assert Masked(r, MaskBytes()) == Clamped(r);
  }

  lemma FitVal(s: seq<Byte>, n: nat)
    requires |s| <= n
    ensures BytesVal(Fit(s, n)) == BytesVal(s)
  {
    if |s| < n {
      BytesPadded(s, n - |s|);
    } else {
      assert s[..n] == s;
    }
  }

  /** The block with its extra bit, as it lies in five digits. */
  lemma MarkedBlock(block: seq<Byte>)
    requires |block| <= 16
    ensures BytesVal(Fit(block, 20)[|block| := 1]) == BytesVal(block + [1])
  {
    FitVal(block + [1], 20);
    assert Fit(block, 20)[|block| := 1] == Fit(block + [1], 20);
  }

  class Poly1305 {
    const field: Field
    const k: Bignum
    const r: Bignum

    ghost predicate Valid()
      reads field.mod, field.barrettU, r.data
    {
      && field.Valid() && field.m == P1305 && field.digits == 5
      && k.field == field && k.Valid() && r.field == field && r.Valid() && r.data != k.data
      && r.Value() < P1305
    }

    constructor (field: Field, k: seq<Byte>, r: seq<Byte>)
      requires field.Valid() && field.m == P1305 && field.digits == 5
      requires |k| == |r| == 16
      ensures Valid() && this.field == field && fresh(this.r.data)
      ensures this.r.Value() == And(BytesVal(r), MASK) == BytesVal(Clamped(r))
    {
      this.field := field;
      this.k := new Bignum.FromBytes(field, k);
      this.r := new Bignum.FromBytes(field, r);
      new;
      Clamp(Fit(r, 20));
      assert Clamped(Fit(r, 20)) == Fit(Clamped(r), 20);
      PackedVal(this.r.data[..], Clamped(Fit(r, 20)));
      FitVal(Clamped(r), 20);
      ClampedBound(r);
      ClampedMask(r);
    }

    method Mask15(index: nat, ghost bytes: seq<Byte>)
      requires r.data.Length == 5 && index < 20 && Packed(r.data[..], bytes)
      modifies r.data
      ensures Packed(r.data[..], bytes[index := bytes[index] % 16])
    {
      var b := ReadByte(r.data, index, bytes);
      Bytes.Mask15(b);
      WriteByte(r.data, index, And(b, 15), bytes);
    }

    method Mask252(index: nat, ghost bytes: seq<Byte>)
      requires r.data.Length == 5 && index < 20 && Packed(r.data[..], bytes)
      modifies r.data
      ensures Packed(r.data[..], bytes[index := bytes[index] - bytes[index] % 4])
    {
      var b := ReadByte(r.data, index, bytes);
      Bytes.Mask252(b);
      WriteByte(r.data, index, And(b, 252), bytes);
    }

    method Clamp(ghost bytes: seq<Byte>)
      requires r.data.Length == 5 && Packed(r.data[..], bytes)
      modifies r.data
      ensures Packed(r.data[..], Clamped(bytes))
    {
      hide Packed;
      assert |bytes| == 20 by { PackedLength(r.data[..], bytes); }
      ghost var b := bytes;
      Mask15(3, b);
      b := b[3 := b[3] % 16];
      Mask15(7, b);
      b := b[7 := b[7] % 16];
      Mask15(11, b);
      b := b[11 := b[11] % 16];
      Mask15(15, b);
      b := b[15 := b[15] % 16];
      Mask252(4, b);
      b := b[4 := b[4] - b[4] % 4];
      Mask252(8, b);
      b := b[8 := b[8] - b[8] % 4];
      Mask252(12, b);
      b := b[12 := b[12] - b[12] % 4];
      assert b == Clamped(bytes);
    }

    /** The block loop: cr is the polynomial of the first messageLen bytes, fully reduced; none for a length of zero or
        less. */
    method Accumulate(buffer: seq<Byte>, messageLen: int) returns (cr: Bignum)
      requires Valid() && messageLen <= |buffer|
      ensures cr.Valid() && cr.field == field && fresh(cr.data)
      ensures cr.Value() == Polynomial(Blocks(Covered(buffer, messageLen)), r.Value()) % P1305
    {
      hide Val, Weight, IsBarrettPair, Packed, Polynomial, BytesVal, Fit, Blocks, ModMul, TwiceCorrected, Suffices;
      cr := new Bignum(field, 0);
      ghost var done: seq<nat>, rv := [], r.Value();
      PolynomialNone(rv);
      ghost var message := Covered(buffer, messageLen);
      var left, pos := messageLen, 0;
      assert message[0..] == message;
      while left > 0
        invariant 0 <= pos <= |message| && (left > 0 ==> pos + left == |message|) && (left <= 0 ==> pos == |message|)
        invariant Valid() && r.Value() == rv
        invariant cr.Valid() && cr.field == field && fresh(cr.data)
        invariant done + Blocks(message[pos..]) == Blocks(message)
        invariant cr.Value() == Polynomial(done, rv) % P1305
      {
        var len := MinLen(16, left);
        var block := buffer[pos..pos + len];
        assert block == message[pos..pos + len];
        var c := MarkedBignum(block);
        BlocksHead(message, pos, len);
        HornerReduced(done, BytesVal(block + [1]), rv, P1305);
        cr.AddAssign(c);
        cr.MulAssign(r);
        done := done + [BytesVal(block + [1])];
        left := left - 16;
        pos := pos + len;
      }
      assert message[pos..] == [];
      BlocksNone();
      assert done == Blocks(message);
    }

    method MarkedBignum(block: seq<Byte>) returns (c: Bignum)
      requires field.Valid() && field.m == P1305 && field.digits == 5 && |block| <= 16
      ensures c.Valid() && c.field == field && fresh(c.data)
      ensures c.Value() == BytesVal(block + [1]) < P1305
    {
      hide Packed;
      c := new Bignum.FromBytes(field, block);
      WriteByte(c.data, |block|, 1, Fit(block, 20));
      PackedVal(c.data[..], Fit(block, 20)[|block| := 1]);
      MarkedBlock(block);
      BlockBound(block);
    }

    /** out = (polynomial + s) mod 2^128, with s the cipher's image of the nonce. */
    method Stamp(out: array<Digit>, s: array<Digit>, buffer: seq<Byte>, messageLen: int)
      requires Valid() && out.Length == s.Length == 4
      requires -HALF <= messageLen < HALF && messageLen <= |buffer|
      requires out != field.mod && out != field.barrettU && out != r.data
      modifies out
      ensures Val(out[..]) == Tag(Covered(buffer, messageLen), r.Value(), old(Val(s[..])))
      ensures var sum := Polynomial(Blocks(Covered(buffer, messageLen)), r.Value());
        Val(out[..]) == (sum % P1305 + old(Val(s[..]))) % Weight(4)
      ensures Valid()
    {
      hide Val, Weight, IsBarrettPair, Polynomial, Blocks;
      var cr := Accumulate(buffer, messageLen);
      ghost var sv, crv := s[..], cr.data[..];
      assert s[..4] == sv && cr.data[..4] == crv[..4];
      var carry := SimpleAdd(out, s, cr.data, 4);
      assert out[..4] == out[..];
      TagSum(out[..], carry, sv, crv);
    }

    /** Byte-by-byte comparison with a fresh stamp. The length is unsigned here and an int in Stamp: from 2^31 bytes on
        it is the tag of the empty message that is compared. */
    method Verify(mac: seq<Byte>, s: array<Digit>, message: seq<Byte>) returns (ok: bool)
      requires Valid() && |mac| == 16 && s.Length == 4 && |message| < 0x1_0000_0000
      ensures |message| < HALF ==> (ok <==> BytesVal(mac) == Tag(message, r.Value(), Val(s[..])))
      ensures |message| >= HALF ==> (ok <==> BytesVal(mac) == Tag([], r.Value(), Val(s[..])))
    {
      hide Tag, Val, BytesVal, Packed, IsBarrettPair, Unpacked;
      var mine := new Digit[4];
      Stamp(mine, s, message, ToInt(|message|));
      assert Covered(message, ToInt(|message|)) == if |message| < HALF then message else [];
      UnpackedPacked(mine[..]);
      PackedVal(mine[..], Unpacked(mine[..]));
      ok := SameBytes(mine, mac, Unpacked(mine[..]));
      if BytesVal(mac) == BytesVal(Unpacked(mine[..])) {
        BytesInjective(mac, Unpacked(mine[..]));
      }
    }
  }

  method SameBytes(mine: array<Digit>, mac: seq<Byte>, ghost bytes: seq<Byte>) returns (same: bool)
    requires mine.Length == 4 && |mac| == 16 && |bytes| == 16 && Packed(mine[..], bytes)
    ensures same <==> mac == bytes
  {
    hide Packed;
    var i := 0;
    while i < 16
      invariant 0 <= i <= 16
      invariant forall h :: 0 <= h < i ==> mac[h] == bytes[h]
    {
      var b := ReadByte(mine, i, bytes);
      if b != mac[i] {
        return false;
      }
      i := i + 1;
    }
    return true;
  }

  lemma PackedLength(s: seq<Digit>, bytes: seq<Byte>)
    requires Packed(s, bytes)
    ensures |bytes| == 4 * |s|
  {
  }

  lemma PolynomialNone(r: nat)
    ensures Polynomial([], r) == 0
  {
  }

  lemma BlocksHead(message: seq<Byte>, pos: nat, len: nat)
    requires pos < |message| && len == MinLen(16, |message| - pos)
    ensures Blocks(message[pos..]) == [BytesVal(message[pos..pos + len] + [1])] + Blocks(message[pos + len..])
  {
    var rest := message[pos..];
    assert rest[..len] == message[pos..pos + len] && rest[len..] == message[pos + len..];
  }

  function Unpacked(s: seq<Digit>): (bytes: seq<Byte>)
    ensures |bytes| == 4 * |s|
  {
    seq(4 * |s|, i requires 0 <= i < 4 * |s| => DigitByte(s[i / 4], i % 4))
  }

  lemma UnpackedPacked(s: seq<Digit>)
    ensures Packed(s, Unpacked(s))
  {
    var bytes := Unpacked(s);
    forall i | 0 <= i < |s|
      ensures s[i] == DigitOf(bytes[4 * i], bytes[4 * i + 1], bytes[4 * i + 2], bytes[4 * i + 3])
    {
      DigitParts(s[i]);
      assert (4 * i) / 4 == i && (4 * i + 1) / 4 == i && (4 * i + 2) / 4 == i && (4 * i + 3) / 4 == i;
    }
  }
}
