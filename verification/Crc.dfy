/** include/utility/crc.h: CRC-16 with the generator x^16 + x^12 + x^5 + 1. */
module Crcs {
  import opened Polynomials

  function Mask(i: nat): bv16
    requires i < 16
  {
    if i == 0 then 0x1
    else if i == 1 then 0x2
    else if i == 2 then 0x4
    else if i == 3 then 0x8
    else if i == 4 then 0x10
    else if i == 5 then 0x20
    else if i == 6 then 0x40
    else if i == 7 then 0x80
    else if i == 8 then 0x100
    else if i == 9 then 0x200
    else if i == 10 then 0x400
    else if i == 11 then 0x800
    else if i == 12 then 0x1000
    else if i == 13 then 0x2000
    else if i == 14 then 0x4000
    else 0x8000
  }

  function Xor16(a: bv16, b: bv16): bv16 {
    a ^ b
  }

  function Up1(c: bv16): bv16 {
    c << 1
  }

  function Up8(c: bv16): bv16 {
    c << 8
  }

  function Widen(b: bv8): bv16 {
    b as bv16
  }

  predicate Bit(c: bv16, i: nat)
    requires i < 16
  {
    c & Mask(i) != 0
  }

  /** The polynomial of a word: bit i is the coefficient of x^i. */
  ghost function PolyOf(c: bv16): Poly {
    set i: nat | i < 16 && Bit(c, i)
  }

  /** A mask of one bit. */
  predicate Single(m: bv16) {
    m != 0 && m & (m - 1) == 0
  }

  lemma MaskSingle(i: nat)
    requires i < 16
    ensures Single(Mask(i))
  {
  }

  lemma Masked(a: bv16, m: bv16)
    requires Single(m)
    ensures a & m == 0 || a & m == m
  {
  }

  lemma XorMasked(a: bv16, b: bv16, m: bv16)
    requires Single(m)
    ensures (a ^ b) & m != 0 <==> (a & m != 0) != (b & m != 0)
  {
    MaskDistributes(a, b, m);
    Masked(a, m);
    Masked(b, m);
    XorSingle(a & m, b & m, m);
  }

  lemma MaskDistributes(a: bv16, b: bv16, m: bv16)
    ensures (a ^ b) & m == (a & m) ^ (b & m)
  {
  }

  lemma XorSingle(u: bv16, v: bv16, m: bv16)
    requires (u == 0 || u == m) && (v == 0 || v == m) && m != 0
    ensures u ^ v != 0 <==> (u != 0) != (v != 0)
  {
    XorEqual(u, v);
  }

  lemma XorEqual(u: bv16, v: bv16)
    ensures u ^ v == 0 <==> u == v
  {
  }

  lemma XorAtMask(a: bv16, b: bv16, i: nat)
    requires i < 16
    ensures (a ^ b) & Mask(i) != 0 <==> (a & Mask(i) != 0) != (b & Mask(i) != 0)
  {
    hide Mask, Single;
    MaskSingle(i);
    XorMasked(a, b, Mask(i));
  }

  lemma XorBit(a: bv16, b: bv16, i: nat)
    requires i < 16
    ensures Bit(Xor16(a, b), i) <==> Bit(a, i) != Bit(b, i)
  {
    hide Mask;
    XorAtMask(a, b, i);
  }

  /** A shift by one moves every bit up one place. */
  lemma ShlBit(c: bv16, i: nat)
    requires i < 16
    ensures Bit(Up1(c), i) <==> i >= 1 && Bit(c, i - 1)
  {
  }

  lemma Shl8Bit(c: bv16, i: nat)
    requires i < 16
    ensures Bit(Up8(c), i) <==> i >= 8 && Bit(c, i - 8)
  {
  }

  lemma GeneratorBit(i: nat)
    requires i < 16
    ensures Bit(0x1021, i) <==> i in {12, 5, 0}
  {
  }

  lemma SameMasked(a: bv16, b: bv16, m: bv16)
    requires Single(m) && (a & m != 0 <==> b & m != 0)
    ensures a & m == b & m
  {
    Masked(a, m);
    Masked(b, m);
  }

  lemma SameAtMask(a: bv16, b: bv16, i: nat)
    requires i < 16 && (Bit(a, i) <==> Bit(b, i))
    ensures a & Mask(i) == b & Mask(i)
  {
    hide Mask, Single;
    MaskSingle(i);
    SameMasked(a, b, Mask(i));
  }

  lemma SameWord(a: bv16, b: bv16)
    requires
      && a & 0x1 == b & 0x1 && a & 0x2 == b & 0x2 && a & 0x4 == b & 0x4 && a & 0x8 == b & 0x8
      && a & 0x10 == b & 0x10 && a & 0x20 == b & 0x20 && a & 0x40 == b & 0x40 && a & 0x80 == b & 0x80
      && a & 0x100 == b & 0x100 && a & 0x200 == b & 0x200 && a & 0x400 == b & 0x400 && a & 0x800 == b & 0x800
      && a & 0x1000 == b & 0x1000 && a & 0x2000 == b & 0x2000 && a & 0x4000 == b & 0x4000 && a & 0x8000 == b & 0x8000
    ensures a == b
  {
  }

  /** A word is determined by its polynomial. */
  lemma SameBits(a: bv16, b: bv16)
    requires PolyOf(a) == PolyOf(b)
    ensures a == b
  {
    hide Bit, Mask;
    forall i: nat | i < 16
      ensures a & Mask(i) == b & Mask(i)
    {
      assert i in PolyOf(a) <==> i in PolyOf(b);
      SameAtMask(a, b, i);
    }
    Masks(a, b);
    SameWord(a, b);
  }

  lemma Masks(a: bv16, b: bv16)
    requires forall i: nat | i < 16 :: a & Mask(i) == b & Mask(i)
    ensures
      && a & 0x1 == b & 0x1 && a & 0x2 == b & 0x2 && a & 0x4 == b & 0x4 && a & 0x8 == b & 0x8
      && a & 0x10 == b & 0x10 && a & 0x20 == b & 0x20 && a & 0x40 == b & 0x40 && a & 0x80 == b & 0x80
      && a & 0x100 == b & 0x100 && a & 0x200 == b & 0x200 && a & 0x400 == b & 0x400 && a & 0x800 == b & 0x800
      && a & 0x1000 == b & 0x1000 && a & 0x2000 == b & 0x2000 && a & 0x4000 == b & 0x4000 && a & 0x8000 == b & 0x8000
  {
    assert Mask(0) == 0x1 && Mask(1) == 0x2 && Mask(2) == 0x4 && Mask(3) == 0x8 && Mask(4) == 0x10 && Mask(5) == 0x20;
    assert Mask(6) == 0x40 && Mask(7) == 0x80 && Mask(8) == 0x100 && Mask(9) == 0x200 && Mask(10) == 0x400;
    assert Mask(11) == 0x800 && Mask(12) == 0x1000 && Mask(13) == 0x2000 && Mask(14) == 0x4000 && Mask(15) == 0x8000;
  }

  // ---------------------------------------------------------------------
  // The register
  // ---------------------------------------------------------------------

  /** One bit of the inner loop. */
  function Step(c: bv16): bv16 {
    if c & 0x8000 != 0 then Xor16(Up1(c), 0x1021) else Up1(c)
  }

  function Steps(c: bv16, n: nat): bv16 {
    if n == 0 then c else Step(Steps(c, n - 1))
  }

  function Feed(c: bv16, b: bv8): bv16 {
    Steps(Xor16(c, Up8(Widen(b))), 8)
  }

  /** What the loops leave for these bytes. */
  function Crc(data: seq<bv8>): bv16 {
    if data == [] then 0 else Feed(Crc(data[..|data| - 1]), data[|data| - 1])
  }

  /** The polynomial of a message, first byte and first bit highest. */
  ghost function Message(data: seq<bv8>): Poly {
    if data == [] then {}
    else Plus(Shift(Message(data[..|data| - 1]), 8), PolyOf(Widen(data[|data| - 1])))
  }

  /** The coefficients: those of the last byte are lowest, and in a byte those of the lowest bits. */
  lemma {:induction false} MessageCoefficient(data: seq<bv8>, i: nat)
    ensures i in Message(data) <==> i < 8 * |data| && Bit(Widen(data[|data| - 1 - i / 8]), i % 8)
  {
    hide Bit, Widen;
    if data != [] {
      var n := |data| - 1;
      ByteBits(data[n], i);
      if i >= 8 {
        MessageCoefficient(data[..n], i - 8);
        assert (i - 8) / 8 == i / 8 - 1 && (i - 8) % 8 == i % 8;
      }
    }
  }

  lemma ByteBits(b: bv8, i: nat)
    ensures i in PolyOf(Widen(b)) <==> i < 8 && Bit(Widen(b), i)
  {
    if 8 <= i < 16 {
      assert !Bit(Widen(b), i);
    }
  }

  /** crc16 over the first size bytes; none if size is not positive. */
  method Crc16(ptr: array<bv8>, size: int) returns (crc: bv16)
    requires size <= ptr.Length
    ensures crc == Crc(if size > 0 then ptr[..size] else [])
    ensures IsRemainder(Shift(Message(if size > 0 then ptr[..size] else []), 16), PolyOf(crc))
  {
    ghost var data := if size > 0 then ptr[..size] else [];
    CrcIsRemainder(data);
    hide Steps, Feed, Message, PolyOf;
    crc := 0;
    var at, left := 0, size - 1;
    while left >= 0
      invariant if size > 0 then at == size - 1 - left && left >= -1 else at == 0 && left < 0
      invariant 0 <= at <= |data| && crc == Crc(data[..at])
      decreases left
    {
      assert data[..at + 1][..at] == data[..at];
      crc := FeedByte(crc, ptr[at]);
      at := at + 1;
      left := left - 1;
    }
    assert data[..|data|] == data;
  }

  /** One byte of the outer loop. */
  method FeedByte(start: bv16, byte: bv8) returns (crc: bv16)
    ensures crc == Feed(start, byte)
  {
    hide Step, Xor16, Up8, Widen;
    crc := Xor16(start, Up8(Widen(byte)));
    ghost var mixed := crc;
    var i := 8;
    crc := OneBit(crc);
    i := i - 1;
    while i != 0
      invariant 0 <= i < 8 && crc == Steps(mixed, 8 - i)
      decreases i
    {
      crc := OneBit(crc);
      i := i - 1;
    }
  }

  method OneBit(c: bv16) returns (crc: bv16)
    ensures crc == Step(c)
  {
    if c & 0x8000 != 0 {
      crc := (c << 1) ^ 0x1021;
    } else {
      crc := c << 1;
    }
  }

  // ---------------------------------------------------------------------
  // The register holds the remainder
  // ---------------------------------------------------------------------

  lemma XorPoly(a: bv16, b: bv16)
    ensures PolyOf(Xor16(a, b)) == Plus(PolyOf(a), PolyOf(b))
  {
    hide Bit, Plus, Xor16;
    forall x: nat
      ensures x in PolyOf(Xor16(a, b)) <==> x in Plus(PolyOf(a), PolyOf(b))
    {
      PlusAt(PolyOf(a), PolyOf(b), x);
      if x < 16 {
        XorBit(a, b, x);
      }
    }
  }

  lemma ZeroPoly()
    ensures PolyOf(0) == {}
  {
  }

  lemma TopBit(c: bv16)
    ensures c & 0x8000 != 0 <==> Bit(c, 15)
  {
  }

  lemma Up1Poly(c: bv16)
    ensures PolyOf(Up1(c)) == Plus(Shift(PolyOf(c), 1), if 15 in PolyOf(c) then {16} else {})
  {
    hide Bit, Plus, Shift, Up1;
    forall x: nat
      ensures x in PolyOf(Up1(c)) <==> x in Plus(Shift(PolyOf(c), 1), if 15 in PolyOf(c) then {16} else {})
    {
      PlusAt(Shift(PolyOf(c), 1), if 15 in PolyOf(c) then {16} else {}, x);
      ShiftAt(PolyOf(c), 1, x);
      if x < 16 {
        ShlBit(c, x);
      }
    }
  }

  lemma GeneratorPoly()
    ensures PolyOf(0x1021) == {12, 5, 0}
  {
    hide Bit;
    forall x: nat
      ensures x in PolyOf(0x1021) <==> x in {12, 5, 0}
    {
      if x < 16 {
        GeneratorBit(x);
      }
    }
  }

  /** One bit of the loop multiplies by x and takes the generator off if x^16 appeared. */
  lemma StepPoly(c: bv16)
    ensures PolyOf(Step(c)) == Plus(Shift(PolyOf(c), 1), if 15 in PolyOf(c) then G else {})
  {
    TopBit(c);
    StepIs(c);
    hide Bit, Step, Xor16, Up1, Plus, Shift;
    Up1Poly(c);
    if Bit(c, 15) {
      XorPoly(Up1(c), 0x1021);
      GeneratorPoly();
      PlusAssoc(Shift(PolyOf(c), 1), {16}, {12, 5, 0});
      assert Plus({16}, {12, 5, 0}) == G by {
        GeneratorSplit();
      }
    }
  }

  lemma GeneratorSplit()
    ensures Plus({16}, {12, 5, 0}) == G
  {
  }

  lemma StepIs(c: bv16)
    ensures Step(c) == if Bit(c, 15) then Xor16(Up1(c), 0x1021) else Up1(c)
  {
    TopBit(c);
    hide Xor16, Up1;
  }

  lemma {:induction false} StepsPoly(c: bv16, n: nat) returns (q: Poly)
    ensures Shift(PolyOf(c), n) == Plus(MulG(q), PolyOf(Steps(c, n)))
  {
    hide PolyOf, Step, Shift, Plus, MulG;
    if n == 0 {
      q := {};
      MulGOne();
      PlusNothing(PolyOf(c));
      ShiftNothing(PolyOf(c));
    } else {
      var p := StepsPoly(c, n - 1);
      var r := Steps(c, n - 1);
      var one: Poly := if 15 in PolyOf(r) then {0} else {};
      q := Plus(Shift(p, 1), one);
      StepPoly(r);
      MulGOne();
      StepAlgebra(PolyOf(c), n - 1, p, PolyOf(r), PolyOf(Step(r)), one);
    }
  }

  lemma ShiftNothing(p: Poly)
    ensures Shift(p, 0) == p
  {
    forall x: nat
      ensures x in Shift(p, 0) <==> x in p
    {
      ShiftAt(p, 0, x);
    }
  }

  lemma StepAlgebra(c: Poly, n: nat, p: Poly, r: Poly, next: Poly, one: Poly)
    requires Shift(c, n) == Plus(MulG(p), r) && next == Plus(Shift(r, 1), MulG(one))
    ensures Shift(c, n + 1) == Plus(MulG(Plus(Shift(p, 1), one)), next)
  {
    hide Shift, Plus, MulG;
    ShiftShift(c, n, 1);
    ShiftPlus(MulG(p), r, 1);
    MulGShift(p, 1);
    MulGPlus(Shift(p, 1), one);
    PlusRegroup(MulG(Shift(p, 1)), MulG(one), Shift(r, 1), MulG(one));
    PlusNothing(MulG(one));
    PlusNothing(Plus(MulG(Shift(p, 1)), Shift(r, 1)));
  }

  lemma Shl8Poly(b: bv8)
    ensures PolyOf(Up8(Widen(b))) == Shift(PolyOf(Widen(b)), 8)
  {
    var c := Widen(b);
    hide Bit, Shift, Up8, Widen;
    forall x: nat
      ensures x in PolyOf(Up8(c)) <==> x in Shift(PolyOf(c), 8)
    {
      ShiftAt(PolyOf(c), 8, x);
      if x < 16 {
        Shl8Bit(c, x);
      } else if x < 24 {
        HighBit(b, x - 8);
      }
    }
  }

  /** A byte has no bit above the seventh. */
  lemma HighBit(b: bv8, i: nat)
    requires 8 <= i < 16
    ensures !Bit(Widen(b), i)
  {
  }

  lemma WordBelow(c: bv16)
    ensures Below16(PolyOf(c))
  {
  }

  /** crc16 is the remainder of the message times x^16. */
  lemma {:induction false} CrcIsRemainder(data: seq<bv8>)
    ensures IsRemainder(Shift(Message(data), 16), PolyOf(Crc(data)))
  {
    hide PolyOf, Steps, Shift, Plus, MulG, Xor16, Up8, Widen;
    WordBelow(Crc(data));
    if data == [] {
      ZeroPoly();
      MulGOne();
      PlusNothing({});
      assert Shift({}, 16) == Plus(MulG({}), {}) by {
        ShiftNone();
      }
    } else {
      var front, b := data[..|data| - 1], data[|data| - 1];
      CrcIsRemainder(front);
      var q :| Shift(Message(front), 16) == Plus(MulG(q), PolyOf(Crc(front)));
      var q8 := StepsPoly(Xor16(Crc(front), Up8(Widen(b))), 8);
      XorPoly(Crc(front), Up8(Widen(b)));
      Shl8Poly(b);
      ByteAlgebra(Message(front), PolyOf(Widen(b)), PolyOf(Crc(front)), q, q8, PolyOf(Crc(data)));
    }
  }

  lemma ShiftNone()
    ensures Shift({}, 16) == {}
  {
  }

  lemma ByteAlgebra(front: Poly, b: Poly, c: Poly, q: Poly, q8: Poly, next: Poly)
    requires Shift(front, 16) == Plus(MulG(q), c)
    requires Shift(Plus(c, Shift(b, 8)), 8) == Plus(MulG(q8), next)
    ensures Shift(Plus(Shift(front, 8), b), 16) == Plus(MulG(Plus(Shift(q, 8), q8)), next)
  {
    hide Shift, Plus, MulG;
    ShiftPlus(Shift(front, 8), b, 16);
    ShiftShift(front, 8, 16);
    ShiftShift(front, 16, 8);
    ShiftPlus(MulG(q), c, 8);
    MulGShift(q, 8);
    ShiftPlus(c, Shift(b, 8), 8);
    ShiftShift(b, 8, 8);
    MulGPlus(Shift(q, 8), q8);
    PlusAssoc(MulG(Shift(q, 8)), Shift(c, 8), Shift(b, 16));
    PlusAssoc(MulG(Shift(q, 8)), MulG(q8), next);
  }

  // ---------------------------------------------------------------------
  // What follows from it
  // ---------------------------------------------------------------------

  function Xor(a: seq<bv8>, b: seq<bv8>): (c: seq<bv8>)
    requires |a| == |b|
    ensures |c| == |a| && forall i :: 0 <= i < |a| ==> c[i] == a[i] ^ b[i]
  {
    seq(|a|, i requires 0 <= i < |a| => a[i] ^ b[i])
  }

  lemma {:induction false} MessageXor(a: seq<bv8>, b: seq<bv8>)
    requires |a| == |b|
    ensures Message(Xor(a, b)) == Plus(Message(a), Message(b))
  {
    hide PolyOf, Shift, Plus, Xor16, Widen;
    if a == [] {
      PlusNothing({});
    } else {
      var n := |a| - 1;
      MessageXor(a[..n], b[..n]);
      assert Xor(a, b)[..n] == Xor(a[..n], b[..n]);
      var p, q, x, y := Message(a[..n]), Message(b[..n]), PolyOf(Widen(a[n])), PolyOf(Widen(b[n]));
      WidenXor(a[n], b[n]);
      XorPoly(Widen(a[n]), Widen(b[n]));
      ShiftPlus(p, q, 8);
      PlusRegroup(Shift(p, 8), Shift(q, 8), x, y);
    }
  }

  lemma WidenXor(a: bv8, b: bv8)
    ensures Widen(a ^ b) == Xor16(Widen(a), Widen(b))
  {
  }

  /** crc16 is linear: the CRC of the xor of two messages of one length is the xor of their CRCs. */
  lemma CrcLinear(a: seq<bv8>, b: seq<bv8>)
    requires |a| == |b|
    ensures Crc(Xor(a, b)) == Crc(a) ^ Crc(b)
  {
    assert Crc(a) ^ Crc(b) == Xor16(Crc(a), Crc(b)) by {
      hide Crc;
    }
    hide Crc, PolyOf, Shift, Plus, IsRemainder, Message, Xor16, Xor;
    CrcIsRemainder(a);
    CrcIsRemainder(b);
    CrcIsRemainder(Xor(a, b));
    MessageXor(a, b);
    ShiftPlus(Message(a), Message(b), 16);
    RemainderPlus(Shift(Message(a), 16), Shift(Message(b), 16), PolyOf(Crc(a)), PolyOf(Crc(b)));
    XorPoly(Crc(a), Crc(b));
    RemainderUnique(Shift(Message(Xor(a, b)), 16), PolyOf(Crc(Xor(a, b))), PolyOf(Xor16(Crc(a), Crc(b))));
    SameBits(Crc(Xor(a, b)), Xor16(Crc(a), Crc(b)));
  }

  function High(c: bv16): bv8 {
    (c >> 8) as bv8
  }

  function Low(c: bv16): bv8 {
    (c & 0xff) as bv8
  }

  lemma HalvesBits(c: bv16, i: nat)
    requires i < 8
    ensures Bit(Widen(High(c)), i) == Bit(c, i + 8) && Bit(Widen(Low(c)), i) == Bit(c, i)
  {
  }

  lemma HalvesPoly(c: bv16)
    ensures Plus(Shift(PolyOf(Widen(High(c))), 8), PolyOf(Widen(Low(c)))) == PolyOf(c)
  {
    hide Bit, Shift, Plus, High, Low, Widen;
    var h, l := PolyOf(Widen(High(c))), PolyOf(Widen(Low(c)));
    forall x: nat
      ensures x in Plus(Shift(h, 8), l) <==> x in PolyOf(c)
    {
      PlusAt(Shift(h, 8), l, x);
      ShiftAt(h, 8, x);
      if x < 8 {
        HalvesBits(c, x);
      } else if x < 16 {
        HalvesBits(c, x - 8);
        HighBit(Low(c), x);
      } else if x < 24 {
        HighBit(High(c), x - 8);
      }
    }
  }

  /** A message followed by its CRC, high byte first, has CRC 0. */
  lemma CrcOfChecked(data: seq<bv8>)
    ensures Crc(data + [High(Crc(data)), Low(Crc(data))]) == 0
  {
    hide Crc, PolyOf, Shift, Plus, MulG, High, Low, Widen;
    var c := Crc(data);
    var whole := data + [High(c), Low(c)];
    assert whole[..|whole| - 1] == data + [High(c)] && (data + [High(c)])[..|data|] == data;
    CrcIsRemainder(whole);
    CrcIsRemainder(data);
    var q :| Shift(Message(data), 16) == Plus(MulG(q), PolyOf(c));
    HalvesPoly(c);
    CheckedAlgebra(Message(data), PolyOf(Widen(High(c))), PolyOf(Widen(Low(c))), PolyOf(c), q);
    ZeroPoly();
    RemainderUnique(Shift(Message(whole), 16), PolyOf(Crc(whole)), PolyOf(0));
    SameBits(Crc(whole), 0);
  }

  lemma CheckedAlgebra(m: Poly, h: Poly, l: Poly, c: Poly, q: Poly)
    requires Shift(m, 16) == Plus(MulG(q), c) && Plus(Shift(h, 8), l) == c
    ensures IsRemainder(Shift(Plus(Shift(Plus(Shift(m, 8), h), 8), l), 16), {})
  {
    hide Shift, Plus, MulG;
    ShiftPlus(Shift(m, 8), h, 8);
    ShiftShift(m, 8, 8);
    PlusAssoc(Shift(m, 16), Shift(h, 8), l);
    PlusAssoc(MulG(q), c, c);
    PlusNothing(c);
    PlusNothing(MulG(q));
    MulGShift(q, 16);
    PlusNothing(MulG(Shift(q, 16)));
    assert Shift(MulG(q), 16) == Plus(MulG(Shift(q, 16)), {});
  }
}
