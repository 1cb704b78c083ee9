/** src/utility/bignum.cc: the two modulus and Barrett tables the repository ships. */
module FieldTables {
  import opened Digits
  import opened Bignums

  const P1305: nat := 0x3_ffff_ffff_ffff_ffff_ffff_ffff_ffff_fffb
  const P128: nat := 0xffff_fffd_ffff_ffff_ffff_ffff_ffff_ffff

  const MOD_17: seq<Digit> := [0xffff_fffb, 0xffff_ffff, 0xffff_ffff, 0xffff_ffff, 0x3]
  const BARRETT_17: seq<Digit> := [0x0, 0x5000_0000, 0x0, 0x0, 0x0, 0x4000_0000]

  const MOD_16: seq<Digit> := [0xffff_ffff, 0xffff_ffff, 0xffff_ffff, 0xffff_fffd]
  const BARRETT_16: seq<Digit> := [17, 8, 4, 2, 1]

  lemma ValFour(a: Digit, b: Digit, c: Digit, d: Digit, rest: seq<Digit>)
    ensures Val([a, b, c, d] + rest)
         == a + 0x1_0000_0000 * b + 0x1_0000_0000_0000_0000 * c + 0x1_0000_0000_0000_0000_0000_0000 * d
          + 0x1_0000_0000_0000_0000_0000_0000_0000_0000 * Val(rest)
  {
    hide Val;
    ValHead(a, [b, c, d] + rest);
    ValHead(b, [c, d] + rest);
    ValHead(c, [d] + rest);
    ValHead(d, rest);
    assert [a, b, c, d] + rest == [a] + ([b, c, d] + rest);
    assert [b, c, d] + rest == [b] + ([c, d] + rest);
    assert [c, d] + rest == [c] + ([d] + rest);
  }

  lemma ValHead(d: Digit, s: seq<Digit>)
    ensures Val([d] + s) == d + 0x1_0000_0000 * Val(s)
  {
    assert ([d] + s)[1..] == s;
  }

  lemma Weights()
    ensures Weight(3) == 0x1_0000_0000_0000_0000_0000_0000
    ensures Weight(4) == 0x1_0000_0000_0000_0000_0000_0000_0000_0000
    ensures Weight(8) == Weight(4) * Weight(4)
    ensures Weight(10) == 0x1_0000_0000_0000_0000 * Weight(8)
  {
    assert Weight(1) == 0x1_0000_0000;
    assert Weight(2) == 0x1_0000_0000_0000_0000;
    assert Weight(3) == 0x1_0000_0000_0000_0000_0000_0000;
    WeightAdd(4, 4);
    assert Weight(9) == 0x1_0000_0000 * Weight(8);
  }

  /** The tables of Bignum<17> are 2^130 - 5 and its Barrett constant. */
  lemma Tables17()
    ensures Val(MOD_17) == P1305
    ensures IsBarrettPair(MOD_17, BARRETT_17)
  {
    hide Val, Weight;
    Weights();
    ValOne(0x3);
    ValHead(0x0, [0x4000_0000]);
    ValOne(0x4000_0000);
    assert MOD_17 == [0xffff_fffb, 0xffff_ffff, 0xffff_ffff, 0xffff_ffff] + [0x3];
    ValFour(0xffff_fffb, 0xffff_ffff, 0xffff_ffff, 0xffff_ffff, [0x3]);
    assert BARRETT_17 == [0x0, 0x5000_0000, 0x0, 0x0] + ([0x0] + [0x4000_0000]);
    ValFour(0x0, 0x5000_0000, 0x0, 0x0, [0x0] + [0x4000_0000]);
    assert Val(BARRETT_17) == 0x4000_0000_0000_0000_0000_0000_0000_0000_5000_0000_0000_0000;
    DivModUnique(Weight(10), P1305, Val(BARRETT_17), 0x1_9000_0000_0000_0000);
  }

  /** The tables of Bignum<16>: the 128-bit modulus of the key exchange and its Barrett constant. */
  lemma Tables16()
    ensures Val(MOD_16) == P128
    ensures IsBarrettPair(MOD_16, BARRETT_16)
  {
    hide Val, Weight;
    Weights();
    assert MOD_16 == MOD_16 + [];
    ValFour(0xffff_ffff, 0xffff_ffff, 0xffff_ffff, 0xffff_fffd, []);
    assert BARRETT_16 == [17, 8, 4, 2] + [1];
    ValFour(17, 8, 4, 2, [1]);
    ValOne(1);
    ValNil();
    assert Val(BARRETT_16) == 0x1_0000_0002_0000_0004_0000_0008_0000_0011;
    DivModUnique(Weight(8), P128, Val(BARRETT_16), 0x24_0000_0004_0000_0008_0000_0011);
  }

  lemma ValNil()
    ensures Val([]) == 0
  {
  }
}
