/** include/utility/diffie_hellman.h: points in Jacobian coordinates, doubled, added and multiplied in place. */
module EllipticCurves {
  import opened Digits
  import opened Divisibility
  import opened Congruence
  import opened Bignums
  import opened CurveLaw
  import opened Bits

  /** a holds the reduced residue of e. */
  ghost predicate Holds(a: Bignum, e: int)
    reads a.data, a.field.mod, a.field.barrettU
  {
    a.Valid() && a.Value() < a.field.m && Cong(a.Value(), e, a.field.m)
  }

  // Names for the integer operations, so that long chains of them stay opaque to arithmetic.
  ghost function Prod(a: int, b: int): int { a * b }
  ghost function Sum(a: int, b: int): int { a + b }
  ghost function Diff(a: int, b: int): int { a - b }

  method Times(a: Bignum, b: Bignum, ghost ea: int, ghost eb: int)
    requires a.field == b.field && Holds(a, ea) && Holds(b, eb)
    modifies a.data
    ensures Holds(a, Prod(ea, eb))
  {
    hide Cong, Val, Weight, IsBarrettPair;
    ghost var m, x, y := a.field.m, a.Value(), b.Value();
    ModMulExact(x, y, m);
    CongMul(x, ea, y, eb, m);
    CongMod(x * y, m);
    a.MulAssign(b);
    CongTrans(a.Value(), x * y, ea * eb, m);
  }

  method Scale(a: Bignum, n: Digit, ghost ea: int)
    requires Holds(a, ea)
    modifies a.data
    ensures Holds(a, Prod(ea, n))
  {
    hide Cong, Val, Weight, IsBarrettPair;
    var b := new Bignum(a.field, n);
    ghost var m, x := a.field.m, a.Value();
    ModMulExact(x, n, m);
    CongRefl(n, m);
    CongMul(x, ea, n, n, m);
    CongMod(x * n, m);
    a.MulAssign(b);
    CongTrans(a.Value(), x * n, ea * n, m);
  }

  method Plus(a: Bignum, b: Bignum, ghost ea: int, ghost eb: int)
    requires a.field == b.field && Holds(a, ea) && Holds(b, eb)
    modifies a.data
    ensures Holds(a, Sum(ea, eb))
  {
    hide Cong, Val, Weight, IsBarrettPair;
    ghost var m, x, y := a.field.m, a.Value(), b.Value();
    CongAdd(x, ea, y, eb, m);
    CongMod(x + y, m);
    a.AddAssign(b);
    CongTrans(a.Value(), x + y, ea + eb, m);
  }

  method Minus(a: Bignum, b: Bignum, ghost ea: int, ghost eb: int)
    requires a.field == b.field && Holds(a, ea) && Holds(b, eb)
    modifies a.data
    ensures Holds(a, Diff(ea, eb))
  {
    hide Cong, Val, Weight, IsBarrettPair;
    ghost var m: nat, x: int, y: int := a.field.m, a.Value(), b.Value();
    CongAdd(x, ea, y, eb, m);
    a.SubAssign(b);
    CongOffset(x - y, m);
    CongRefl(x - y, m);
    CongTrans(a.Value(), x - y, ea - eb, m);
  }

  lemma CongOffset(a: int, m: nat)
    ensures Cong(a + m, a, m)
  {
    DividesWitness(m, m, 1);
  }

  method Assign(a: Bignum, b: Bignum, ghost eb: int)
    requires a.Valid() && a.field == b.field && Holds(b, eb)
    modifies a.data
    ensures Holds(a, eb)
  {
    hide Cong, Val, Weight, IsBarrettPair;
    ghost var y := b.Value();
    a.AssignFrom(b);
  }

  method Clone(b: Bignum, ghost eb: int) returns (a: Bignum)
    requires Holds(b, eb)
    ensures a.field == b.field && fresh(a.data) && a.Valid()
    ensures Holds(a, eb) && Holds(b, eb)
  {
    a := new Bignum(b.field, 0);
    Assign(a, b, eb);
  }

  class Point {
    const field: Field
    const x: Bignum
    const y: Bignum
    const z: Bignum

    constructor Copy(p: Point)
      requires p.Valid()
      ensures Valid() && field == p.field && View() == p.View()
      ensures fresh(x.data) && fresh(y.data) && fresh(z.data)
    {
      field := p.field;
      x := new Bignum(p.field, 0);
      y := new Bignum(p.field, 0);
      z := new Bignum(p.field, 0);
      new;
      x.AssignFrom(p.x);
      y.AssignFrom(p.y);
      z.AssignFrom(p.z);
    }

    ghost predicate Valid()
      reads x.data, y.data, z.data, field.mod, field.barrettU
    {
      && x.field == field && y.field == field && z.field == field
      && x.Valid() && y.Valid() && z.Valid()
      && x.data != y.data && x.data != z.data && y.data != z.data
      && x.Value() < field.m && y.Value() < field.m && z.Value() < field.m
    }

    ghost function View(): Jacobian
      reads x.data, y.data, z.data
    {
      Jacobian(x.Value(), y.Value(), z.Value())
    }

    /** C = 3 (x - z^2)(x + z^2). */
    method DoubleSlopeStep(ghost x0: int, ghost z0: int) returns (c: Bignum, aux: Bignum)
      requires x.field == field && z.field == field && Holds(x, x0) && Holds(z, z0)
      ensures c.field == field && aux.field == field && aux.Valid()
      ensures fresh(c.data) && fresh(aux.data) && c.data != aux.data
      ensures Holds(c, SlopeExpr(x0, z0))
    {
      hide Holds, Prod, Sum, Diff;
      c := Clone(x, x0);
      aux := Clone(z, z0);
      Times(aux, z, z0, z0);
      ghost var zz := Prod(z0, z0);
      Minus(c, aux, x0, zz);
      Plus(aux, x, zz, x0);
      Times(c, aux, Diff(x0, zz), Sum(zz, x0));
      Scale(c, 3, Prod(Diff(x0, zz), Sum(zz, x0)));
      HoldsValid(aux, Sum(zz, x0));
    }

    /** z = 2yz, then y = 4xy^2 and B = 8y^4. */
    method DoubleScaleStep(ghost x0: int, ghost y0: int, ghost z0: int) returns (b: Bignum)
      requires x.field == field && y.field == field && z.field == field
      requires x.data != y.data && x.data != z.data && y.data != z.data
      requires Holds(x, x0) && Holds(y, y0) && Holds(z, z0)
      modifies y.data, z.data
      ensures b.field == field && fresh(b.data)
      ensures Holds(x, x0) && Holds(z, Prod(Prod(z0, y0), 2))
      ensures Holds(y, Prod(Prod(Prod(y0, y0), x0), 4))
      ensures Holds(b, Prod(Prod(Prod(y0, y0), Prod(y0, y0)), 8))
    {
      HoldsValid(x, x0);
      HoldsValid(y, y0);
      HoldsValid(z, z0);
      hide Holds, Prod, Sum, Diff, Val, Weight, IsBarrettPair;
      b := new Bignum(field, 0);
      Times(z, y, z0, y0);
      Scale(z, 2, Prod(z0, y0));
      Times(y, y, y0, y0);
      ghost var yy := Prod(y0, y0);
      Assign(b, y, yy);
      Times(y, x, yy, x0);
      Scale(y, 4, Prod(yy, x0));
      Times(b, b, yy, yy);
      Scale(b, 8, Prod(yy, yy));
    }

    /** x = C^2 - 2y, then y = (y - x) C - B. */
    method DoubleCombineStep(b: Bignum, c: Bignum, aux: Bignum, ghost w: int, ghost s: int, ghost e: int)
      requires x.field == field && y.field == field && b.field == field && c.field == field && aux.field == field
      requires x.Valid() && aux.Valid() && Holds(y, s) && Holds(b, e) && Holds(c, w)
      requires x.data != y.data && b.data != x.data && b.data != y.data && c.data != x.data && c.data != y.data
      requires aux.data != x.data && aux.data != y.data && aux.data != b.data && aux.data != c.data
      modifies x.data, y.data, aux.data
      ensures Holds(x, Diff(Prod(w, w), Prod(s, 2)))
      ensures Holds(y, Diff(Prod(Diff(s, Diff(Prod(w, w), Prod(s, 2))), w), e))
    {
      HoldsValid(y, s);
      hide Holds, Prod, Sum, Diff, Val, Weight, IsBarrettPair;
      Assign(x, c, w);
      Times(x, x, w, w);
      Assign(aux, y, s);
      Scale(aux, 2, s);
      Minus(x, aux, Prod(w, w), Prod(s, 2));
      ghost var x1 := Diff(Prod(w, w), Prod(s, 2));
      Minus(y, x, s, x1);
      Times(y, c, Diff(s, x1), w);
      Minus(y, b, Prod(Diff(s, x1), w), e);
    }

    /** Point doubling, statement by statement. */
    method JacobianDouble()
      requires Valid()
      modifies x.data, y.data, z.data
      ensures Valid() && View() == Doubled(old(View()), field.m)
    {
      ghost var x0, y0, z0 := x.Value(), y.Value(), z.Value();
      Known();
      hide Holds, Prod, Sum, Diff, Val, Weight, IsBarrettPair, Doubled, SlopeExpr;
      var c, aux := DoubleSlopeStep(x0, z0);
      var b := DoubleScaleStep(x0, y0, z0);
      ghost var w, s := SlopeExpr(x0, z0), Prod(Prod(Prod(y0, y0), x0), 4);
      ghost var e := Prod(Prod(Prod(y0, y0), Prod(y0, y0)), 8);
      DoubleCombineStep(b, c, aux, w, s, e);
      DoubledResult(x0, y0, z0);
    }

    /** The second operand at the first one's z: X z^2 and Y z^3. */
    method ScaleStep(q: Point, ghost z0: int, ghost qx: int, ghost qy: int) returns (a: Bignum, b: Bignum)
      requires z.field == field && q.x.field == field && q.y.field == field
      requires Holds(z, z0) && Holds(q.x, qx) && Holds(q.y, qy)
      ensures a.field == field && b.field == field && fresh(a.data) && fresh(b.data) && a.data != b.data
      ensures Holds(a, Prod(Prod(z0, z0), qx)) && Holds(b, Prod(Prod(Prod(z0, z0), z0), qy))
    {
      hide Holds, Prod, Sum, Diff, Val, Weight, IsBarrettPair, Cong;
      a := Clone(z, z0);
      Times(a, z, z0, z0);
      ghost var zz := Prod(z0, z0);
      b := Clone(a, zz);
      Times(a, q.x, zz, qx);
      Times(b, z, zz, z0);
      Times(b, q.y, Prod(zz, z0), qy);
    }

    /** C = X_b z^2 - x and B = Y_b z^3 - y. */
    method AddDifferencesStep(q: Point, ghost x0: int, ghost y0: int, ghost z0: int, ghost qx: int, ghost qy: int)
      returns (c: Bignum, b: Bignum)
      requires x.field == field && y.field == field && z.field == field && q.x.field == field && q.y.field == field
      requires Holds(x, x0) && Holds(y, y0) && Holds(z, z0) && Holds(q.x, qx) && Holds(q.y, qy)
      ensures c.field == field && b.field == field && fresh(c.data) && fresh(b.data) && c.data != b.data
      ensures Holds(c, Diff(Prod(Prod(z0, z0), qx), x0))
      ensures Holds(b, Diff(Prod(Prod(Prod(z0, z0), z0), qy), y0))
    {
      hide Holds, Prod, Sum, Diff, Val, Weight, IsBarrettPair, Cong;
      ghost var zz := Prod(z0, z0);
      var a: Bignum;
      a, b := ScaleStep(q, z0, qx, qy);
      c := Clone(a, Prod(zz, qx));
      Minus(c, x, Prod(zz, qx), x0);
      Minus(b, y, Prod(Prod(zz, z0), qy), y0);
    }

    /** C^3 + 2 x C^2, with C^2 kept apart. */
    method AddCubeStep(c: Bignum, ghost x0: int, ghost h: int) returns (aux: Bignum, ny: Bignum)
      requires x.field == field && c.field == field && Holds(x, x0) && Holds(c, h)
      ensures aux.field == field && ny.field == field && fresh(aux.data) && fresh(ny.data) && aux.data != ny.data
      ensures Holds(aux, Sum(Prod(Prod(h, h), h), Prod(Prod(Prod(h, h), 2), x0)))
      ensures Holds(ny, Prod(h, h))
    {
      hide Holds, Prod, Sum, Diff, Val, Weight, IsBarrettPair, Cong;
      aux := Clone(c, h);
      Times(aux, c, h, h);
      ghost var hh := Prod(h, h);
      ny := Clone(aux, hh);
      var aux2 := Clone(aux, hh);
      Times(aux, c, hh, h);
      Scale(aux2, 2, hh);
      Times(aux2, x, Prod(hh, 2), x0);
      Plus(aux, aux2, Prod(hh, h), Prod(Prod(hh, 2), x0));
    }

    /** X = B^2 - (C^3 + 2 x C^2), leaving C^2 in Y. */
    method AddXStep(c: Bignum, b: Bignum, ghost x0: int, ghost h: int, ghost r: int) returns (nx: Bignum, ny: Bignum)
      requires x.field == field && c.field == field && b.field == field
      requires Holds(x, x0) && Holds(c, h) && Holds(b, r)
      ensures nx.field == field && ny.field == field && fresh(nx.data) && fresh(ny.data) && nx.data != ny.data
      ensures Holds(nx, Diff(Prod(r, r), Sum(Prod(Prod(h, h), h), Prod(Prod(Prod(h, h), 2), x0))))
      ensures Holds(ny, Prod(h, h))
    {
      hide Holds, Prod, Sum, Diff, Val, Weight, IsBarrettPair, Cong;
      nx := Clone(b, r);
      Times(nx, b, r, r);
      var aux;
      aux, ny := AddCubeStep(c, x0, h);
      Minus(nx, aux, Prod(r, r), Sum(Prod(Prod(h, h), h), Prod(Prod(Prod(h, h), 2), x0)));
    }

    /** Y = (x C^2 - X) B - y C^3. */
    method AddYStep(c: Bignum, b: Bignum, nx: Bignum, ny: Bignum,
                    ghost x0: int, ghost y0: int, ghost h: int, ghost r: int, ghost x1: int)
      requires x.field == field && y.field == field
      requires c.field == field && b.field == field && nx.field == field && ny.field == field
      requires ny.data !in {x.data, y.data, z.data, c.data, b.data, nx.data}
      requires ny.data != field.mod && ny.data != field.barrettU
      requires Holds(x, x0) && Holds(y, y0) && Holds(c, h) && Holds(b, r)
      requires Holds(nx, x1) && Holds(ny, Prod(h, h))
      modifies ny.data
      ensures Holds(ny, Diff(Prod(Diff(Prod(Prod(h, h), x0), x1), r), Prod(Prod(Prod(h, h), y0), h)))
    {
      hide Holds, Prod, Sum, Diff, Val, Weight, IsBarrettPair, Cong;
      ghost var hh := Prod(h, h);
      var aux := Clone(ny, hh);
      Times(ny, x, hh, x0);
      Minus(ny, nx, Prod(hh, x0), x1);
      Times(ny, b, Diff(Prod(hh, x0), x1), r);
      Times(aux, y, hh, y0);
      Times(aux, c, Prod(hh, y0), h);
      Minus(ny, aux, Prod(Diff(Prod(hh, x0), x1), r), Prod(Prod(hh, y0), h));
    }

    /** z = z C, and X, Y are stored. */
    method AddStoreStep(c: Bignum, nx: Bignum, ny: Bignum, ghost z0: int, ghost h: int, ghost x1: int, ghost y1: int)
      requires x.field == field && y.field == field && z.field == field
      requires c.field == field && nx.field == field && ny.field == field
      requires x.Valid() && y.Valid() && x.data != y.data && x.data != z.data && y.data != z.data
      requires {c.data, nx.data, ny.data} !! {x.data, y.data, z.data}
      requires Holds(z, z0) && Holds(c, h) && Holds(nx, x1) && Holds(ny, y1)
      modifies x.data, y.data, z.data
      ensures Holds(x, x1) && Holds(y, y1) && Holds(z, Prod(z0, h))
    {
      HoldsValid(z, z0);
      hide Holds, Prod, Sum, Diff, Val, Weight, IsBarrettPair, Cong;
      Times(z, c, z0, h);
      Assign(x, nx, x1);
      Assign(y, ny, y1);
    }

    /** Addition of an affine point q, statement by statement. */
    method AddJacobianAffine(q: Point)
      requires Valid() && q.Valid() && q.field == field
      modifies x.data, y.data, z.data
      ensures Valid() && View() == Added(old(View()), old(Affine(q.x.Value(), q.y.Value())), field.m)
    {
      ghost var x0, y0, z0, qx, qy := x.Value(), y.Value(), z.Value(), q.x.Value(), q.y.Value();
      Known();
      q.Known();
      hide Holds, Prod, Sum, Diff, Val, Weight, IsBarrettPair, Added;
      var c, b := AddDifferencesStep(q, x0, y0, z0, qx, qy);
      ghost var h, r := Diff(Prod(Prod(z0, z0), qx), x0), Diff(Prod(Prod(Prod(z0, z0), z0), qy), y0);
      var nx, ny := AddXStep(c, b, x0, h, r);
      ghost var x1 := Diff(Prod(r, r), Sum(Prod(Prod(h, h), h), Prod(Prod(Prod(h, h), 2), x0)));
      AddYStep(c, b, nx, ny, x0, y0, h, r, x1);
      ghost var y1 := Diff(Prod(Diff(Prod(Prod(h, h), x0), x1), r), Prod(Prod(Prod(h, h), y0), h));
      AddStoreStep(c, nx, ny, z0, h, x1, y1);
      AddedResult(x0, y0, z0, qx, qy, h, r, x1);
    }

    /** The residues the addition leaves are those of the formula. */
    lemma AddedResult(x0: nat, y0: nat, z0: nat, qx: int, qy: int, h: int, r: int, x1: int)
      requires x.field == field && y.field == field && z.field == field
      requires x.data != y.data && x.data != z.data && y.data != z.data
      requires h == Diff(Prod(Prod(z0, z0), qx), x0) && r == Diff(Prod(Prod(Prod(z0, z0), z0), qy), y0)
      requires x1 == Diff(Prod(r, r), Sum(Prod(Prod(h, h), h), Prod(Prod(Prod(h, h), 2), x0)))
      requires Holds(x, x1)
      requires Holds(y, Diff(Prod(Diff(Prod(Prod(h, h), x0), x1), r), Prod(Prod(Prod(h, h), y0), h)))
      requires Holds(z, Prod(z0, h))
      ensures Valid() && View() == Added(Jacobian(x0, y0, z0), Affine(qx, qy), field.m)
    {
      hide Cong, Val, Weight, IsBarrettPair;
      var m := field.m;
      var s, e := x0 * (h * h), y0 * (h * h * h);
      AddedAlgebra(x0, y0, z0, qx, qy, h, r, x1);
      HoldsResidue(x, x1);
      HoldsResidue(z, z0 * h);
      CongRefl((s - x1) * r - e, m);
      HoldsResidue(y, (s - x1) * r - e);
      ReduceInside(s, x1, r, e, (s - x1) * r - e, m);
      CongResidue((s - x1 % m) * r - e, (s - x1) * r - e, m);
    }

    /** One turn of the bit loop: the multiple k becomes 2k or 2k + 1. */
    method DoubleAndAdd(pp: Point, bit: bool, ghost k: nat, ghost p: Jacobian)
      requires Valid() && pp.Valid() && pp.field == field && k >= 1
      requires {pp.x.data, pp.y.data, pp.z.data} !! {x.data, y.data, z.data}
      requires pp.View() == p && View() == Multiple(k, p, field.m)
      modifies x.data, y.data, z.data
      ensures Valid() && pp.View() == p
      ensures View() == Multiple(2 * k + (if bit then 1 else 0), p, field.m)
    {
      hide Val, Weight, IsBarrettPair, Doubled, Added, Cong;
      MultipleStep(k, bit, p, field.m);
      JacobianDouble();
      if bit {
        AddJacobianAffine(pp);
      }
    }

    /** x, y, z = x / z^2, y / z^3, 1, through the inverse w of z. */
    method Normalise() returns (ghost w: nat, ghost g: nat)
      requires Valid() && field.m % 2 == 1
      modifies x.data, y.data, z.data
      ensures Valid() && z.Value() == 1
      ensures x.Value() == (old(x.Value()) * (w * w)) % field.m
      ensures y.Value() == (old(y.Value()) * (w * w * w)) % field.m
      ensures IsGcd(g, old(z.Value()), field.m) && Cong(w * old(z.Value()), g, field.m)
    {
      ghost var x0, y0, z0, m := x.Value(), y.Value(), z.Value(), field.m;
      Known();
      z.OddModulus();
      hide Holds, Val, Weight, IsBarrettPair, Cong, Tracks, IsGcd;
      g := z.Invert();
      w := z.Value();
      TracksIsCong(w, z0, g, m);
      CongReflHolds(z, w);
      var zz := Clone(z, w);
      Times(zz, z, w, w);
      Times(x, zz, x0, Prod(w, w));
      Times(zz, z, Prod(w, w), w);
      Times(y, zz, y0, Prod(Prod(w, w), w));
      z.AssignSmall(1);
      HoldsResidue(x, Prod(x0, Prod(w, w)));
      HoldsResidue(y, Prod(y0, Prod(Prod(w, w), w)));
      HoldsValid(x, Prod(x0, Prod(w, w)));
      HoldsValid(y, Prod(y0, Prod(Prod(w, w), w)));
    }

    /** The bits of digit i from current on, one doubling each and an addition for each that is set. */
    method DigitBits(pp: Point, bin: array<bool>, from: nat, ghost s: seq<Digit>, ghost i: nat, ghost p: Jacobian)
      requires Valid() && pp.Valid() && pp.field == field && pp.View() == p
      requires {pp.x.data, pp.y.data, pp.z.data} !! {x.data, y.data, z.data}
      requires i < |s| && from <= 32 && bin.Length == 32
      requires forall j :: 0 <= j < 32 ==> bin[j] == BitAt(s[i], j)
      requires Prefix(s, i, from) >= 1 && View() == Multiple(Prefix(s, i, from), p, field.m)
      modifies x.data, y.data, z.data
      ensures Valid() && pp.Valid() && pp.View() == p
      ensures Val(s[i..]) >= 1 && View() == Multiple(Val(s[i..]), p, field.m)
    {
      hide Val, Weight, IsBarrettPair, Multiple, Prefix;
      var current := from;
      while current < 32
        invariant Valid() && pp.Valid() && pp.View() == p
        invariant from <= current <= 32
        invariant Prefix(s, i, current) >= 1 && View() == Multiple(Prefix(s, i, current), p, field.m)
      {
        PrefixStep(s, i, current);
        DoubleAndAdd(pp, bin[current], Prefix(s, i, current), p);
        current := current + 1;
      }
      PrefixDone(s, i);
    }

    /** The digits of b below len, most significant first; len is the number of significant digits. */
    method DigitLoop(b: Bignum, len: nat)
      requires Valid() && b.Valid() && b.field == field
      requires b.data !in {x.data, y.data, z.data}
      requires 1 <= len <= b.data.Length && b.data[len - 1] > 0 && Val(b.data[len..]) == 0
      modifies x.data, y.data, z.data
      ensures Valid()
      ensures b.Value() > 0 && View() == Multiple(b.Value(), old(View()), field.m)
    {
      hide Val, Weight, IsBarrettPair, Multiple, Prefix;
      ghost var s, p, m := b.data[..], View(), field.m;
      assert s[len..] == b.data[len..];
      var i := len - 1;
      var bin, current := Binary(b.data[i]);
      PrefixStart(s, i, current);
      var pp := new Point.Copy(this);
      MultipleOne(p, m);
      while true
        invariant 0 <= i < len
        invariant Valid() && pp.Valid() && pp.field == field && pp.View() == p
        invariant fresh(pp.x.data) && fresh(pp.y.data) && fresh(pp.z.data) && fresh(bin) && bin.Length == 32
        invariant b.data[..] == s
        invariant current <= 32
        invariant forall j :: 0 <= j < 32 ==> bin[j] == BitAt(s[i], j)
        invariant Prefix(s, i, current) >= 1 && View() == Multiple(Prefix(s, i, current), p, m)
        decreases i
      {
        DigitBits(pp, bin, current, s, i, p);
        if i == 0 {
          break;
        }
        PrefixDone(s, i);
        assert s[i - 1] == b.data[i - 1];
        var unused;
        bin, unused := Binary(b.data[i - 1]);
        current := 0;
        i := i - 1;
      }
      assert s[0..] == s;
    }

    /** The position after the last nonzero digit of b, or 1. */
    method SignificantDigits(b: Bignum) returns (len: nat)
      requires b.Valid()
      ensures 1 <= len <= b.data.Length && Val(b.data[len..]) == 0
      ensures b.data[len - 1] == 0 ==> b.Value() == 0
    {
      hide Val, Weight, IsBarrettPair;
      ghost var s := b.data[..];
      len := b.data.Length;
      TopZeros(s, len);
      while len > 1 && b.data[len - 1] == 0
        invariant 1 <= len <= b.data.Length
        invariant Val(s[len..]) == 0
      {
        TopZeros(s, len - 1);
        len := len - 1;
      }
      assert s[len..] == b.data[len..];
      if b.data[len - 1] == 0 {
        TopZeros(s, len - 1);
        AllZeros(s, len);
      }
    }

    /** this = b * this, by double-and-add over the bits of b from the most significant one. */
    method MultiplyBy(b: Bignum) returns (ghost w: nat, ghost g: nat)
      requires Valid() && b.Valid() && b.field == field && field.m % 2 == 1
      requires b.data !in {x.data, y.data, z.data}
      modifies x.data, y.data, z.data
      ensures Valid()
      ensures old(b.Value()) == 0 ==> View() == Jacobian(0, 0, 0)
      ensures old(b.Value()) > 0 ==>
        var j := Multiple(old(b.Value()), old(View()), field.m);
        && View() == Jacobian((j.x * (w * w)) % field.m, (j.y * (w * w * w)) % field.m, 1)
        && IsGcd(g, j.z, field.m) && Cong(w * j.z, g, field.m)
    {
      hide Val, Weight, IsBarrettPair, Cong, Multiple, IsGcd;
      var len := SignificantDigits(b);
      if b.data[len - 1] == 0 {
        x.AssignSmall(0);
        y.AssignSmall(0);
        z.AssignSmall(0);
        x.PositiveModulus();
        w, g := 0, 0;
        return;
      }
      DigitLoop(b, len);
      w, g := Normalise();
    }

    lemma Known()
      requires Valid()
      ensures Holds(x, x.Value()) && Holds(y, y.Value()) && Holds(z, z.Value())
    {
      CongRefl(x.Value(), field.m);
      CongRefl(y.Value(), field.m);
      CongRefl(z.Value(), field.m);
    }

    /** The residues the doubling leaves are those of the formula. */
    lemma DoubledResult(x0: nat, y0: nat, z0: nat)
      requires x.field == field && y.field == field && z.field == field
      requires x.data != y.data && x.data != z.data && y.data != z.data
      requires
        var w, s := SlopeExpr(x0, z0), Prod(Prod(Prod(y0, y0), x0), 4);
        var x1 := Diff(Prod(w, w), Prod(s, 2));
        && Holds(x, x1)
        && Holds(y, Diff(Prod(Diff(s, x1), w), Prod(Prod(Prod(y0, y0), Prod(y0, y0)), 8)))
        && Holds(z, Prod(Prod(z0, y0), 2))
      ensures Valid() && View() == Doubled(Jacobian(x0, y0, z0), field.m)
    {
      hide Cong, Val, Weight, IsBarrettPair;
      var m := field.m;
      var w, s, e := DoubleSlope(x0, z0), 4 * (x0 * (y0 * y0)), 8 * ((y0 * y0) * (y0 * y0));
      SlopeExprIs(x0, z0);
      assert ((y0 * y0) * x0) * 4 == s;
      HoldsResidue(x, w * w - 2 * s);
      HoldsResidue(z, 2 * (y0 * z0));
      CongRefl((s - (w * w - 2 * s)) * w - e, m);
      HoldsResidue(y, (s - (w * w - 2 * s)) * w - e);
      ReduceInside(s, w * w - 2 * s, w, e, (s - (w * w - 2 * s)) * w - e, m);
      CongResidue((s - (w * w - 2 * s) % m) * w - e, (s - (w * w - 2 * s)) * w - e, m);
    }
  }

  ghost function SlopeExpr(x: int, z: int): int {
    Prod(Prod(Diff(x, Prod(z, z)), Sum(Prod(z, z), x)), 3)
  }

  lemma SlopeExprIs(x: int, z: int)
    ensures SlopeExpr(x, z) == DoubleSlope(x, z)
  {
  }

  lemma AddedAlgebra(x0: int, y0: int, z0: int, qx: int, qy: int, h: int, r: int, x1: int)
    requires h == Diff(Prod(Prod(z0, z0), qx), x0) && r == Diff(Prod(Prod(Prod(z0, z0), z0), qy), y0)
    requires x1 == Diff(Prod(r, r), Sum(Prod(Prod(h, h), h), Prod(Prod(Prod(h, h), 2), x0)))
    ensures h == qx * (z0 * z0) - x0 && r == qy * (z0 * z0 * z0) - y0
    ensures x1 == r * r - (h * h * h + 2 * (h * h) * x0)
    ensures Diff(Prod(Diff(Prod(Prod(h, h), x0), x1), r), Prod(Prod(Prod(h, h), y0), h))
         == (x0 * (h * h) - x1) * r - y0 * (h * h * h)
  {
    assert (h * h) * x0 == x0 * (h * h);
    assert (h * h) * y0 * h == y0 * (h * h * h);
    assert ((h * h) * 2) * x0 == 2 * (h * h) * x0;
  }

  lemma HoldsValid(a: Bignum, e: int)
    requires Holds(a, e)
    ensures a.Valid()
  {
  }

  lemma HoldsResidue(a: Bignum, e: int)
    requires Holds(a, e)
    ensures a.Value() == e % a.field.m
  {
    hide Cong, Val, Weight, IsBarrettPair;
    CongResidue(a.Value(), e, a.field.m);
    SmallMod(a.Value(), a.field.m);
  }

  lemma TracksIsCong(w: int, z: int, g: int, m: nat)
    requires Tracks(w, z, g, m)
    ensures Cong(w * z, g, m)
  {
  }

  lemma CongReflHolds(a: Bignum, e: nat)
    requires a.Valid() && a.Value() == e < a.field.m
    ensures Holds(a, e)
  {
    CongRefl(e, a.field.m);
  }

  lemma MultipleOne(p: Jacobian, m: nat)
    requires m > 0
    ensures Multiple(1, p, m) == p
  {
  }

  lemma MultipleStep(k: nat, bit: bool, p: Jacobian, m: nat)
    requires m > 0 && k >= 1
    ensures var d := Doubled(Multiple(k, p, m), m);
      Multiple(2 * k + (if bit then 1 else 0), p, m) == if bit then Added(d, Affine(p.x, p.y), m) else d
  {
    hide Doubled, Added;
    assert (2 * k + 1) / 2 == k && (2 * k) / 2 == k;
  }

  lemma TopZeros(s: seq<Digit>, i: nat)
    requires i <= |s| && (i == |s| || (s[i] == 0 && Val(s[i + 1..]) == 0))
    ensures Val(s[i..]) == 0
  {
    if i < |s| {
      assert s[i..][1..] == s[i + 1..];
    }
  }

  lemma AllZeros(s: seq<Digit>, len: nat)
    requires len == 1 <= |s| && Val(s[0..]) == 0
    ensures Val(s) == 0
  {
    assert s[0..] == s;
  }

  lemma PrefixStart(s: seq<Digit>, i: nat, t: nat)
    requires i < |s| && t <= 32 && Val(s[i + 1..]) == 0 && TopBits(s[i], t) == 1
    ensures Prefix(s, i, t) == 1
  {
  }

  /** b * P as the key exchange uses it: with b > 0 and z = 1, the result is the affine point the group law gives for b,
      if no step degenerates. */
  lemma MultiplicationCorrect(b: nat, p: Jacobian, aff: nat -> Affine, w: nat, g: nat, m: nat)
    requires m > 0 && b >= 1 && p.z == 1 && aff(1) == Affine(p.x, p.y) && Multiples(aff, b, m)
    requires IsGcd(g, Multiple(b, p, m).z, m) && Cong(w * Multiple(b, p, m).z, g, m)
    ensures var j := Multiple(b, p, m);
      && (j.x * (w * w)) % m == aff(b).x % m
      && (j.y * (w * w * w)) % m == aff(b).y % m
  {
    hide Cong, Unit, IsGcd, Multiples;
    var j := Multiple(b, p, m);
    MultipleRepresents(b, p, aff, m);
    UnitCoprime(j.z, g, m);
    Normalised(j, aff(b), w, m);
  }

  /** No step degenerated exactly when the last z is coprime to the modulus: g is the divisor invert() ends with. */
  lemma DegeneratesExactly(b: nat, p: Jacobian, w: nat, g: nat, m: nat)
    requires m > 0 && b >= 1 && p.z == 1
    requires IsGcd(g, Multiple(b, p, m).z, m) && Cong(w * Multiple(b, p, m).z, g, m)
    ensures (exists aff: nat -> Affine :: aff(1) == Affine(p.x, p.y) && Multiples(aff, b, m)) <==> g == 1
  {
    hide Cong, IsGcd, Multiples, Multiple;
    var z := Multiple(b, p, m).z;
    ListingExactly(b, p, m);
    if g == 1 {
      assert Cong(z * w, 1, m);
    } else if Unit(z, m) {
      UnitCoprime(z, g, m);
    }
  }
}
