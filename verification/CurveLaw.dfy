/** The affine group law of a curve with a = -3 and the Jacobian formulas that refine it. */
module CurveLaw {
  import opened Divisibility
  import opened Congruence

  datatype Affine = Affine(x: int, y: int)

  datatype Jacobian = Jacobian(x: nat, y: nat, z: nat)

  // ---------------------------------------------------------------------
  // Section 2.2.1 of SEC 1, cross-multiplied: tangent and chord
  // ---------------------------------------------------------------------

  /** r is p + p: the tangent at p has slope l with 2y * l = 3x^2 - 3. */
  ghost predicate TangentSum(p: Affine, r: Affine, l: int, m: nat) {
    && Cong(l * (2 * p.y), 3 * (p.x * p.x) - 3, m)
    && Cong(r.x, l * l - 2 * p.x, m)
    && Cong(r.y, l * (p.x - r.x) - p.y, m)
  }

  /** r is p + q: the chord has slope l with (x_q - x_p) * l = y_q - y_p. */
  ghost predicate ChordSum(p: Affine, q: Affine, r: Affine, l: int, m: nat) {
    && Cong(l * (q.x - p.x), q.y - p.y, m)
    && Cong(r.x, l * l - p.x - q.x, m)
    && Cong(r.y, l * (p.x - r.x) - p.y, m)
  }

  ghost predicate IsDouble(p: Affine, r: Affine, m: nat) {
    Unit(2 * p.y, m) && exists l: int :: TangentSum(p, r, l, m)
  }

  ghost predicate IsSum(p: Affine, q: Affine, r: Affine, m: nat) {
    Unit(q.x - p.x, m) && exists l: int :: ChordSum(p, q, r, l, m)
  }

  /** j stands for the affine point p: x = X z^2 and y = Y z^3, with z invertible. */
  ghost predicate Represents(j: Jacobian, p: Affine, m: nat) {
    && Unit(j.z, m)
    && Cong(j.x, p.x * (j.z * j.z), m)
    && Cong(j.y, p.y * (j.z * j.z * j.z), m)
  }

  // ---------------------------------------------------------------------
  // The Jacobian formulas
  // ---------------------------------------------------------------------

  function DoubleSlope(x: int, z: int): int {
    3 * ((x - z * z) * (x + z * z))
  }

  function Doubled(p: Jacobian, m: nat): Jacobian
    requires m > 0
  {
    var w := DoubleSlope(p.x, p.z);
    var s := 4 * (p.x * (p.y * p.y));
    var x := (w * w - 2 * s) % m;
    Jacobian(x, ((s - x) * w - 8 * ((p.y * p.y) * (p.y * p.y))) % m, (2 * (p.y * p.z)) % m)
  }

  /** p plus the affine point q. */
  function Added(p: Jacobian, q: Affine, m: nat): Jacobian
    requires m > 0
  {
    var h := q.x * (p.z * p.z) - p.x;
    var r := q.y * (p.z * p.z * p.z) - p.y;
    var x := (r * r - (h * h * h + 2 * (h * h) * p.x)) % m;
    Jacobian(x, ((p.x * (h * h) - x) * r - p.y * (h * h * h)) % m, (p.z * h) % m)
  }

  // ---------------------------------------------------------------------
  // The formulas stand for the group law
  // ---------------------------------------------------------------------

  /** 3 (x - z^2)(x + z^2) is the slope times the new z. */
  lemma DoubleSlopeIs(p: Jacobian, a: Affine, l: int, m: nat)
    requires Represents(p, a, m) && Cong(l * (2 * a.y), 3 * (a.x * a.x) - 3, m)
    ensures Cong(DoubleSlope(p.x, p.z), l * (2 * (p.y * p.z)), m)
  {
    var z2, z3 := p.z * p.z, p.z * p.z * p.z;
    var z4 := z2 * z2;
    hide Cong;
    // x^2 = X^2 z^4
    CongMul(p.x, a.x * z2, p.x, a.x * z2, m);
    CongRefl(z4, m);
    CongAdd(p.x * p.x, (a.x * z2) * (a.x * z2), z4, z4, m);
    CongRefl(3, m);
    CongMul(3, 3, p.x * p.x - z4, (a.x * z2) * (a.x * z2) - z4, m);
    SlopeLeft(p.x, z2);
    SlopeMiddle(a.x, z2);
    // z^4 (3X^2 - 3) = z^4 (2 Y l)
    CongSym(l * (2 * a.y), 3 * (a.x * a.x) - 3, m);
    CongMul(z4, z4, 3 * (a.x * a.x) - 3, l * (2 * a.y), m);
    // 2 y z l = 2 Y z^4 l
    CongRefl(l * (2 * p.z), m);
    CongMul(l * (2 * p.z), l * (2 * p.z), p.y, a.y * z3, m);
    SlopeRight(l, p.y, p.z, a.y);
    CongSym(l * (2 * (p.y * p.z)), z4 * (l * (2 * a.y)), m);
    CongTrans(DoubleSlope(p.x, p.z), z4 * (3 * (a.x * a.x) - 3), z4 * (l * (2 * a.y)), m);
    CongTrans(DoubleSlope(p.x, p.z), z4 * (l * (2 * a.y)), l * (2 * (p.y * p.z)), m);
  }

  lemma SlopeLeft(x: int, z2: int)
    ensures 3 * (x * x - z2 * z2) == 3 * ((x - z2) * (x + z2))
  {
  }

  lemma SlopeMiddle(X: int, z2: int)
    ensures 3 * ((X * z2) * (X * z2) - z2 * z2) == (z2 * z2) * (3 * (X * X) - 3)
  {
    assert (X * z2) * (X * z2) == (z2 * z2) * (X * X);
  }

  lemma SlopeRight(l: int, y: int, z: int, Y: int)
    ensures l * (2 * z) * y == l * (2 * (y * z))
    ensures l * (2 * z) * (Y * (z * z * z)) == ((z * z) * (z * z)) * (l * (2 * Y))
  {
    assert l * (2 * z) * (Y * (z * z * z)) == 2 * (l * Y * (z * (z * z * z)));
    assert z * (z * z * z) == (z * z) * (z * z);
    assert ((z * z) * (z * z)) * (l * (2 * Y)) == 2 * (l * Y * ((z * z) * (z * z)));
  }

  /** A y coordinate assembled from the slope, as both formulas do it. */
  lemma AssembleY(w: int, l: int, z: int, s: int, e: int, x: int, p: Affine, r: Affine, m: nat)
    requires Cong(w, l * z, m) && Cong(s, p.x * (z * z), m) && Cong(e, p.y * (z * z * z), m)
    requires Cong(x, r.x * (z * z), m) && Cong(r.y, l * (p.x - r.x) - p.y, m)
    ensures Cong((s - x) * w - e, r.y * (z * z * z), m)
  {
    hide Cong;
    var z2, z3 := z * z, z * z * z;
    CongAdd(s, p.x * z2, x, r.x * z2, m);
    CongMul(s - x, p.x * z2 - r.x * z2, w, l * z, m);
    CongAdd((s - x) * w, (p.x * z2 - r.x * z2) * (l * z), e, p.y * z3, m);
    AssembleArith(p.x, r.x, p.y, l, z);
    CongSym(r.y, l * (p.x - r.x) - p.y, m);
    CongRefl(z3, m);
    CongMul(l * (p.x - r.x) - p.y, r.y, z3, z3, m);
    CongTrans((s - x) * w - e, (l * (p.x - r.x) - p.y) * z3, r.y * z3, m);
  }

  lemma AssembleArith(X: int, X': int, Y: int, l: int, z: int)
    ensures (X * (z * z) - X' * (z * z)) * (l * z) - Y * (z * z * z) == (l * (X - X') - Y) * (z * z * z)
  {
    assert (X * (z * z) - X' * (z * z)) * (l * z) == (X - X') * (z * z) * (l * z);
    assert (X - X') * (z * z) * (l * z) == (l * (X - X')) * (z * z * z);
  }

  /** An x coordinate w^2 - t with w = l z and t = c z^2 is (l^2 - c) z^2. */
  lemma AssembleX(w: int, l: int, z: int, t: int, c: int, r: Affine, m: nat)
    requires Cong(w, l * z, m) && Cong(t, c * (z * z), m) && Cong(r.x, l * l - c, m)
    ensures Cong(w * w - t, r.x * (z * z), m)
  {
    hide Cong;
    CongMul(w, l * z, w, l * z, m);
    CongAdd(w * w, (l * z) * (l * z), t, c * (z * z), m);
    assert (l * z) * (l * z) - c * (z * z) == (l * l - c) * (z * z);
    CongSym(r.x, l * l - c, m);
    CongRefl(z * z, m);
    CongMul(l * l - c, r.x, z * z, z * z, m);
    CongTrans(w * w - t, (l * l - c) * (z * z), r.x * (z * z), m);
  }

  /** Reducing the three coordinates keeps the point. */
  lemma Reduce(x: int, y: int, z: int, r: Affine, m: nat)
    requires m > 0 && Unit(z, m)
    requires Cong(x, r.x * (z * z), m) && Cong(y, r.y * (z * z * z), m)
    ensures Represents(Jacobian(x % m, y % m, z % m), r, m)
  {
    hide Cong;
    var z' := z % m;
    CongMod(x, m);
    CongMod(y, m);
    CongMod(z, m);
    CongSym(z', z, m);
    UnitCong(z, z', m);
    CongMul(z, z', z, z', m);
    CongMul(z * z, z' * z', z, z', m);
    CongRefl(r.x, m);
    CongRefl(r.y, m);
    CongMul(r.x, r.x, z * z, z' * z', m);
    CongMul(r.y, r.y, z * z * z, z' * z' * z', m);
    CongTrans(x % m, x, r.x * (z * z), m);
    CongTrans(x % m, r.x * (z * z), r.x * (z' * z'), m);
    CongTrans(y % m, y, r.y * (z * z * z), m);
    CongTrans(y % m, r.y * (z * z * z), r.y * (z' * z' * z'), m);
  }

  /** Replacing the unreduced x by its residue inside the y formula changes nothing modulo m. */
  lemma ReduceInside(s: int, x: int, w: int, e: int, y: int, m: nat)
    requires m > 0 && Cong((s - x) * w - e, y, m)
    ensures Cong((s - x % m) * w - e, y, m)
  {
    hide Cong;
    CongMod(x, m);
    CongRefl(s, m);
    CongAdd(s, s, x % m, x, m);
    CongRefl(w, m);
    CongMul(s - x % m, s - x, w, w, m);
    CongRefl(e, m);
    CongAdd((s - x % m) * w, (s - x) * w, e, e, m);
    CongTrans((s - x % m) * w - e, (s - x) * w - e, y, m);
  }

  lemma DoubleParts(p: Jacobian, a: Affine, m: nat)
    requires Represents(p, a, m)
    ensures var z := 2 * (p.y * p.z);
      && Cong(4 * (p.x * (p.y * p.y)), a.x * (z * z), m)
      && Cong(8 * ((p.y * p.y) * (p.y * p.y)), a.y * (z * z * z), m)
  {
    var z := 2 * (p.y * p.z);
    var y2 := p.y * p.y;
    hide Cong;
    CongRefl(4 * y2, m);
    CongMul(4 * y2, 4 * y2, p.x, a.x * (p.z * p.z), m);
    assert (4 * y2) * p.x == 4 * (p.x * y2);
    SquareArith(a.x, p.y, p.z);
    CongRefl(8 * (y2 * p.y), m);
    CongMul(8 * (y2 * p.y), 8 * (y2 * p.y), p.y, a.y * (p.z * p.z * p.z), m);
    assert 8 * (y2 * p.y) * p.y == 8 * (y2 * y2);
    CubeArith(a.y, p.y, p.z);
  }

  lemma SquareArith(X: int, y: int, z: int)
    ensures (4 * (y * y)) * (X * (z * z)) == X * ((2 * (y * z)) * (2 * (y * z)))
  {
    assert (2 * (y * z)) * (2 * (y * z)) == 4 * ((y * y) * (z * z));
    assert X * ((y * y) * (z * z)) == (y * y) * (X * (z * z));
  }

  lemma CubeArith(Y: int, y: int, z: int)
    ensures (8 * ((y * y) * y)) * (Y * (z * z * z)) == Y * ((2 * (y * z)) * (2 * (y * z)) * (2 * (y * z)))
  {
    var t := y * z;
    assert (2 * t) * (2 * t) * (2 * t) == 8 * (t * t * t);
    assert t * t * t == ((y * y) * y) * (z * z * z) by {
      assert t * t == (y * y) * (z * z);
      assert (y * y) * (z * z) * (y * z) == ((y * y) * y) * ((z * z) * z);
    }
    assert Y * (((y * y) * y) * (z * z * z)) == ((y * y) * y) * (Y * (z * z * z));
  }

  /** jacobian_double gives the tangent result. */
  lemma DoubledRepresents(p: Jacobian, a: Affine, r: Affine, m: nat)
    requires m > 0 && Represents(p, a, m) && IsDouble(a, r, m)
    ensures Represents(Doubled(p, m), r, m)
  {
    var l: int :| TangentSum(a, r, l, m);
    var z, w, s := 2 * (p.y * p.z), DoubleSlope(p.x, p.z), 4 * (p.x * (p.y * p.y));
    var e := 8 * ((p.y * p.y) * (p.y * p.y));
    DoubleSlopeIs(p, a, l, m);
    DoubleParts(p, a, m);
    hide Cong, DoubleSlope;
    CongRefl(2, m);
    CongMul(2, 2, s, a.x * (z * z), m);
    assert 2 * (a.x * (z * z)) == (2 * a.x) * (z * z);
    AssembleX(w, l, z, 2 * s, 2 * a.x, r, m);
    AssembleY(w, l, z, s, e, w * w - 2 * s, a, r, m);
    ReduceInside(s, w * w - 2 * s, w, e, r.y * (z * z * z), m);
    DoubleUnit(p, a, m);
    Reduce(w * w - 2 * s, (s - (w * w - 2 * s) % m) * w - e, z, r, m);
  }

  /** 2yz is invertible because 2Y and z are. */
  lemma DoubleUnit(p: Jacobian, a: Affine, m: nat)
    requires Represents(p, a, m) && Unit(2 * a.y, m)
    ensures Unit(2 * (p.y * p.z), m)
  {
    hide Cong, Unit;
    var z3 := p.z * p.z * p.z;
    UnitMul(p.z, p.z, m);
    UnitMul(p.z * p.z, p.z, m);
    UnitMul(2 * a.y, z3, m);
    UnitMul((2 * a.y) * z3, p.z, m);
    CongSym(p.y, a.y * z3, m);
    CongRefl(2 * p.z, m);
    CongMul(2 * p.z, 2 * p.z, a.y * z3, p.y, m);
    assert (2 * p.z) * (a.y * z3) == ((2 * a.y) * z3) * p.z;
    assert (2 * p.z) * p.y == 2 * (p.y * p.z);
    UnitCong(((2 * a.y) * z3) * p.z, 2 * (p.y * p.z), m);
  }

  /** q.x z^2 - x is (X_q - X) z^2 and q.y z^3 - y is (Y_q - Y) z^3. */
  lemma Differences(p: Jacobian, a: Affine, q: Affine, m: nat)
    requires Represents(p, a, m)
    ensures Cong(q.x * (p.z * p.z) - p.x, (q.x - a.x) * (p.z * p.z), m)
    ensures Cong(q.y * (p.z * p.z * p.z) - p.y, (q.y - a.y) * (p.z * p.z * p.z), m)
  {
    hide Cong;
    var z2, z3 := p.z * p.z, p.z * p.z * p.z;
    CongRefl(q.x * z2, m);
    CongRefl(q.y * z3, m);
    CongAdd(q.x * z2, q.x * z2, p.x, a.x * z2, m);
    CongAdd(q.y * z3, q.y * z3, p.y, a.y * z3, m);
    assert q.x * z2 - a.x * z2 == (q.x - a.x) * z2;
    assert q.y * z3 - a.y * z3 == (q.y - a.y) * z3;
  }

  /** The difference of the y's is the slope times the new z. */
  lemma AddSlopeIs(h: int, d: int, z: int, dx: int, dy: int, l: int, m: nat)
    requires Cong(h, dx * (z * z), m) && Cong(d, dy * (z * z * z), m) && Cong(l * dx, dy, m)
    ensures Cong(d, l * (z * h), m)
  {
    hide Cong;
    var z3 := z * z * z;
    CongRefl(z3, m);
    CongSym(l * dx, dy, m);
    CongMul(dy, l * dx, z3, z3, m);
    CongTrans(d, dy * z3, (l * dx) * z3, m);
    CongSym(h, dx * (z * z), m);
    CongRefl(l * z, m);
    CongMul(l * z, l * z, dx * (z * z), h, m);
    assert (l * dx) * z3 == (l * z) * (dx * (z * z)) by {
      assert (l * z) * (dx * (z * z)) == (l * dx) * (z * (z * z));
    }
    assert (l * z) * h == l * (z * h);
    CongTrans(d, (l * dx) * z3, l * (z * h), m);
  }

  lemma AddParts(x: int, y: int, z: int, h: int, a: Affine, qx: int, m: nat)
    requires Cong(x, a.x * (z * z), m) && Cong(y, a.y * (z * z * z), m)
    requires Cong(h, (qx - a.x) * (z * z), m)
    ensures Cong(h * h * h + 2 * (h * h) * x, (a.x + qx) * ((z * h) * (z * h)), m)
    ensures Cong(x * (h * h), a.x * ((z * h) * (z * h)), m)
    ensures Cong(y * (h * h * h), a.y * ((z * h) * (z * h) * (z * h)), m)
  {
    hide Cong;
    var h2, h3, z2, z3 := h * h, h * h * h, z * z, z * z * z;
    CongRefl(h2, m);
    CongRefl(h3, m);
    CongMul(x, a.x * z2, h2, h2, m);
    CongMul(y, a.y * z3, h3, h3, m);
    AddPartsArith(a.x, a.y, qx, z, h);
    CongMul(h2, h2, h, (qx - a.x) * z2, m);
    CongRefl(2 * h2, m);
    CongMul(2 * h2, 2 * h2, x, a.x * z2, m);
    CongAdd(h2 * h, h2 * ((qx - a.x) * z2), 2 * h2 * x, 2 * h2 * (a.x * z2), m);
  }

  lemma AddPartsArith(X: int, Y: int, Q: int, z: int, h: int)
    ensures X * (z * z) * (h * h) == X * ((z * h) * (z * h))
    ensures Y * (z * z * z) * (h * h * h) == Y * ((z * h) * (z * h) * (z * h))
    ensures (h * h) * ((Q - X) * (z * z)) + 2 * (h * h) * (X * (z * z)) == (X + Q) * ((z * h) * (z * h))
  {
    var t, z2h2 := z * h, (z * z) * (h * h);
    assert t * t == z2h2;
    assert X * (z * z) * (h * h) == X * z2h2;
    assert t * t * t == (z * z * z) * (h * h * h) by {
      assert z2h2 * (z * h) == ((z * z) * z) * ((h * h) * h);
    }
    assert Y * (z * z * z) * (h * h * h) == Y * ((z * z * z) * (h * h * h));
    assert (h * h) * ((Q - X) * (z * z)) == (Q - X) * z2h2;
    assert 2 * (h * h) * (X * (z * z)) == 2 * X * z2h2;
    assert (Q - X) * z2h2 + 2 * X * z2h2 == (X + Q) * z2h2;
  }

  /** add_jacobian_affine gives the chord result. */
  lemma AddedRepresents(p: Jacobian, a: Affine, q: Affine, r: Affine, m: nat)
    requires m > 0 && Represents(p, a, m) && IsSum(a, q, r, m)
    ensures Represents(Added(p, q, m), r, m)
  {
    var l: int :| ChordSum(a, q, r, l, m);
    var h := q.x * (p.z * p.z) - p.x;
    var d := q.y * (p.z * p.z * p.z) - p.y;
    var z, t, s, e := p.z * h, h * h * h + 2 * (h * h) * p.x, p.x * (h * h), p.y * (h * h * h);
    hide Cong, Unit;
    Differences(p, a, q, m);
    AddSlopeIs(h, d, p.z, q.x - a.x, q.y - a.y, l, m);
    AddParts(p.x, p.y, p.z, h, a, q.x, m);
    assert l * l - a.x - q.x == l * l - (a.x + q.x);
    AssembleX(d, l, z, t, a.x + q.x, r, m);
    AssembleY(d, l, z, s, e, d * d - t, a, r, m);
    ReduceInside(s, d * d - t, d, e, r.y * (z * z * z), m);
    UnitMul(p.z, p.z, m);
    UnitMul(q.x - a.x, p.z * p.z, m);
    CongSym(h, (q.x - a.x) * (p.z * p.z), m);
    UnitCong((q.x - a.x) * (p.z * p.z), h, m);
    UnitMul(p.z, h, m);
    Reduce(d * d - t, (s - (d * d - t) % m) * d - e, z, r, m);
  }

  // ---------------------------------------------------------------------
  // The group law stays on the curve
  // ---------------------------------------------------------------------

  function Cubic(x: int, b: int): int {
    x * x * x - 3 * x + b
  }

  /** p is a point of y^2 = x^3 - 3x + b. */
  ghost predicate OnCurve(p: Affine, b: int, m: nat) {
    Cong(p.y * p.y, Cubic(p.x, b), m)
  }

  lemma CubicCong(x: int, x': int, b: int, m: nat)
    requires Cong(x, x', m)
    ensures Cong(Cubic(x, b), Cubic(x', b), m)
  {
    hide Cong;
    CongMul(x, x', x, x', m);
    CongMul(x * x, x' * x', x, x', m);
    CongRefl(3, m);
    CongMul(3, 3, x, x', m);
    CongAdd(x * x * x, x' * x' * x', 3 * x, 3 * x', m);
    CongRefl(b, m);
    CongAdd(x * x * x - 3 * x, x' * x' * x' - 3 * x', b, b, m);
  }

  lemma SameOnCurve(p: Affine, q: Affine, b: int, m: nat)
    requires Cong(p.x, q.x, m) && Cong(p.y, q.y, m)
    ensures OnCurve(q, b, m) ==> OnCurve(p, b, m)
  {
    var x, y := q.x, q.y;
    if !OnCurve(q, b, m) {
      return;
    }
    hide Cong, Cubic;
    CubicCong(p.x, x, b, m);
    CongSym(Cubic(p.x, b), Cubic(x, b), m);
    CongMul(p.y, y, p.y, y, m);
    CongTrans(p.y * p.y, y * y, Cubic(x, b), m);
    CongTrans(p.y * p.y, Cubic(x, b), Cubic(p.x, b), m);
  }

  /** The third point of a line of slope l through p, mirrored: h to the right of p. */
  lemma LineEnd(p: Affine, r: Affine, l: int, h: int, m: nat)
    requires Cong(r.x, p.x + h, m) && Cong(r.y, l * (p.x - r.x) - p.y, m)
    ensures Cong(r.y, -(l * h + p.y), m)
  {
    hide Cong;
    CongRefl(p.x, m);
    CongAdd(p.x, p.x, r.x, p.x + h, m);
    CongRefl(l, m);
    CongMul(l, l, p.x - r.x, p.x - (p.x + h), m);
    CongRefl(p.y, m);
    CongAdd(l * (p.x - r.x), l * (p.x - (p.x + h)), p.y, p.y, m);
    assert l * (p.x - (p.x + h)) - p.y == -(l * h + p.y);
    CongTrans(r.y, l * (p.x - r.x) - p.y, -(l * h + p.y), m);
  }

  /** On the line, h to the right of (x, y), the curve is missed by h times a factor, besides what (x, y)
      misses it by. */
  lemma LineMiss(x: int, y: int, l: int, h: int, u: int, b: int)
    requires u == l * l - h - 3 * x
    ensures (l * h + y) * (l * h + y) - Cubic(x + h, b)
         == h * (h * u + 2 * (l * y) - 3 * (x * x) + 3) + (y * y - Cubic(x, b))
  {
  }

  /** So the mirrored end of the line is on the curve where the modulus divides the factor. */
  lemma LineOnCurve(p: Affine, r: Affine, l: int, h: int, w: int, b: int, m: nat)
    requires OnCurve(p, b, m) && Divides(m, w)
    requires w == h * (l * l - h - 3 * p.x) + 2 * (l * p.y) - 3 * (p.x * p.x) + 3
    requires Cong(r.x, p.x + h, m) && Cong(r.y, l * (p.x - r.x) - p.y, m)
    ensures OnCurve(r, b, m)
  {
    hide Cubic;
    var e := p.y * p.y - Cubic(p.x, b);
    LineEnd(p, r, l, h, m);
    LineMiss(p.x, p.y, l, h, l * l - h - 3 * p.x, b);
    DividesScale(m, w, h);
    DividesSum(m, h * w, e);
    MinusSquare(l * h + p.y);
    SameOnCurve(r, Affine(p.x + h, -(l * h + p.y)), b, m);
  }

  lemma MinusSquare(y: int)
    ensures (-y) * (-y) == y * y
  {
  }

  /** The tangent result is on the curve. */
  lemma DoubleOnCurve(p: Affine, r: Affine, b: int, m: nat)
    requires OnCurve(p, b, m) && IsDouble(p, r, m)
    ensures OnCurve(r, b, m)
  {
    hide OnCurve;
    var l: int :| TangentSum(p, r, l, m);
    var h := l * l - 3 * p.x;
    var d := l * (2 * p.y) - (3 * (p.x * p.x) - 3);
    assert h * (l * l - h - 3 * p.x) == h * 0;
    LineOnCurve(p, r, l, h, d, b, m);
  }

  /** The factor by which a chord misses the curve, times the distance of its ends. */
  lemma ChordMiss(x1: int, y1: int, x2: int, y2: int, l: int, b: int)
    ensures var u, h, d := x2 - x1, l * l - 2 * x1 - x2, l * (x2 - x1) - (y2 - y1);
      u * (h * u + 2 * (l * y1) - 3 * (x1 * x1) + 3)
      == (y2 * y2 - Cubic(x2, b)) - (y1 * y1 - Cubic(x1, b)) + (d + 2 * y2) * d
  {
  }

  /** Between two points of the curve that factor vanishes. */
  lemma ChordFactor(p: Affine, q: Affine, l: int, w: int, b: int, m: nat)
    requires OnCurve(p, b, m) && OnCurve(q, b, m) && Unit(q.x - p.x, m)
    requires Cong(l * (q.x - p.x), q.y - p.y, m)
    requires w == (l * l - 2 * p.x - q.x) * (q.x - p.x) + 2 * (l * p.y) - 3 * (p.x * p.x) + 3
    ensures Divides(m, w)
  {
    hide Cubic;
    var d := l * (q.x - p.x) - (q.y - p.y);
    var e, f := p.y * p.y - Cubic(p.x, b), q.y * q.y - Cubic(q.x, b);
    ChordMiss(p.x, p.y, q.x, q.y, l, b);
    DividesScale(m, d, d + 2 * q.y);
    DividesSum(m, f, e);
    DividesSum(m, f - e, (d + 2 * q.y) * d);
    UnitCancel(q.x - p.x, w, m);
  }

  /** The chord result is on the curve. */
  lemma SumOnCurve(p: Affine, q: Affine, r: Affine, b: int, m: nat)
    requires OnCurve(p, b, m) && OnCurve(q, b, m) && IsSum(p, q, r, m)
    ensures OnCurve(r, b, m)
  {
    hide OnCurve;
    var l: int :| ChordSum(p, q, r, l, m);
    var h := l * l - 2 * p.x - q.x;
    var w := h * (l * l - h - 3 * p.x) + 2 * (l * p.y) - 3 * (p.x * p.x) + 3;
    assert l * l - h - 3 * p.x == q.x - p.x;
    ChordFactor(p, q, l, w, b, m);
    LineOnCurve(p, r, l, h, w, b, m);
  }

  lemma UnitCancel(u: int, w: int, m: nat)
    requires Unit(u, m) && Divides(m, u * w)
    ensures Divides(m, w)
  {
    var v: int :| Cong(u * v, 1, m);
    DividesScale(m, u * w, v);
    DividesScale(m, u * v - 1, w);
    DividesSum(m, v * (u * w), w * (u * v - 1));
    assert v * (u * w) - w * (u * v - 1) == w;
  }

  // ---------------------------------------------------------------------
  // Scalar multiples
  // ---------------------------------------------------------------------

  /** Double-and-add from the most significant bit of k. */
  function Multiple(k: nat, p: Jacobian, m: nat): Jacobian
    requires m > 0 && k >= 1
  {
    if k == 1 then p
    else
      var d := Doubled(Multiple(k / 2, p, m), m);
      if k % 2 == 0 then d else Added(d, Affine(p.x, p.y), m)
  }

  /** aff lists the multiples of aff(1) that lead up to k: each is what the group law makes of earlier ones, and none of
      these steps degenerates. */
  ghost predicate Multiples(aff: nat -> Affine, k: nat, m: nat) {
    k <= 1 || (StepsTo(aff, k / 2, k, m) && Multiples(aff, k / 2, m))
  }

  ghost predicate StepsTo(aff: nat -> Affine, j: nat, i: nat, m: nat) {
    && IsDouble(aff(j), aff(2 * j), m)
    && (i == 2 * j + 1 ==> IsSum(aff(2 * j), aff(1), aff(i), m))
  }

  lemma {:induction false} MultipleRepresents(k: nat, p: Jacobian, aff: nat -> Affine, m: nat)
    requires m > 0 && k >= 1 && p.z == 1 && aff(1) == Affine(p.x, p.y)
    requires Multiples(aff, k, m)
    ensures Represents(Multiple(k, p, m), aff(k), m)
  {
    hide Cong, IsDouble, IsSum, Doubled, Added, Represents;
    if k == 1 {
      StartRepresents(p, m);
    } else {
      var h := k / 2;
      assert StepsTo(aff, h, k, m);
      MultipleRepresents(h, p, aff, m);
      DoubledRepresents(Multiple(h, p, m), aff(h), aff(2 * h), m);
      if k % 2 == 1 {
        AddedRepresents(Doubled(Multiple(h, p, m), m), aff(2 * h), aff(1), aff(k), m);
      }
    }
  }

  /** A tangent exists where 2y is invertible. */
  lemma DoubleExists(a: Affine, m: nat) returns (r: Affine)
    requires Unit(2 * a.y, m)
    ensures IsDouble(a, r, m)
  {
    var l := Slope(2 * a.y, 3 * (a.x * a.x) - 3, m);
    var x := l * l - 2 * a.x;
    r := Affine(x, l * (a.x - x) - a.y);
    CongRefl(r.x, m);
    CongRefl(r.y, m);
    assert TangentSum(a, r, l, m);
  }

  /** A chord exists where the difference of the abscissas is invertible. */
  lemma SumExists(a: Affine, q: Affine, m: nat) returns (r: Affine)
    requires Unit(q.x - a.x, m)
    ensures IsSum(a, q, r, m)
  {
    var l := Slope(q.x - a.x, q.y - a.y, m);
    var x := l * l - a.x - q.x;
    r := Affine(x, l * (a.x - x) - a.y);
    CongRefl(r.x, m);
    CongRefl(r.y, m);
    assert ChordSum(a, q, r, l, m);
  }

  lemma Slope(d: int, n: int, m: nat) returns (l: int)
    requires Unit(d, m)
    ensures Cong(l * d, n, m)
  {
    var w: int :| Cong(d * w, 1, m);
    l := w * n;
    CongRefl(n, m);
    CongMul(d * w, 1, n, n, m);
    assert (d * w) * n == l * d;
  }

  /** An invertible z after a doubling: what was doubled has an invertible z, and 2Y is invertible. */
  lemma DoubledBack(j: Jacobian, a: Affine, m: nat)
    requires m > 0 && Unit(Doubled(j, m).z, m)
    ensures Unit(j.z, m)
    ensures Represents(j, a, m) ==> Unit(2 * a.y, m)
  {
    DoubledZ(j, m);
    hide Cong, Unit, Doubled;
    CongMod(2 * (j.y * j.z), m);
    UnitCong(Doubled(j, m).z, 2 * (j.y * j.z), m);
    assert 2 * (j.y * j.z) == (2 * j.y) * j.z;
    UnitFactors(2 * j.y, j.z, m);
    if Represents(j, a, m) {
      UnitScaled(j.y, a.y, j.z * j.z * j.z, m);
    }
  }

  lemma DoubledZ(j: Jacobian, m: nat)
    requires m > 0
    ensures Doubled(j, m).z == 2 * (j.y * j.z) % m
  {
  }

  lemma UnitScaled(y: int, Y: int, t: int, m: nat)
    requires Cong(y, Y * t, m) && Unit(2 * y, m)
    ensures Unit(2 * Y, m)
  {
    hide Cong, Unit;
    CongRefl(2, m);
    CongMul(2, 2, y, Y * t, m);
    UnitCong(2 * y, 2 * (Y * t), m);
    assert 2 * (Y * t) == (2 * Y) * t;
    UnitFactors(2 * Y, t, m);
  }

  /** An invertible z after an addition: the first operand has an invertible z, and the abscissas differ by a unit. */
  lemma AddedBack(j: Jacobian, a: Affine, q: Affine, m: nat)
    requires m > 0 && Unit(Added(j, q, m).z, m)
    ensures Unit(j.z, m)
    ensures Represents(j, a, m) ==> Unit(q.x - a.x, m)
  {
    var h := q.x * (j.z * j.z) - j.x;
    hide Cong, Unit;
    CongMod(j.z * h, m);
    UnitCong(Added(j, q, m).z, j.z * h, m);
    UnitFactors(j.z, h, m);
    if Represents(j, a, m) {
      Differences(j, a, q, m);
      UnitCong(h, (q.x - a.x) * (j.z * j.z), m);
      UnitFactors(q.x - a.x, j.z * j.z, m);
    }
  }

  /** Only the points up to k decide. */
  lemma {:induction false} MultiplesLocal(aff: nat -> Affine, aff': nat -> Affine, k: nat, m: nat)
    requires Multiples(aff, k, m) && forall i :: 1 <= i <= k ==> aff(i) == aff'(i)
    ensures Multiples(aff', k, m)
  {
    hide IsDouble, IsSum;
    if k > 1 {
      MultiplesLocal(aff, aff', k / 2, m);
      assert StepsTo(aff, k / 2, k, m);
    }
  }

  /** The loop's last z tells: if it is invertible, no step on the way degenerated and the group law has a listing. */
  lemma {:induction false} ListingExists(k: nat, p: Jacobian, m: nat) returns (aff: nat -> Affine)
    requires m > 0 && k >= 1 && p.z == 1
    ensures Unit(Multiple(k, p, m).z, m) ==> aff(1) == Affine(p.x, p.y) && Multiples(aff, k, m)
  {
    hide Cong, Unit, IsDouble, IsSum, Doubled, Added, Represents;
    var base := Affine(p.x, p.y);
    if k == 1 || !Unit(Multiple(k, p, m).z, m) {
      aff := (i: nat) => base;
    } else {
      var h, j := k / 2, Multiple(k / 2, p, m);
      var d := Doubled(j, m);
      if k % 2 == 1 {
        AddedBack(d, base, base, m);
      }
      DoubledBack(j, base, m);
      var first := ListingExists(h, p, m);
      MultipleRepresents(h, p, first, m);
      DoubledBack(j, first(h), m);
      var twice := DoubleExists(first(h), m);
      var last := twice;
      if k % 2 == 1 {
        DoubledRepresents(j, first(h), twice, m);
        AddedBack(d, twice, base, m);
        last := SumExists(twice, base, m);
      }
      aff := (i: nat) => if i == k then last else if i == 2 * h then twice else first(i);
      MultiplesLocal(first, aff, h, m);
      assert StepsTo(aff, h, k, m);
    }
  }

  /** No step of the double-and-add of k degenerates exactly when it ends with an invertible z. */
  lemma ListingExactly(k: nat, p: Jacobian, m: nat)
    requires m > 0 && k >= 1 && p.z == 1
    ensures (exists aff: nat -> Affine :: aff(1) == Affine(p.x, p.y) && Multiples(aff, k, m)) <==>
            Unit(Multiple(k, p, m).z, m)
  {
    hide Unit, Multiples, Multiple, Cong;
    if aff: nat -> Affine :| aff(1) == Affine(p.x, p.y) && Multiples(aff, k, m) {
      MultipleRepresents(k, p, aff, m);
    }
    if Unit(Multiple(k, p, m).z, m) {
      var aff := ListingExists(k, p, m);
    }
  }

  /** Every multiple of a point of the curve is a point of the curve. */
  lemma {:induction false} MultipleOnCurve(k: nat, aff: nat -> Affine, b: int, m: nat)
    requires k >= 1 && OnCurve(aff(1), b, m) && Multiples(aff, k, m)
    ensures OnCurve(aff(k), b, m)
  {
    hide IsDouble, IsSum, OnCurve;
    if k > 1 {
      var h := k / 2;
      assert StepsTo(aff, h, k, m);
      MultipleOnCurve(h, aff, b, m);
      DoubleOnCurve(aff(h), aff(2 * h), b, m);
      if k % 2 == 1 {
        SumOnCurve(aff(2 * h), aff(1), aff(k), b, m);
      }
    }
  }

  lemma StartRepresents(p: Jacobian, m: nat)
    requires m > 0 && p.z == 1
    ensures Represents(p, Affine(p.x, p.y), m)
  {
    CongRefl(p.x, m);
    CongRefl(p.y, m);
    CongRefl(1, m);
    assert Cong(1 * 1, 1, m);
  }

  /** Multiplying by the inverse square and cube of z recovers the affine coordinates. */
  lemma Normalised(j: Jacobian, a: Affine, w: int, m: nat)
    requires m > 0 && Represents(j, a, m) && Cong(w * j.z, 1, m)
    ensures (j.x * (w * w)) % m == a.x % m
    ensures (j.y * (w * w * w)) % m == a.y % m
  {
    hide Cong;
    var t, z := w * j.z, j.z;
    CongMul(t, 1, t, 1, m);
    CongMul(t * t, 1, t, 1, m);
    CongRefl(w * w, m);
    CongRefl(w * w * w, m);
    CongMul(j.x, a.x * (z * z), w * w, w * w, m);
    CongMul(j.y, a.y * (z * z * z), w * w * w, w * w * w, m);
    NormaliseArith(a.x, a.y, z, w);
    CongRefl(a.x, m);
    CongRefl(a.y, m);
    CongMul(a.x, a.x, t * t, 1, m);
    CongMul(a.y, a.y, t * t * t, 1, m);
    CongTrans(j.x * (w * w), a.x * (t * t), a.x, m);
    CongTrans(j.y * (w * w * w), a.y * (t * t * t), a.y, m);
    CongResidue(j.x * (w * w), a.x, m);
    CongResidue(j.y * (w * w * w), a.y, m);
  }

  lemma NormaliseArith(X: int, Y: int, z: int, w: int)
    ensures X * (z * z) * (w * w) == X * ((w * z) * (w * z))
    ensures Y * (z * z * z) * (w * w * w) == Y * ((w * z) * (w * z) * (w * z))
  {
    assert (w * z) * (w * z) == (z * z) * (w * w);
    assert (w * z) * (w * z) * (w * z) == (z * z * z) * (w * w * w) by {
      assert ((z * z) * (w * w)) * (w * z) == ((z * z) * z) * ((w * w) * w);
    }
  }
}
