/** Jacobian point arithmetic on y^2 = x^3 - 3x + b over the integers mod `m`, as the P-256
    code orders it.  Nothing here uses that `m` is prime. */
module Curve {
  import opened Words
  import opened Ring

  /** Coordinates X, Y, Z of the affine point (X/Z^2, Y/Z^3); Z = 0 is infinity. */
  datatype Point = Point(X: nat, Y: nat, Z: nat)

  const INFINITY: Point := Point(1, 1, 0)

  ghost predicate Reduced(p: Point, m: nat)
  {
    p.X < m && p.Y < m && p.Z < m
  }

  /** The coefficients of the cubic in X and Y once Z is fixed. */
  function CoefA(z: int): int
  {
    -3 * (z * z * (z * z))
  }

  function CoefC(z: int, b: int): int
  {
    b * (z * z * z * (z * z * z))
  }

  /** `Y^2 = X^3 - 3 X Z^4 + b Z^6` mod `m`. */
  ghost predicate OnCurve(p: Point, b: int, m: nat)
  {
    Cong(Miss(p.X, p.Y, CoefA(p.Z), CoefC(p.Z, b)), 0, m)
  }

  /** `p256_double`. */
  function Double(p: Point, m: nat): (r: Point)
    requires m > 1
  {
    if p.Z == 0 || p.Y == 0 then INFINITY
    else
      var y2 := FMul(p.Y, p.Y, m);
      var s := DoubleS(p, m);
      var s2 := DoubleM(p, m);
      var x3 := FSub(FSub(FMul(s2, s2, m), s, m), s, m);
      var y4 := FMul(y2, y2, m);
      var y8 := FAdd(FAdd(y4, y4, m), FAdd(y4, y4, m), m);
      var yz := FMul(p.Y, p.Z, m);
      Point(x3, FSub(FMul(s2, FSub(s, x3, m), m), FAdd(y8, y8, m), m), FAdd(yz, yz, m))
  }

  /** S = 4 X Y^2. */
  function DoubleS(p: Point, m: nat): (r: nat)
    requires m > 1
    ensures r < m
  {
    var t := FMul(p.X, FMul(p.Y, p.Y, m), m);
    FAdd(FAdd(t, t, m), FAdd(t, t, m), m)
  }

  /** M = 3 (X - Z^2) (X + Z^2). */
  function DoubleM(p: Point, m: nat): (r: nat)
    requires m > 1
    ensures r < m
  {
    var z2 := FMul(p.Z, p.Z, m);
    var t := FMul(FSub(p.X, z2, m), FAdd(p.X, z2, m), m);
    FAdd(FAdd(t, t, m), t, m)
  }

  /** The integer polynomials the doubling reduces. */
  ghost function ExactS(p: Point): int { 4 * (p.X * (p.Y * p.Y)) }
  ghost function ExactM(p: Point): int { 3 * ((p.X - p.Z * p.Z) * (p.X + p.Z * p.Z)) }
  ghost function ExactX(p: Point): int { ExactM(p) * ExactM(p) - 2 * ExactS(p) }
  ghost function ExactV(p: Point): int { 8 * (p.Y * p.Y * (p.Y * p.Y)) }
  ghost function ExactY(p: Point): int { ExactM(p) * (ExactS(p) - ExactX(p)) - ExactV(p) }
  ghost function ExactZ(p: Point): int { 2 * p.Y * p.Z }

  lemma DoubleSIsExact(p: Point, m: nat)
    requires m > 1
    ensures Cong(DoubleS(p, m), ExactS(p), m)
  {
    var yy := p.Y * p.Y;
    FieldOps(p.Y, p.Y, p.Y, p.Y, m);
    var y2 := FMul(p.Y, p.Y, m);
    FieldOps(p.X, p.X, y2, yy, m);
    var t := FMul(p.X, y2, m);
    FieldOps(t, p.X * yy, t, p.X * yy, m);
    var d := FAdd(t, t, m);
    FieldOps(d, 2 * (p.X * yy), d, 2 * (p.X * yy), m);
  }

  lemma DoubleMIsExact(p: Point, m: nat)
    requires m > 1
    ensures Cong(DoubleM(p, m), ExactM(p), m)
  {
    var zz := p.Z * p.Z;
    FieldOps(p.Z, p.Z, p.Z, p.Z, m);
    var z2 := FMul(p.Z, p.Z, m);
    FieldOps(p.X, p.X, z2, zz, m);
    var l, r := FSub(p.X, z2, m), FAdd(p.X, z2, m);
    FieldOps(l, p.X - zz, r, p.X + zz, m);
    var t, e := FMul(l, r, m), (p.X - zz) * (p.X + zz);
    FieldOps(t, e, t, e, m);
    FieldOps(FAdd(t, t, m), e + e, t, e, m);
  }

  lemma SquareMinusTwice(k: nat, k': int, s: nat, s': int, m: nat)
    requires Cong(k, k', m) && Cong(s, s', m)
    ensures Cong(FSub(FSub(FMul(k, k, m), s, m), s, m), k' * k' - 2 * s', m)
  {
    FieldOps(k, k', k, k', m);
    FieldOps(FMul(k, k, m), k' * k', s, s', m);
    FieldOps(FSub(FMul(k, k, m), s, m), k' * k' - s', s, s', m);
  }

  lemma DoubleIsExact(p: Point, m: nat)
    requires m > 1 && p.Z != 0 && p.Y != 0
    ensures var r := Double(p, m);
      Cong(r.X, ExactX(p), m) && Cong(r.Y, ExactY(p), m) && Cong(r.Z, ExactZ(p), m)
  {
    DoubleSIsExact(p, m);
    DoubleMIsExact(p, m);
    var s, s', k, k' := DoubleS(p, m), ExactS(p), DoubleM(p, m), ExactM(p);
    var r := Double(p, m);
    SquareMinusTwice(k, k', s, s', m);
    FieldOps(s, s', r.X, ExactX(p), m);
    FieldOps(k, k', FSub(s, r.X, m), s' - ExactX(p), m);
    EightTimesFourth(p, m);
    FieldOps(FMul(k, FSub(s, r.X, m), m), k' * (s' - ExactX(p)), EightY4(p, m), ExactV(p), m);
    TwiceYZ(p, m);
  }

  lemma TwiceYZ(p: Point, m: nat)
    requires m > 1
    ensures var yz := FMul(p.Y, p.Z, m); Cong(FAdd(yz, yz, m), ExactZ(p), m)
  {
    FieldOps(p.Y, p.Y, p.Z, p.Z, m);
    var yz := FMul(p.Y, p.Z, m);
    FieldOps(yz, p.Y * p.Z, yz, p.Y * p.Z, m);
    assert 2 * p.Y * p.Z == p.Y * p.Z + p.Y * p.Z;
  }

  ghost function EightY4(p: Point, m: nat): (r: nat)
    requires m > 1
  {
    var y2 := FMul(p.Y, p.Y, m);
    var y4 := FMul(y2, y2, m);
    var y8 := FAdd(FAdd(y4, y4, m), FAdd(y4, y4, m), m);
    FAdd(y8, y8, m)
  }

  lemma EightTimesFourth(p: Point, m: nat)
    requires m > 1
    ensures Cong(EightY4(p, m), ExactV(p), m)
  {
    var yy := p.Y * p.Y;
    var y2 := FMul(p.Y, p.Y, m);
    FieldOps(p.Y, p.Y, p.Y, p.Y, m);
    FieldOps(y2, yy, y2, yy, m);
    var y4, e := FMul(y2, y2, m), yy * yy;
    FieldOps(y4, e, y4, e, m);
    var d := FAdd(y4, y4, m);
    FieldOps(d, 2 * e, d, 2 * e, m);
    var q := FAdd(d, d, m);
    FieldOps(q, 4 * e, q, 4 * e, m);
  }

  /** Scaling Z by `h` scales the coefficients by `h^4` and `h^6`. */
  lemma CoefScale(z: int, h: int, b: int)
    ensures var h2 := h * h; var h3 := h2 * h;
      CoefA(h * z) == CoefA(z) * (h2 * h2) && CoefC(h * z, b) == CoefC(z, b) * (h3 * h3)
  {
    var h2 := h * h;
    var h3, z2, z3 := h2 * h, z * z, z * z * z;
    assert h * z * (h * z) == h2 * z2;
    assert h * z * (h * z) * (h * z) == h3 * z3;
    assert h2 * z2 * (h2 * z2) == z2 * z2 * (h2 * h2);
    assert h3 * z3 * (h3 * z3) == z3 * z3 * (h3 * h3);
    assert b * (z3 * z3 * (h3 * h3)) == b * (z3 * z3) * (h3 * h3);
  }

  /** Congruent coordinates miss the curve congruently. */
  lemma MissCong(x: int, x': int, y: int, y': int, z: int, z': int, b: int, m: nat)
    requires Cong(x, x', m) && Cong(y, y', m) && Cong(z, z', m)
    ensures Cong(Miss(x, y, CoefA(z), CoefC(z, b)), Miss(x', y', CoefA(z'), CoefC(z', b)), m)
  {
    CongMul(y, y', y, y', m);
    CongMul(x, x', x, x', m);
    CongMul(x * x, x' * x', x, x', m);
    CoefCong(z, z', b, m);
    CongMul(CoefA(z), CoefA(z'), x, x', m);
    CongAdd(y * y, y' * y', x * x * x, x' * x' * x', m);
    CongAdd(y * y - x * x * x, y' * y' - x' * x' * x', CoefA(z) * x, CoefA(z') * x', m);
    CongAdd(y * y - x * x * x - CoefA(z) * x, y' * y' - x' * x' * x' - CoefA(z') * x', CoefC(z, b), CoefC(z', b), m);
  }

  lemma CoefCong(z: int, z': int, b: int, m: nat)
    requires Cong(z, z', m)
    ensures Cong(CoefA(z), CoefA(z'), m) && Cong(CoefC(z, b), CoefC(z', b), m)
  {
    CongMul(z, z', z, z', m);
    CongMul(z * z, z' * z', z * z, z' * z', m);
    CongMul(-3, -3, z * z * (z * z), z' * z' * (z' * z'), m);
    CongMul(z * z, z' * z', z, z', m);
    CongMul(z * z * z, z' * z' * z', z * z * z, z' * z' * z', m);
    CongMul(b, b, z * z * z * (z * z * z), z' * z' * z' * (z' * z' * z'), m);
  }

  /** The exact doubling misses the curve by `(2Y)^6` times what the point does. */
  lemma ExactDoubleMiss(p: Point, b: int)
    ensures var h := 2 * p.Y; var h3 := h * h * h;
      Miss(ExactX(p), ExactY(p), CoefA(ExactZ(p)), CoefC(ExactZ(p), b))
        == h3 * h3 * Miss(p.X, p.Y, CoefA(p.Z), CoefC(p.Z, b))
  {
    var h := 2 * p.Y;
    var h2 := h * h;
    var h3 := h2 * h;
    var a, c := CoefA(p.Z), CoefC(p.Z, b);
    CoefScale(p.Z, h, b);
    ScaledMiss(p.X, p.Y, h, a, c);
    ScaledPoint(p);
    TangentSlope(p);
    TangentIdentity(ExactS(p), ExactV(p), ExactM(p), a * (h2 * h2), c * (h3 * h3));
  }

  lemma ScaledPoint(p: Point)
    ensures var h := 2 * p.Y;
      p.X * (h * h) == ExactS(p) && p.Y * (h * h * h) == ExactV(p)
  {
    var yy := p.Y * p.Y;
    assert 2 * p.Y * (2 * p.Y) == 4 * yy;
    assert 4 * yy * (2 * p.Y) == 8 * (yy * p.Y);
    assert p.Y * (8 * (yy * p.Y)) == 8 * (yy * yy);
  }

  /** The slope used is the tangent's: 2 v s = 3 u^2 + a. */
  lemma TangentSlope(p: Point)
    ensures var h := 2 * p.Y; var h2 := h * h;
      2 * (ExactV(p) * ExactM(p)) == 3 * (ExactS(p) * ExactS(p)) + CoefA(p.Z) * (h2 * h2)
  {
    var yy, zz, x := p.Y * p.Y, p.Z * p.Z, p.X;
    var f := yy * yy;
    assert 2 * p.Y * (2 * p.Y) == 4 * yy;
    assert 4 * yy * (4 * yy) == 16 * f;
    assert (x - zz) * (x + zz) == x * x - zz * zz;
    assert 2 * (8 * f * (3 * (x * x - zz * zz))) == 48 * (f * (x * x)) - 48 * (f * (zz * zz));
    assert 4 * (x * yy) * (4 * (x * yy)) == 16 * (f * (x * x));
    assert -3 * (zz * zz) * (16 * f) == -48 * (f * (zz * zz));
  }

  /** Doubling keeps a point on the curve, in both branches. */
  lemma DoubleOnCurve(p: Point, b: int, m: nat)
    requires m > 1 && OnCurve(p, b, m)
    ensures OnCurve(Double(p, m), b, m) && Reduced(Double(p, m), m)
  {
    if p.Z != 0 && p.Y != 0 {
      var r, h := Double(p, m), 2 * p.Y;
      var h6 := h * h * h * (h * h * h);
      DoubleIsExact(p, m);
      MissCong(r.X, ExactX(p), r.Y, ExactY(p), r.Z, ExactZ(p), b, m);
      ExactDoubleMiss(p, b);
      CongZeroTimes(h6, Miss(p.X, p.Y, CoefA(p.Z), CoefC(p.Z, b)), m);
    } else {
      InfinityOnCurve(b, m);
    }
  }

  lemma InfinityOnCurve(b: int, m: nat)
    requires m > 1
    ensures OnCurve(INFINITY, b, m) && Reduced(INFINITY, m)
  {
    assert Miss(1, 1, CoefA(0), CoefC(0, b)) == 0;
  }

  /** Doubling is the affine tangent construction with denominators cleared: scaled by
      `h = 2Y` the point is (S, V), the slope `s` satisfies 2 V s = 3 S^2 + a h^4, and the
      result is (s^2 - 2S, s (S - X') - V) over Z' = h Z. */
  lemma DoubleIsTangent(p: Point, m: nat)
    requires m > 1 && p.Z != 0 && p.Y != 0
    ensures var r := Double(p, m); var h := 2 * p.Y; var s := ExactM(p);
      var u, v := p.X * (h * h), p.Y * (h * h * h);
      && 2 * (v * s) == 3 * (u * u) + CoefA(p.Z) * (h * h * (h * h))
      && Cong(r.X, s * s - 2 * u, m) && Cong(r.Y, s * (u - (s * s - 2 * u)) - v, m) && Cong(r.Z, h * p.Z, m)
  {
    DoubleIsExact(p, m);
    ScaledPoint(p);
    TangentSlope(p);
  }

  /** X or Y of one point brought to the other's denominator. */
  function AddU(p: Point, q: Point, m: nat): (r: nat)
    requires m > 1
    ensures r < m
  {
    FMul(p.X, FMul(q.Z, q.Z, m), m)
  }

  function AddS(p: Point, q: Point, m: nat): (r: nat)
    requires m > 1
    ensures r < m
  {
    FMul(FMul(p.Y, q.Z, m), FMul(q.Z, q.Z, m), m)
  }

  /** `p256_add`. */
  function Add(p: Point, q: Point, m: nat): (r: Point)
    requires m > 1
  {
    if p.Z == 0 then q
    else if q.Z == 0 then p
    else
      var u1, u2, s1, s2 := AddU(p, q, m), AddU(q, p, m), AddS(p, q, m), AddS(q, p, m);
      if u1 == u2 then
        if s1 != s2 then INFINITY else Double(p, m)
      else
        var h, r := FSub(u2, u1, m), FSub(s2, s1, m);
        var h2 := FMul(h, h, m);
        var h3 := FMul(h2, h, m);
        var uh2 := FMul(u1, h2, m);
        var x3 := FSub(FSub(FSub(FMul(r, r, m), h3, m), uh2, m), uh2, m);
        var y3 := FSub(FMul(r, FSub(uh2, x3, m), m), FMul(s1, h3, m), m);
        Point(x3, y3, FMul(FMul(h, p.Z, m), q.Z, m))
  }

  /** The integers the addition reduces. */
  ghost function ExactU(p: Point, q: Point): int { p.X * (q.Z * q.Z) }
  ghost function ExactT(p: Point, q: Point): int { p.Y * (q.Z * q.Z * q.Z) }
  ghost function ExactH(p: Point, q: Point): int { ExactU(q, p) - ExactU(p, q) }
  ghost function ExactR(p: Point, q: Point): int { ExactT(q, p) - ExactT(p, q) }
  ghost function SumX(u: int, h: int, r: int): int { r * r - h * h * h - 2 * (u * (h * h)) }
  ghost function SumY(u: int, t: int, h: int, r: int): int { r * (u * (h * h) - SumX(u, h, r)) - t * (h * h * h) }

  lemma CommonDenominator(p: Point, q: Point, m: nat)
    requires m > 1
    ensures Cong(AddU(p, q, m), ExactU(p, q), m) && Cong(AddS(p, q, m), ExactT(p, q), m)
  {
    var z2 := FMul(q.Z, q.Z, m);
    FieldOps(q.Z, q.Z, q.Z, q.Z, m);
    FieldOps(p.X, p.X, z2, q.Z * q.Z, m);
    FieldOps(p.Y, p.Y, q.Z, q.Z, m);
    FieldOps(FMul(p.Y, q.Z, m), p.Y * q.Z, z2, q.Z * q.Z, m);
    CubeApart(p.Y, q.Z);
  }

  lemma CubeApart(y: int, z: int)
    ensures y * z * (z * z) == y * (z * z * z)
  {
    MulAssoc(z, z, z);
    MulAssoc(y, z, z * z);
  }

  lemma AddIsExact(p: Point, q: Point, m: nat)
    requires m > 1 && p.Z != 0 && q.Z != 0 && AddU(p, q, m) != AddU(q, p, m)
    ensures var r := Add(p, q, m); var u, t, h, d := ExactU(p, q), ExactT(p, q), ExactH(p, q), ExactR(p, q);
      Cong(r.X, SumX(u, h, d), m) && Cong(r.Y, SumY(u, t, h, d), m) && Cong(r.Z, h * (p.Z * q.Z), m)
  {
    var u1, u2, s1, s2 := AddU(p, q, m), AddU(q, p, m), AddS(p, q, m), AddS(q, p, m);
    CommonDenominator(p, q, m);
    CommonDenominator(q, p, m);
    FieldOps(u2, ExactU(q, p), u1, ExactU(p, q), m);
    FieldOps(s2, ExactT(q, p), s1, ExactT(p, q), m);
    var h, r := FSub(u2, u1, m), FSub(s2, s1, m);
    SumIsExact(u1, ExactU(p, q), s1, ExactT(p, q), h, ExactH(p, q), r, ExactR(p, q), m);
    ThreeTimes(h, ExactH(p, q), p.Z, q.Z, m);
  }

  lemma ThreeTimes(h: nat, h': int, z1: nat, z2: nat, m: nat)
    requires m > 0 && Cong(h, h', m)
    ensures Cong(FMul(FMul(h, z1, m), z2, m), h' * (z1 * z2), m)
  {
    FieldOps(h, h', z1, z1, m);
    FieldOps(FMul(h, z1, m), h' * z1, z2, z2, m);
    MulAssoc(h', z1, z2);
  }

  lemma SumIsExact(u: nat, u': int, s: nat, s': int, h: nat, h': int, r: nat, r': int, m: nat)
    requires Cong(u, u', m) && Cong(s, s', m) && Cong(h, h', m) && Cong(r, r', m)
    ensures var h2 := FMul(h, h, m); var h3 := FMul(h2, h, m); var uh2 := FMul(u, h2, m);
      var x := FSub(FSub(FSub(FMul(r, r, m), h3, m), uh2, m), uh2, m);
      && Cong(x, SumX(u', h', r'), m)
      && Cong(FSub(FMul(r, FSub(uh2, x, m), m), FMul(s, h3, m), m), SumY(u', s', h', r'), m)
  {
    var h2, e2, e3 := FMul(h, h, m), h' * h', h' * h' * h';
    FieldOps(h, h', h, h', m);
    FieldOps(h2, e2, h, h', m);
    var h3, uh2 := FMul(h2, h, m), FMul(u, h2, m);
    FieldOps(u, u', h2, e2, m);
    FieldOps(r, r', r, r', m);
    FieldOps(FMul(r, r, m), r' * r', h3, e3, m);
    var a := FSub(FMul(r, r, m), h3, m);
    FieldOps(a, r' * r' - e3, uh2, u' * e2, m);
    FieldOps(FSub(a, uh2, m), r' * r' - e3 - u' * e2, uh2, u' * e2, m);
    var x := FSub(FSub(a, uh2, m), uh2, m);
    FieldOps(uh2, u' * e2, x, SumX(u', h', r'), m);
    FieldOps(r, r', FSub(uh2, x, m), u' * e2 - SumX(u', h', r'), m);
    FieldOps(s, s', h3, e3, m);
    FieldOps(FMul(r, FSub(uh2, x, m), m), r' * (u' * e2 - SumX(u', h', r')), FMul(s, h3, m), s' * e3, m);
  }

  /** A point keeps its miss, up to a sixth power, on the way to a common denominator. */
  lemma DenominatorMiss(p: Point, q: Point, b: int, m: nat)
    requires OnCurve(p, b, m)
    ensures Cong(Miss(ExactU(p, q), ExactT(p, q), CoefA(p.Z * q.Z), CoefC(p.Z * q.Z, b)), 0, m)
  {
    var k := q.Z;
    CoefScale(p.Z, k, b);
    ScaledMiss(p.X, p.Y, k, CoefA(p.Z), CoefC(p.Z, b));
    assert k * p.Z == p.Z * q.Z;
    CongZeroTimes(k * k * k * (k * k * k), Miss(p.X, p.Y, CoefA(p.Z), CoefC(p.Z, b)), m);
  }

  /** Addition keeps points on the curve in all branches: infinity, opposite, equal, generic. */
  lemma AddOnCurve(p: Point, q: Point, b: int, m: nat)
    requires m > 1 && OnCurve(p, b, m) && OnCurve(q, b, m) && Reduced(p, m) && Reduced(q, m)
    ensures OnCurve(Add(p, q, m), b, m) && Reduced(Add(p, q, m), m)
  {
    if p.Z != 0 && q.Z != 0 {
      if AddU(p, q, m) != AddU(q, p, m) {
        ChordOnCurve(p, q, b, m);
      } else {
        assert Add(p, q, m) == Double(p, m) || Add(p, q, m) == INFINITY;
        DoubleOnCurve(p, b, m);
        InfinityOnCurve(b, m);
      }
    } else {
      assert Add(p, q, m) == p || Add(p, q, m) == q;
    }
  }

  lemma ChordOnCurve(p: Point, q: Point, b: int, m: nat)
    requires m > 1 && OnCurve(p, b, m) && OnCurve(q, b, m)
    requires p.Z != 0 && q.Z != 0 && AddU(p, q, m) != AddU(q, p, m)
    ensures OnCurve(Add(p, q, m), b, m) && Reduced(Add(p, q, m), m)
  {
    var u, t, h, d := ExactU(p, q), ExactT(p, q), ExactH(p, q), ExactR(p, q);
    var r, z := Add(p, q, m), p.Z * q.Z;
    var a, c := CoefA(z), CoefC(z, b);
    AddIsExact(p, q, m);
    MissCong(r.X, SumX(u, h, d), r.Y, SumY(u, t, h, d), r.Z, h * z, b, m);
    CoefScale(z, h, b);
    ChordIdentity(u, t, h, d, a, c);
    DenominatorMiss(p, q, b, m);
    DenominatorMiss(q, p, b, m);
    assert q.Z * p.Z == z;
    var e1, e2, h3 := Miss(u, t, a, c), Miss(u + h, t + d, a, c), h * h * h;
    CongAdd(e2, 0, e1, 0, m);
    CongZeroTimes(h3, e2 - e1, m);
    CongZeroTimes(SumX(u, h, d) - u * (h * h), h3 * (e2 - e1), m);
    CongZeroTimes(h3 * h3, e1, m);
    CongAdd(h3 * h3 * e1, 0, (SumX(u, h, d) - u * (h * h)) * (h3 * (e2 - e1)), 0, m);
  }

  /** Addition of distinct abscissas is the affine chord construction with denominators
      cleared: over the common denominator Z' = h Z1 Z2 the points are (u1, v1) and (u2, v2),
      the slope is `s`, and the result is (s^2 - u1 - u2, s (u1 - X') - v1). */
  lemma AddIsChord(p: Point, q: Point, m: nat)
    requires m > 1 && p.Z != 0 && q.Z != 0 && AddU(p, q, m) != AddU(q, p, m)
    ensures var r := Add(p, q, m); var h, s := ExactH(p, q), ExactR(p, q);
      var k1, k2 := h * q.Z, h * p.Z;
      var u1, v1 := p.X * (k1 * k1), p.Y * (k1 * k1 * k1);
      var u2, v2 := q.X * (k2 * k2), q.Y * (k2 * k2 * k2);
      && s * (u2 - u1) == v2 - v1
      && Cong(r.X, s * s - u1 - u2, m)
      && Cong(r.Y, s * (u1 - (s * s - u1 - u2)) - v1, m)
      && Cong(r.Z, k1 * p.Z, m) && k1 * p.Z == k2 * q.Z
  {
    AddIsExact(p, q, m);
    ChordOf(p.X, p.Y, p.Z, q.X, q.Y, q.Z, ExactU(p, q), ExactU(q, p), ExactT(p, q), ExactT(q, p),
            ExactH(p, q), ExactR(p, q));
  }

  lemma ChordOf(x1: int, y1: int, z1: int, x2: int, y2: int, z2: int,
                u: int, u': int, t: int, t': int, h: int, s: int)
    requires u == x1 * (z2 * z2) && t == y1 * (z2 * z2 * z2) && u' == x2 * (z1 * z1) && t' == y2 * (z1 * z1 * z1)
    requires h == u' - u && s == t' - t
    ensures var k1, k2 := h * z2, h * z1;
      var u1, v1 := x1 * (k1 * k1), y1 * (k1 * k1 * k1);
      var u2, v2 := x2 * (k2 * k2), y2 * (k2 * k2 * k2);
      && s * (u2 - u1) == v2 - v1
      && SumX(u, h, s) == s * s - u1 - u2 && SumY(u, t, h, s) == s * (u1 - (s * s - u1 - u2)) - v1
      && h * (z1 * z2) == k1 * z1 && k1 * z1 == k2 * z2
  {
    var k1, k2 := h * z2, h * z1;
    ScaleTwice(x1, y1, z2, h, u, t);
    ScaleTwice(x2, y2, z1, h, u', t');
    ChordScaled(u, u', t, t', h, s,
                x1 * (k1 * k1), x2 * (k2 * k2), y1 * (k1 * k1 * k1), y2 * (k2 * k2 * k2));
    ThreeFactors(h, z1, z2);
  }

  lemma ChordScaled(u: int, u': int, t: int, t': int, h: int, s: int, u1: int, u2: int, v1: int, v2: int)
    requires h == u' - u && s == t' - t
    requires u1 == u * (h * h) && u2 == u' * (h * h) && v1 == t * (h * h * h) && v2 == t' * (h * h * h)
    ensures s * (u2 - u1) == v2 - v1
    ensures SumX(u, h, s) == s * s - u1 - u2 && SumY(u, t, h, s) == s * (u1 - (s * s - u1 - u2)) - v1
  {
    var h2, h3 := h * h, h * h * h;
    assert u2 - u1 == h3 by { Distr(u', u, h2); }
    assert s * h3 == v2 - v1 by { Distr(t', t, h3); }
    assert SumX(u, h, s) == s * s - u1 - u2;
  }

  lemma ThreeFactors(h: int, z1: int, z2: int)
    ensures h * (z1 * z2) == h * z2 * z1 && h * z2 * z1 == h * z1 * z2
  {
  }

  lemma ScaleTwice(x: int, y: int, z: int, h: int, u: int, t: int)
    requires u == x * (z * z) && t == y * (z * z * z)
    ensures var k := h * z;
      x * (k * k) == u * (h * h) && y * (k * k * k) == t * (h * h * h)
  {
    var k := h * z;
    assert k * k == z * z * (h * h);
    assert k * k * k == z * z * z * (h * h * h);
    Regroup(x, z * z, h * h);
    Regroup(y, z * z * z, h * h * h);
  }

  lemma Regroup(x: int, y: int, z: int)
    ensures x * (y * z) == x * y * z
  {
  }
}
