/** Congruence of integers and the polynomial identities behind the curve arithmetic. */
module Ring {
  import opened Words

  /** `a` and `b` leave the same remainder mod `m`. */
  ghost predicate Cong(a: int, b: int, m: nat)
  {
    m > 0 && a % m == b % m
  }

  lemma CongByMultiple(a: int, b: int, k: int, m: nat)
    requires m > 0 && a == b + k * m
    ensures Cong(a, b, m)
  {
    var q, r := b / m, b % m;
    assert a == m * (q + k) + r by { assert k * m == m * k; assert m * (q + k) == m * q + m * k; }
    DivModUnique(a, m, q + k, r);
  }

  lemma MultipleOf(a: int, b: int, m: nat) returns (k: int)
    requires Cong(a, b, m)
    ensures a == b + k * m
  {
    k := a / m - b / m;
    assert k * m == m * (a / m) - m * (b / m);
  }

  lemma CongAdd(a: int, a': int, b: int, b': int, m: nat)
    requires Cong(a, a', m) && Cong(b, b', m)
    ensures Cong(a + b, a' + b', m) && Cong(a - b, a' - b', m)
  {
    var j := MultipleOf(a, a', m);
    var k := MultipleOf(b, b', m);
    assert (j + k) * m == j * m + k * m && (j - k) * m == j * m - k * m;
    CongByMultiple(a + b, a' + b', j + k, m);
    CongByMultiple(a - b, a' - b', j - k, m);
  }

  lemma ProductOfSums(a: int, j: int, b: int, k: int, m: int)
    ensures (a + j * m) * (b + k * m) == a * b + (a * k + j * b + j * (k * m)) * m
  {
    var x, y := j * m, k * m;
    assert (a + x) * (b + y) == a * b + a * y + x * b + x * y;
    assert a * y == (a * k) * m && x * b == (j * b) * m && x * y == (j * (k * m)) * m;
    assert (a * k + j * b + j * y) * m == (a * k) * m + (j * b) * m + (j * y) * m;
  }

  lemma CongMul(a: int, a': int, b: int, b': int, m: nat)
    requires Cong(a, a', m) && Cong(b, b', m)
    ensures Cong(a * b, a' * b', m)
  {
    var j := MultipleOf(a, a', m);
    var k := MultipleOf(b, b', m);
    ProductOfSums(a', j, b', k, m);
    CongByMultiple(a * b, a' * b', a' * k + j * b' + j * (k * m), m);
  }

  lemma CongReduced(a: int, m: nat)
    requires m > 0
    ensures 0 <= a % m < m && Cong(a % m, a, m)
  {
    DivModUnique(a % m, m, 0, a % m);
  }

  lemma CongZeroTimes(a: int, b: int, m: nat)
    requires Cong(b, 0, m)
    ensures Cong(a * b, 0, m)
  {
    CongMul(a, a, b, 0, m);
  }

  lemma CongReducedEqual(a: int, b: int, m: nat)
    requires Cong(a, b, m) && 0 <= a < m && 0 <= b < m
    ensures a == b
  {
    DivModUnique(a, m, 0, a);
    DivModUnique(b, m, 0, b);
  }

  lemma SquareOfSum(x: int, y: int)
    ensures (x + y) * (x + y) == x * x + 2 * (x * y) + y * y
  {
  }

  lemma CubeOfSum(x: int, y: int)
    ensures (x + y) * (x + y) * (x + y) == x * x * x + 3 * (x * x * y) + 3 * (x * (y * y)) + y * y * y
  {
    SquareOfSum(x, y);
    var q := x * x + 2 * (x * y) + y * y;
    assert q * (x + y) == q * x + q * y;
    assert q * x == x * x * x + 2 * (x * x * y) + x * (y * y);
    assert q * y == x * x * y + 2 * (x * (y * y)) + y * y * y;
  }

  /** How far the point `(x, y)` misses the cubic `y^2 = x^3 + a x + c`. */
  function Miss(x: int, y: int, a: int, c: int): int
  {
    y * y - x * x * x - a * x - c
  }

  /** Along a line of slope `s` through `(u, v)`. */
  lemma MissAlongLine(u: int, v: int, s: int, d: int, a: int, c: int, x: int, y: int)
    requires x == u + d && y == -(v + s * d)
    ensures Miss(x, y, a, c)
      == Miss(u, v, a, c) + d * (2 * (v * s) + s * s * d - 3 * (u * u) - 3 * (u * d) - d * d - a)
  {
    var t := s * d;
    NegativeSquare(v, t, y);
    CubeAlong(u, d, a, x);
    DistributeSix(d, v * s, s * s * d, u * u, u * d, d * d, a);
    LineProducts(u, v, s, d);
  }

  lemma LineProducts(u: int, v: int, s: int, d: int)
    ensures d * (v * s) == v * (s * d) && d * (s * s * d) == (s * d) * (s * d)
    ensures d * (u * u) == u * u * d && d * (u * d) == u * (d * d) && d * (d * d) == d * d * d
  {
    assert d * (s * s * d) == (s * d) * (s * d);
  }

  lemma NegativeSquare(v: int, t: int, y: int)
    requires y == -(v + t)
    ensures y * y == v * v + 2 * (v * t) + t * t
  {
    SquareOfSum(v, t);
    assert y * y == (v + t) * (v + t);
  }

  lemma CubeAlong(u: int, d: int, a: int, x: int)
    requires x == u + d
    ensures x * x * x + a * x == u * u * u + 3 * (u * u * d) + 3 * (u * (d * d)) + d * d * d + a * u + a * d
  {
    CubeOfSum(u, d);
    assert a * (u + d) == a * u + a * d;
  }

  /** The tangent at `(u, v)` with slope `s`, where `2vs = 3u^2 + a`, meets the cubic again at
      `s^2 - 2u`: the new point misses the curve by exactly as much as the old one. */
  lemma TangentIdentity(u: int, v: int, s: int, a: int, c: int)
    requires 2 * (v * s) == 3 * (u * u) + a
    ensures var x := s * s - 2 * u;
      Miss(x, s * (u - x) - v, a, c) == Miss(u, v, a, c)
  {
    var x := s * s - 2 * u;
    var d := x - u;
    var y := s * (u - x) - v;
    assert y == -(v + s * d);
    MissAlongLine(u, v, s, d, a, c, x, y);
    TangentTerms(u, v, s, d, a);
  }

  lemma TangentTerms(u: int, v: int, s: int, d: int, a: int)
    requires 2 * (v * s) == 3 * (u * u) + a && s * s == 3 * u + d
    ensures d * (2 * (v * s) + s * s * d - 3 * (u * u) - 3 * (u * d) - d * d - a) == 0
  {
    assert s * s * d == 3 * (u * d) + d * d by { Distr(3 * u, d, d); }
  }

  /** The chord through two points whose coordinates differ by `h` and `r`, scaled by `h`. */
  lemma ChordIdentity(u: int, s: int, h: int, r: int, a: int, c: int)
    ensures var e1, e2 := Miss(u, s, a, c), Miss(u + h, s + r, a, c);
      var h2 := h * h; var h3 := h2 * h;
      var x := r * r - h3 - 2 * (u * h2);
      Miss(x, r * (u * h2 - x) - s * h3, a * (h2 * h2), c * (h3 * h3))
        == h3 * h3 * e1 + (x - u * h2) * (h3 * (e2 - e1))
  {
    var e1, e2 := Miss(u, s, a, c), Miss(u + h, s + r, a, c);
    var h2 := h * h;
    var h3 := h2 * h;
    var x, u1, v1 := r * r - h3 - 2 * (u * h2), u * h2, s * h3;
    var d, a1 := x - u1, a * (h2 * h2);
    var y := r * (u1 - x) - v1;
    assert y == -(v1 + r * d);
    MissAlongLine(u1, v1, r, d, a1, c * (h3 * h3), x, y);
    ScaledMiss(u, s, h, a, c);
    var k := 2 * (v1 * r) + r * r * d - 3 * (u1 * u1) - 3 * (u1 * d) - d * d - a1;
    assert r * r * d == (d + 3 * u1 + h3) * d;
    assert k == 2 * (v1 * r) + h3 * d - 3 * (u1 * u1) - a1;
    ChordSlope(u, s, h, r, a, c);
    assert h3 * d == h3 * (r * r) - h3 * h3 - 3 * (h3 * u1);
  }

  lemma ScaledMiss(u: int, s: int, h: int, a: int, c: int)
    ensures var h2 := h * h; var h3 := h2 * h;
      Miss(u * h2, s * h3, a * (h2 * h2), c * (h3 * h3)) == h3 * h3 * Miss(u, s, a, c)
  {
    var h2 := h * h;
    var h3 := h2 * h;
    var h6 := h3 * h3;
    assert h2 * h2 * h2 == h6;
    assert (s * h3) * (s * h3) == s * s * h6;
    assert (u * h2) * (u * h2) * (u * h2) == u * u * u * (h2 * h2 * h2);
    assert (a * (h2 * h2)) * (u * h2) == a * u * (h2 * h2 * h2);
    var m := s * s - u * u * u - a * u - c;
    assert h6 * m == s * s * h6 - u * u * u * h6 - a * u * h6 - c * h6;
  }

  lemma ChordSlope(u: int, s: int, h: int, r: int, a: int, c: int)
    ensures var h2 := h * h; var h3 := h2 * h; var u1, v1 := u * h2, s * h3;
      2 * (v1 * r) + (h3 * (r * r) - h3 * h3 - 3 * (h3 * u1)) - 3 * (u1 * u1) - a * (h2 * h2)
        == h3 * (Miss(u + h, s + r, a, c) - Miss(u, s, a, c))
  {
    var h2 := h * h;
    var h3 := h2 * h;
    MissChange(u, s, h, r, a, c);
    DistributeSix(h3, s * r, r * r, u * u * h, u * h2, h3, a * h);
    assert h3 * (u * u * h) == (u * h2) * (u * h2);
    assert h3 * (a * h) == a * (h2 * h2);
    assert h3 * (s * r) == (s * h3) * r;
  }

  lemma MissChange(u: int, s: int, h: int, r: int, a: int, c: int)
    ensures Miss(u + h, s + r, a, c) - Miss(u, s, a, c)
      == 2 * (s * r) + r * r - 3 * (u * u * h) - 3 * (u * (h * h)) - h * h * h - a * h
  {
    SquareOfSum(s, r);
    CubeOfSum(u, h);
    assert a * (u + h) == a * u + a * h;
  }

  lemma DistributeSix(k: int, p: int, q: int, x: int, y: int, z: int, w: int)
    ensures k * (2 * p + q - 3 * x - 3 * y - z - w) == 2 * (k * p) + k * q - 3 * (k * x) - 3 * (k * y) - k * z - k * w
  {
  }

  /** Addition, subtraction and multiplication on residues. */
  function FAdd(a: nat, b: nat, m: nat): (r: nat)
    requires m > 0
    ensures r < m
  {
    (a + b) % m
  }

  function FSub(a: nat, b: nat, m: nat): (r: nat)
    requires m > 0
    ensures r < m
  {
    (a - b) % m
  }

  function FMul(a: nat, b: nat, m: nat): (r: nat)
    requires m > 0
    ensures r < m
  {
    (a * b) % m
  }

  lemma FieldOps(a: nat, a': int, b: nat, b': int, m: nat)
    requires Cong(a, a', m) && Cong(b, b', m)
    ensures Cong(FAdd(a, b, m), a' + b', m)
    ensures Cong(FSub(a, b, m), a' - b', m)
    ensures Cong(FMul(a, b, m), a' * b', m)
  {
    CongAdd(a, a', b, b', m);
    CongMul(a, a', b, b', m);
    CongReduced(a + b, m);
    CongReduced(a - b, m);
    CongReduced(a * b, m);
  }
}
