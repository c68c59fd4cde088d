/** Machine words of the C sources as ranges of integers, and the C bit operators on
    them.  Assigning a value to a variable of one of these types obliges the verifier
    to show that the value fits, which is how the absence of overflow is proved. */
module Words {

  type u8 = x: int | 0 <= x < 0x100
  type u32 = x: int | 0 <= x < 0x1_0000_0000
  type u64 = x: int | 0 <= x < 0x1_0000_0000_0000_0000
  type i64 = x: int | -0x8000_0000_0000_0000 <= x < 0x8000_0000_0000_0000

  const TWO32: int := 0x1_0000_0000

  /** The cast `(uint32_t)x`, also the result of unsigned 32-bit arithmetic that may wrap. */
  function Trunc32(x: int): (r: u32)
  {
    x % 0x1_0000_0000
  }

  function Trunc8(x: int): (r: u8)
  {
    x % 0x100
  }

  /** Wrapping in the middle of a sum does not matter. */
  lemma WrapTwice(x: nat, y: nat)
    ensures Trunc32(Trunc32(x) as int + y) == Trunc32(x + y)
  {
  }

  function Zeros(n: nat): (z: seq<u8>)
    ensures |z| == n && forall k :: 0 <= k < n ==> z[k] == 0
  {
    seq(n, _ => 0)
  }

  function Least(a: nat, b: nat): (r: nat)
    ensures r <= a && r <= b && (r == a || r == b)
  {
    if a < b then a else b
  }

  /** `b` to the power `e`. */
  function Pow(b: nat, e: nat): (r: nat)
  {
    if e == 0 then 1 else b * Pow(b, e - 1)
  }

  function Pow2(n: nat): (r: nat)
    ensures r > 0
  {
    if n == 0 then 1 else 2 * Pow2(n - 1)
  }

  lemma {:induction false} Pow2Add(m: nat, n: nat)
    ensures Pow2(m + n) == Pow2(m) * Pow2(n)
  {
    if m > 0 {
      Pow2Add(m - 1, n);
      assert Pow2(m + n) == 2 * Pow2(m - 1 + n);
    }
  }

  /** Bitwise `a & b`, bit by bit from the low end. */
  function And(a: nat, b: nat): (r: nat)
    ensures r <= a && r <= b
  {
    if a == 0 || b == 0 then 0
    else (if a % 2 == 1 && b % 2 == 1 then 1 else 0) + 2 * And(a / 2, b / 2)
  }

  /** Bitwise `a | b`. */
  function Or(a: nat, b: nat): (r: nat)
  {
    if a == 0 then b else if b == 0 then a
    else (if a % 2 + b % 2 > 0 then 1 else 0) + 2 * Or(a / 2, b / 2)
  }

  /** Bitwise `a ^ b`. */
  function Xor(a: nat, b: nat): (r: nat)
  {
    if a == 0 then b else if b == 0 then a
    else (if a % 2 == b % 2 then 0 else 1) + 2 * Xor(a / 2, b / 2)
  }

  /** A low mask keeps the remainder: `a & (2^k - 1) == a mod 2^k`. */
  lemma {:induction false} AndMask(a: nat, k: nat)
    ensures And(a, Pow2(k) - 1) == a % Pow2(k)
    decreases k
  {
    if a == 0 || k == 0 {
    } else {
      AndMask(a / 2, k - 1);
      var m := Pow2(k - 1);
      assert (Pow2(k) - 1) / 2 == m - 1;
      ModTwice(a, m);
    }
  }

  /** A mask that covers every bit of `a` keeps it. */
  lemma AndAllOnes(a: nat, k: nat, m: nat)
    requires a < Pow2(k) && m + 1 == Pow2(k)
    ensures And(a, m) == a
  {
    AndMask(a, k);
    DivModUnique(a, Pow2(k), 0, a);
  }

  lemma MaskBelow(a: nat, k: nat, m: nat, p: nat)
    requires p == Pow2(k) && m + 1 == p
    ensures And(a, m) == a % p
  {
    AndMask(a, k);
  }

  lemma ModTwice(a: nat, m: nat)
    requires m > 0
    ensures a % (2 * m) == a % 2 + 2 * (a / 2 % m)
  {
    var q, r := a / 2 / m, a / 2 % m;
    assert a == (2 * m) * q + (2 * r + a % 2);
    DivModUnique(a, 2 * m, q, 2 * r + a % 2);
  }

  lemma MulAtLeast(d: int, x: int)
    requires d > 0
    ensures x >= 1 ==> d * x >= d
  {
  }

  lemma DivModUnique(x: int, d: int, q: int, r: int)
    requires d > 0 && 0 <= r < d && x == d * q + r
    ensures x / d == q && x % d == r
  {
    var q', r' := x / d, x % d;
    assert d * (q - q') == r' - r;
    MulAtLeast(d, q - q');
    MulAtLeast(d, q' - q);
  }

  /** OR of a low part with a part shifted above it is addition. */
  lemma {:induction false} OrShifted(a: nat, b: nat, k: nat)
    requires a < Pow2(k)
    ensures Or(a, b * Pow2(k)) == a + b * Pow2(k)
    decreases k
  {
    if a == 0 || b == 0 {
    } else {
      var m := Pow2(k - 1);
      var h := b * m;
      assert b * Pow2(k) == 2 * h;
      MulPos(b, m);
      OrShifted(a / 2, b, k - 1);
      OrEven(a, h, b * Pow2(k));
    }
  }

  lemma OrEven(a: nat, h: nat, x: nat)
    requires x == 2 * h && h > 0
    ensures Or(a, x) == a % 2 + 2 * Or(a / 2, h)
  {
    assert x / 2 == h;
  }

  lemma MulAssoc(a: int, b: int, c: int)
    ensures a * (b * c) == (a * b) * c
  {
  }

  lemma NextMultiple(n: int, p: int)
    ensures n * p == (n - 1) * p + p
  {
  }

  /** The product of two bounded magnitudes. */
  lemma MulLe(x: int, xmax: int, y: int, ymax: int)
    requires 0 <= x <= xmax && 0 <= y <= ymax
    ensures 0 <= x * y <= xmax * ymax
  {
    assert x * y <= xmax * y;
    assert xmax * y <= xmax * ymax;
  }

  lemma MulPos(a: int, b: int)
    requires a > 0 && b > 0
    ensures a * b > 0
  {
  }

  lemma {:induction false} OrCommutes(a: nat, b: nat)
    ensures Or(a, b) == Or(b, a)
  {
    if a > 0 && b > 0 { OrCommutes(a / 2, b / 2); }
  }

  lemma XorParts(a: nat, b: nat)
    ensures Xor(a, b) % 2 == (if a % 2 == b % 2 then 0 else 1) && Xor(a, b) / 2 == Xor(a / 2, b / 2)
  {
    var bit, half := if a % 2 == b % 2 then 0 else 1, Xor(a / 2, b / 2);
    XorStep(a, b, half);
    DivModUnique(Xor(a, b), 2, half, bit);
  }

  lemma XorStep(a: nat, b: nat, half: nat)
    requires half == Xor(a / 2, b / 2)
    ensures Xor(a, b) == 2 * half + if a % 2 == b % 2 then 0 else 1
  {
  }

  lemma {:induction false} XorCancels(a: nat, b: nat)
    ensures Xor(a, Xor(a, b)) == b
    decreases a
  {
    if a > 0 {
      var y := Xor(a, b);
      XorParts(a, b);
      XorParts(a, y);
      XorCancels(a / 2, b / 2);
    }
  }

  lemma {:induction false} XorSelf(a: nat)
    ensures Xor(a, a) == 0
  {
    if a > 0 { XorSelf(a / 2); }
  }

  lemma {:induction false} XorCommutes(a: nat, b: nat)
    ensures Xor(a, b) == Xor(b, a)
  {
    if a > 0 && b > 0 { XorCommutes(a / 2, b / 2); }
  }

  lemma {:induction false} XorFits(x: nat, y: nat, k: nat)
    requires x < Pow2(k) && y < Pow2(k)
    ensures Xor(x, y) < Pow2(k)
    decreases k
  {
    if x > 0 && y > 0 { XorFits(x / 2, y / 2, k - 1); }
  }

  lemma {:induction false} OrIsZero(a: nat, b: nat, k: nat)
    requires a < Pow2(k) && b < Pow2(k)
    ensures (Or(a, b) == 0 <==> a == 0 && b == 0) && Or(a, b) < Pow2(k)
    decreases k
  {
    if a > 0 && b > 0 { OrIsZero(a / 2, b / 2, k - 1); }
  }

  lemma Pow2Values()
    ensures Pow2(6) == 0x40 && Pow2(8) == 0x100 && Pow2(12) == 0x1000 && Pow2(14) == 0x4000
    ensures Pow2(16) == 0x1_0000 && Pow2(18) == 0x4_0000 && Pow2(20) == 0x10_0000
    ensures Pow2(24) == 0x100_0000 && Pow2(26) == 0x400_0000 && Pow2(32) == 0x1_0000_0000
  {
    assert Pow2(6) == 0x40 && Pow2(8) == 0x100;
    Pow2Add(6, 6);
    Pow2Add(6, 8);
    Pow2Add(8, 8);
    Pow2Add(12, 6);
    Pow2Add(12, 8);
    Pow2Add(12, 12);
    Pow2Add(12, 14);
    Pow2Add(16, 16);
  }

  lemma WordRange()
    ensures Pow2(32) == TWO32
  {
    assert Pow2(8) == 0x100;
    Pow2Add(8, 8);
    Pow2Add(16, 16);
  }

  lemma NextByteWeight(n: nat)
    ensures Pow2(n + 8) == 0x100 * Pow2(n)
  {
    assert Pow2(8) == 0x100;
    Pow2Add(n, 8);
  }

  /** The word with bytes `b0` (lowest) to `b3`. */
  function Load32(b0: u8, b1: u8, b2: u8, b3: u8): (r: u32)
  {
    b0 + 0x100 * b1 as int + 0x1_0000 * b2 as int + 0x100_0000 * b3 as int
  }

  /** It is what the C expression `b0 | b1 << 8 | b2 << 16 | b3 << 24` computes. */
  lemma LoadIsOr(b0: u8, b1: u8, b2: u8, b3: u8)
    ensures Or(Or(Or(b0, b1 as int * 0x100), b2 as int * 0x1_0000), b3 as int * 0x100_0000)
      == Load32(b0, b1, b2, b3)
  {
    OrAbove(b0, b1, 8, 0x100);
    OrAbove(b0 + b1 as int * 0x100, b2, 16, 0x1_0000);
    OrAbove(b0 + b1 as int * 0x100 + b2 as int * 0x1_0000, b3, 24, 0x100_0000);
  }

  lemma OrAbove(a: nat, b: nat, k: nat, p: nat)
    requires k == 8 || k == 16 || k == 24
    requires p == (if k == 8 then 0x100 else if k == 16 then 0x1_0000 else 0x100_0000) && a < p
    ensures Or(a, b * p) == a + b * p
  {
    Pow2Values();
    OrShifted(a, b, k);
  }

  /** Byte `k` of a word: `(uint8_t)(v >> 8 * k)`. */
  function Byte(v: u32, k: nat): (r: u8)
    requires k < 4
  {
    match k
    case 0 => v % 0x100
    case 1 => v / 0x100 % 0x100
    case 2 => v / 0x1_0000 % 0x100
    case _ => v / 0x100_0000 % 0x100
  }

  lemma DivByBytes(v: nat)
    ensures v / 0x1_0000 == v / 0x100 / 0x100 && v / 0x100_0000 == v / 0x1_0000 / 0x100
  {
  }

  lemma ByteSum(v: u32)
    ensures v == Byte(v, 0) + 0x100 * Byte(v, 1) + 0x1_0000 * Byte(v, 2) + 0x100_0000 * Byte(v, 3)
  {
    DivByBytes(v);
    var a, b, c := v / 0x100, v / 0x1_0000, v / 0x100_0000;
    assert v == v % 0x100 + 0x100 * a;
    assert a == a % 0x100 + 0x100 * b;
    assert b == b % 0x100 + 0x100 * c;
    assert c < 0x100;
  }

  lemma BytesOfWord(v: u32)
    ensures Load32(Byte(v, 0), Byte(v, 1), Byte(v, 2), Byte(v, 3)) == v
  {
    ByteSum(v);
  }

  /** A low part below `2^k` and the bits of `hi` that fit above it. */
  function Join(x: nat, hi: u32, k: nat): (r: u32)
    requires k <= 32 && x < Pow2(k)
  {
    JoinIsOr(x, hi, k);
    x + Pow2(k) * (hi % Pow2(32 - k))
  }

  /** It is what the C expression `x | hi << k` computes in 32 bits. */
  lemma JoinIsOr(x: nat, hi: u32, k: nat)
    requires k <= 32 && x < Pow2(k)
    ensures Or(x, Trunc32(hi as int * Pow2(k))) == x + Pow2(k) * (hi % Pow2(32 - k)) < 0x1_0000_0000
  {
    Pow2Add(k, 32 - k);
    Pow2Values();
    JoinArith(hi, Pow2(k), Pow2(32 - k));
    OrShifted(x, hi % Pow2(32 - k), k);
  }

  lemma JoinArith(hi: nat, p: nat, c: nat)
    requires p > 0 && c > 0 && p * c == 0x1_0000_0000
    ensures hi * p % 0x1_0000_0000 == hi % c * p && hi % c * p == p * (hi % c)
    ensures p * (hi % c) + p <= 0x1_0000_0000
  {
    var q, r := hi / c, hi % c;
    assert hi * p == (p * c) * q + r * p by {
      assert hi == c * q + r;
      assert (c * q + r) * p == (p * c) * q + r * p;
    }
    MulLe(p, p, r + 1, c);
    assert p * (r + 1) == p * r + p;
    DivModUnique(hi * p, 0x1_0000_0000, q, r * p);
  }

  /** `x << k` without a width: `k` doublings. */
  function Shl(x: nat, k: nat): (r: nat)
  {
    if k == 0 then x else 2 * Shl(x, k - 1)
  }

  lemma {:induction false} ShlIsTimes(x: nat, k: nat)
    ensures Shl(x, k) == Pow2(k) * x
  {
    if k > 0 {
      ShlIsTimes(x, k - 1);
      assert 2 * Pow2(k - 1) * x == 2 * (Pow2(k - 1) * x);
    }
  }

  /** AND works on the parts below and above any bit position separately. */
  lemma AndSplit(a: nat, b: nat, c: nat, d: nat, k: nat)
    requires a < Pow2(k) && c < Pow2(k)
    ensures And(a + Shl(b, k), c + Shl(d, k)) == And(a, c) + Shl(And(b, d), k)
  {
    AndSplitAt(a, b, c, d, k, Shl(b, k), Shl(d, k), Shl(And(b, d), k), a + Shl(b, k), c + Shl(d, k));
  }

  lemma {:induction false} AndSplitAt(a: nat, b: nat, c: nat, d: nat, k: nat, x: nat, y: nat, z: nat, s: nat, t: nat)
    requires a < Pow2(k) && c < Pow2(k)
    requires x == Shl(b, k) && y == Shl(d, k) && z == Shl(And(b, d), k) && s == a + x && t == c + y
    ensures And(s, t) == And(a, c) + z
    decreases k
  {
    if k == 0 {
      assert a == 0 && c == 0;
    } else {
      HalfBelow(a, k);
      HalfBelow(c, k);
      ShlStep(b, k);
      ShlStep(d, k);
      ShlStep(And(b, d), k);
      var u, v, w := Shl(b, k - 1), Shl(d, k - 1), Shl(And(b, d), k - 1);
      AndSplitAt(a / 2, b, c / 2, d, k - 1, u, v, w, a / 2 + u, c / 2 + v);
      AndAssemble(a, c, u, v, w, s, t, z);
    }
  }

  lemma ShlStep(x: nat, k: nat)
    requires k > 0
    ensures Shl(x, k) == 2 * Shl(x, k - 1)
  {
  }

  lemma HalfBelow(a: nat, k: nat)
    requires a < Pow2(k) && k > 0
    ensures a / 2 < Pow2(k - 1)
  {
  }

  lemma AndAssemble(a: nat, c: nat, u: nat, v: nat, w: nat, s: nat, t: nat, z: nat)
    requires And(a / 2 + u, c / 2 + v) == And(a / 2, c / 2) + w
    requires s == a + 2 * u && t == c + 2 * v && z == 2 * w
    ensures And(s, t) == And(a, c) + z
  {
    AddEven(a, u);
    AddEven(c, v);
    AndParts(s, t, a / 2 + u, c / 2 + v);
    AndParts(a, c, a / 2, c / 2);
  }

  lemma AddEven(a: nat, t: nat)
    ensures (a + 2 * t) / 2 == a / 2 + t && (a + 2 * t) % 2 == a % 2
  {
  }

  lemma AndParts(a: nat, b: nat, a': nat, b': nat)
    requires a' == a / 2 && b' == b / 2
    ensures And(a, b) == (if a % 2 == 1 && b % 2 == 1 then 1 else 0) + 2 * And(a', b')
  {
  }

  /** `x & 0x3ffffff`, by `AndMask`. */
  function Low26(x: nat): (r: u32)
  {
    x % 0x400_0000
  }

  lemma Distr(x: int, y: int, b: int)
    ensures (x + y) * b == x * b + y * b && (x - y) * b == x * b - y * b
  {
  }

  lemma DivDiv(x: nat, a: nat, b: nat)
    requires a > 0 && b > 0
    ensures a * b > 0 && x / a / b == x / (a * b)
  {
    var q, r := x / a, x % a;
    var q', r' := q / b, q % b;
    assert x == a * (b * q' + r') + r;
    assert a * r' + r < a * b by { MulLe(a, a, r' + 1, b); }
    assert x == (a * b) * q' + (a * r' + r);
    MulPos(a, b);
    DivModUnique(x, a * b, q', a * r' + r);
  }

  lemma QuotientOf(lo: nat, q: nat, b: nat)
    requires lo < b
    ensures (lo + q * b) / b == q
  {
    DivModUnique(lo + q * b, b, q, lo);
  }

  lemma EvenShift(y: nat, p: nat, k: nat)
    requires p > 0
    ensures (y + p * (2 * k)) / p % 2 == y / p % 2
  {
    var q, r := y / p, y % p;
    Distr(q, 2 * k, p);
    DivModUnique(y + p * (2 * k), p, q + 2 * k, r);
  }
}
