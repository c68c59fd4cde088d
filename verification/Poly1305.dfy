/** Poly1305 on five 26-bit limbs (sdk/tools/zz9k-crypto-soft.c) against section 2.5 of RFC 8439. */
module Poly1305 {
  import opened Words
  import opened LittleEndian
  import opened Ring

  const PRIME: nat := 0x3_FFFF_FFFF_FFFF_FFFF_FFFF_FFFF_FFFF_FFFB  // 2^130 - 5

  /** The number that five limbs stand for. */
  function Val(l0: int, l1: int, l2: int, l3: int, l4: int): int
  {
    l0 + 0x400_0000 * l1 + 0x10_0000_0000_0000 * l2
      + 0x4000_0000_0000_0000_0000 * l3 + 0x100_0000_0000_0000_0000_0000_0000 * l4
  }

  function ValOf(l: seq<u32>): int
    requires |l| == 5
  {
    Val(l[0], l[1], l[2], l[3], l[4])
  }

  /** One limb times five, by position. */
  lemma Row(a: int, v0: int, v1: int, v2: int, v3: int, v4: int)
    ensures a * Val(v0, v1, v2, v3, v4) == Val(a * v0, a * v1, a * v2, a * v3, a * v4)
  {
    var c1, c2, c3, c4 := 0x400_0000 * v1, 0x10_0000_0000_0000 * v2, 0x4000_0000_0000_0000_0000 * v3,
      0x100_0000_0000_0000_0000_0000_0000 * v4;
    assert a * (v0 + c1 + c2 + c3 + c4) == a * v0 + a * c1 + a * c2 + a * c3 + a * c4;
  }

  lemma Rows(v: int, a0: int, a1: int, a2: int, a3: int, a4: int)
    ensures Val(a0, a1, a2, a3, a4) * v == Val(a0 * v, a1 * v, a2 * v, a3 * v, a4 * v)
  {
    Row(v, a0, a1, a2, a3, a4);
    assert Val(a0, a1, a2, a3, a4) * v == v * Val(a0, a1, a2, a3, a4);
  }

  /** Multiplying by the limb base rotates the limbs; the one that leaves at the top re-enters
      at the bottom times five, because 2^130 is 5 more than the prime. */
  lemma HornerStep(s0: int, s1: int, s2: int, s3: int, s4: int, w0: int, w1: int, w2: int, w3: int, w4: int)
    ensures 0x400_0000 * Val(s0, s1, s2, s3, s4) + Val(w0, w1, w2, w3, w4)
      == Val(5 * s4 + w0, s0 + w1, s1 + w2, s2 + w3, s3 + w4) + s4 * PRIME
  {
  }

  lemma TimesFive(a: int, r: int)
    ensures a * (r * 5) == 5 * (a * r)
  {
  }

  /** The product of two numbers by limbs, up to a multiple of the prime. */
  lemma HornerProduct(a: seq<int>, r: seq<int>) returns (k: int)
    requires |a| == |r| == 5
    ensures Val(a[0], a[1], a[2], a[3], a[4]) * Val(r[0], r[1], r[2], r[3], r[4])
      == Val(a[0] * r[0] + 5 * (a[1] * r[4]) + 5 * (a[2] * r[3]) + 5 * (a[3] * r[2]) + 5 * (a[4] * r[1]),
             a[0] * r[1] + a[1] * r[0] + 5 * (a[2] * r[4]) + 5 * (a[3] * r[3]) + 5 * (a[4] * r[2]),
             a[0] * r[2] + a[1] * r[1] + a[2] * r[0] + 5 * (a[3] * r[4]) + 5 * (a[4] * r[3]),
             a[0] * r[3] + a[1] * r[2] + a[2] * r[1] + a[3] * r[0] + 5 * (a[4] * r[4]),
             a[0] * r[4] + a[1] * r[3] + a[2] * r[2] + a[3] * r[1] + a[4] * r[0]) + k * PRIME
  {
    var v := Val(r[0], r[1], r[2], r[3], r[4]);
    Row(a[4], r[0], r[1], r[2], r[3], r[4]);
    Row(a[3], r[0], r[1], r[2], r[3], r[4]);
    Row(a[2], r[0], r[1], r[2], r[3], r[4]);
    Row(a[1], r[0], r[1], r[2], r[3], r[4]);
    Row(a[0], r[0], r[1], r[2], r[3], r[4]);
    k := HornerSum(a[0] * r[0], a[0] * r[1], a[0] * r[2], a[0] * r[3], a[0] * r[4],
                   a[1] * r[0], a[1] * r[1], a[1] * r[2], a[1] * r[3], a[1] * r[4],
                   a[2] * r[0], a[2] * r[1], a[2] * r[2], a[2] * r[3], a[2] * r[4],
                   a[3] * r[0], a[3] * r[1], a[3] * r[2], a[3] * r[3], a[3] * r[4],
                   a[4] * r[0], a[4] * r[1], a[4] * r[2], a[4] * r[3], a[4] * r[4]);
    Rows(v, a[0], a[1], a[2], a[3], a[4]);
  }

  /** Twenty-five limb products `pij` at weight i + j, reduced row by row from the top. */
  lemma HornerSum(p00: int, p01: int, p02: int, p03: int, p04: int,
                  p10: int, p11: int, p12: int, p13: int, p14: int,
                  p20: int, p21: int, p22: int, p23: int, p24: int,
                  p30: int, p31: int, p32: int, p33: int, p34: int,
                  p40: int, p41: int, p42: int, p43: int, p44: int) returns (k: int)
    ensures Val(Val(p00, p01, p02, p03, p04), Val(p10, p11, p12, p13, p14), Val(p20, p21, p22, p23, p24),
                Val(p30, p31, p32, p33, p34), Val(p40, p41, p42, p43, p44))
      == Val(p00 + 5 * p14 + 5 * p23 + 5 * p32 + 5 * p41,
             p01 + p10 + 5 * p24 + 5 * p33 + 5 * p42,
             p02 + p11 + p20 + 5 * p34 + 5 * p43,
             p03 + p12 + p21 + p30 + 5 * p44,
             p04 + p13 + p22 + p31 + p40) + k * PRIME
  {
    HornerStep(p40, p41, p42, p43, p44, p30, p31, p32, p33, p34);
    HornerStep(5 * p44 + p30, p40 + p31, p41 + p32, p42 + p33, p43 + p34, p20, p21, p22, p23, p24);
    HornerStep(5 * p43 + 5 * p34 + p20, 5 * p44 + p30 + p21, p40 + p31 + p22, p41 + p32 + p23, p42 + p33 + p24,
               p10, p11, p12, p13, p14);
    k := p44 * 0x4000_0000_0000_0000_0000 + (p43 + p34) * 0x10_0000_0000_0000
      + (p42 + p33 + p24) * 0x400_0000 + (p41 + p32 + p23 + p14);
  }

  /** `((lo >> 32 - m) | (hi << k)) & 0x3ffffff`, with `p = 2^k` and `c = 2^(26 - k)`. */
  lemma JoinedLimb(x: nat, hi: u32, k: nat, p: nat, c: nat)
    requires k <= 26 && p == Pow2(k) && c == Pow2(26 - k) && x < p
    ensures Low26(Join(x, hi, k)) == x + p * (hi % c) < 0x400_0000
  {
    Pow2Add(26 - k, 6);
    Pow2Add(k, 26 - k);
    Pow2Values();
    MaskedSum(x, hi, p, c);
  }

  lemma MaskedSum(x: nat, hi: nat, p: nat, c: nat)
    requires x < p && c > 0 && p * c == 0x400_0000
    ensures (x + p * (hi % (c * 0x40))) % 0x400_0000 == x + p * (hi % c) < 0x400_0000
  {
    ModOfMod(hi, c);
    SumRemainder(x, hi % (c * 0x40), p, c, 0x400_0000);
  }

  lemma SumRemainder(x: nat, y: nat, p: nat, c: nat, m: nat)
    requires x < p && c > 0 && p * c == m > 0
    ensures (x + p * y) % m == x + p * (y % c) < m
  {
    var q, r := y / c, y % c;
    MulLe(p, p, r + 1, c);
    assert p * (r + 1) == p * r + p;
    assert p * (c * q + r) == (p * c) * q + p * r;
    DivModUnique(x + p * y, m, q, x + p * r);
  }

  lemma ModOfMod(hi: nat, c: nat)
    requires c > 0
    ensures hi % (c * 0x40) % c == hi % c
  {
    var q, y := hi / (c * 0x40), hi % (c * 0x40);
    var r := y % c;
    assert hi == c * (0x40 * q + y / c) + r by {
      assert c * 0x40 * q == c * (0x40 * q);
      assert c * (0x40 * q + y / c) == c * (0x40 * q) + c * (y / c);
    }
    DivModUnique(hi, c, 0x40 * q + y / c, r);
  }

  lemma LimbsOfWords(t0: u32, t1: u32, t2: u32, t3: u32)
    ensures Val(t0 % 0x400_0000, t0 / 0x400_0000 + 0x40 * (t1 % 0x10_0000), t1 / 0x10_0000 + 0x1000 * (t2 % 0x4000),
                t2 / 0x4000 + 0x4_0000 * (t3 % 0x100), t3 / 0x100) == Words4(t0, t1, t2, t3)
  {
  }

  /** Limbs 1 to 3 of a number given as words, before and after their 26-bit mask. */
  method JoinWords(t0: u32, t1: u32, t2: u32, t3: u32) returns (x1: u32, x2: u32, x3: u32)
    ensures Low26(x1) == t0 / 0x400_0000 + 0x40 * (t1 % 0x10_0000)
    ensures Low26(x2) == t1 / 0x10_0000 + 0x1000 * (t2 % 0x4000)
    ensures Low26(x3) == t2 / 0x4000 + 0x4_0000 * (t3 % 0x100)
  {
    Pow2Values();
    JoinedLimb(t0 / 0x400_0000, t1, 6, 0x40, 0x10_0000);
    JoinedLimb(t1 / 0x10_0000, t2, 12, 0x1000, 0x4000);
    JoinedLimb(t2 / 0x4000, t3, 18, 0x4_0000, 0x100);
    x1 := Join(t0 / 0x400_0000, t1, 6);
    x2 := Join(t1 / 0x10_0000, t2, 12);
    x3 := Join(t2 / 0x4000, t3, 18);
  }

  method LoadBlock(block: seq<u8>) returns (t0: u32, t1: u32, t2: u32, t3: u32)
    requires |block| == 16
    ensures LeNat(block) == Words4(t0, t1, t2, t3)
  {
    t0, t1, t2, t3 := WordAt(block, 0), WordAt(block, 1), WordAt(block, 2), WordAt(block, 3);
    LeOfBlock(block);
  }

  /** The clamp of section 2.5. */
  const CLAMP: nat := 0x0FFF_FFFC_0FFF_FFFC_0FFF_FFFC_0FFF_FFFF

  lemma ShlByLimb(x: nat)
    ensures Shl(x, 26) == 0x400_0000 * x
  {
    Pow2Values();
    ShlIsTimes(x, 26);
  }

  /** AND of numbers given by a low limb and the rest. */
  lemma AndLimb(a: nat, b: nat, c: nat, d: nat, x: nat, y: nat)
    requires a < 0x400_0000 && c < 0x400_0000 && x == a + 0x400_0000 * b && y == c + 0x400_0000 * d
    ensures And(x, y) == And(a, c) + 0x400_0000 * And(b, d)
  {
    Pow2Values();
    ShlByLimb(b);
    ShlByLimb(d);
    ShlByLimb(And(b, d));
    var e := And(b, d);
    AndSplitAt(a, b, c, d, 26, Shl(b, 26), Shl(d, 26), Shl(e, 26), x, y);
  }

  /** A mask below the limb base only sees the low limb. */
  lemma AndSmallMask(x: nat, mask: nat)
    requires mask < 0x400_0000
    ensures And(x, mask) == And(Low26(x), mask)
  {
    AndLimb(x % 0x400_0000, x / 0x400_0000, mask, 0, x, mask);
  }

  lemma LimbMask(x: nat)
    requires x < 0x400_0000
    ensures And(x, 0x3FF_FFFF) == x
  {
    Pow2Values();
    AndAllOnes(x, 26, 0x3FF_FFFF);
  }

  /** The number that any list of limbs stands for. */
  function LimbSum(l: seq<nat>): (r: nat)
  {
    if l == [] then 0 else l[0] + 0x400_0000 * LimbSum(l[1..])
  }

  lemma {:induction false} AndLimbs(l: seq<nat>, m: seq<nat>, p: seq<nat>)
    requires |l| == |m| == |p| && forall i :: 0 <= i < |l| ==> p[i] == And(l[i], m[i])
    requires forall i :: 0 <= i < |l| ==> l[i] < 0x400_0000 && m[i] < 0x400_0000
    ensures And(LimbSum(l), LimbSum(m)) == LimbSum(p)
  {
    if l != [] {
      AndLimbs(l[1..], m[1..], p[1..]);
      AndLimb(l[0], LimbSum(l[1..]), m[0], LimbSum(m[1..]), LimbSum(l), LimbSum(m));
    }
  }

  lemma LimbSumOfFive(l: seq<nat>)
    requires |l| == 5
    ensures LimbSum(l) == Val(l[0], l[1], l[2], l[3], l[4])
  {
    var a, b, c, d, e := l[0], l[1], l[2], l[3], l[4];
    assert l == [a, b, c, d, e];
    assert [a, b, c, d, e][1..] == [b, c, d, e] && [b, c, d, e][1..] == [c, d, e];
    assert [c, d, e][1..] == [d, e] && [d, e][1..] == [e] && [e][1..] == [];
    assert LimbSum([e]) == e;
    assert LimbSum([d, e]) == d + 0x400_0000 * e;
    assert LimbSum([b, c, d, e]) == b + 0x400_0000 * (c + 0x400_0000 * LimbSum([d, e]));
  }

  /** Masking limb by limb is masking the number: the limb masks are the limbs of the clamp. */
  lemma ClampLimbs(l: seq<nat>, r: seq<nat>)
    requires |l| == |r| == 5 && forall i :: 0 <= i < 5 ==> l[i] < 0x400_0000
    requires r[0] == l[0] && r[1] == And(l[1], 0x3FF_FF03) && r[2] == And(l[2], 0x3FF_C0FF)
    requires r[3] == And(l[3], 0x3F0_3FFF) && r[4] == And(l[4], 0x00F_FFFF)
    ensures And(Val(l[0], l[1], l[2], l[3], l[4]), CLAMP) == Val(r[0], r[1], r[2], r[3], r[4])
  {
    var m := [0x3FF_FFFF, 0x3FF_FF03, 0x3FF_C0FF, 0x3F0_3FFF, 0x00F_FFFF];
    LimbMask(l[0]);
    LimbSumOfFive(l);
    LimbSumOfFive(r);
    LimbSumOfFive(m);
    AndLimbsOf(l, m, r, Val(l[0], l[1], l[2], l[3], l[4]), CLAMP);
  }

  lemma AndLimbsOf(l: seq<nat>, m: seq<nat>, p: seq<nat>, x: nat, y: nat)
    requires |l| == |m| == |p| && forall i :: 0 <= i < |l| ==> p[i] == And(l[i], m[i])
    requires forall i :: 0 <= i < |l| ==> l[i] < 0x400_0000 && m[i] < 0x400_0000
    requires x == LimbSum(l) && y == LimbSum(m)
    ensures And(x, y) == LimbSum(p)
  {
    AndLimbs(l, m, p);
  }

  /** The sum of the first `n` limb products. */
  function Dot(a: seq<u32>, b: seq<u32>, n: nat): (d: nat)
    requires n <= |a| && n <= |b|
  {
    if n == 0 then 0 else
      MulLe(a[n - 1], a[n - 1], b[n - 1], b[n - 1]);
      Dot(a, b, n - 1) + a[n - 1] as int * b[n - 1] as int
  }

  lemma {:induction false} DotBound(a: seq<u32>, amax: nat, b: seq<u32>, bmax: nat, n: nat)
    requires n <= |a| && n <= |b|
    requires forall i :: 0 <= i < n ==> a[i] <= amax && b[i] <= bmax
    ensures Dot(a, b, n) <= n * (amax * bmax)
  {
    if n > 0 {
      DotBound(a, amax, b, bmax, n - 1);
      MulLe(a[n - 1], amax, b[n - 1], bmax);
      assert (n - 1) * (amax * bmax) + amax * bmax == n * (amax * bmax);
    }
  }

  lemma DotOfFive(a: seq<u32>, b: seq<u32>)
    requires |a| == |b| == 5
    ensures Dot(a, b, 5) == a[0] as int * b[0] as int + a[1] as int * b[1] as int + a[2] as int * b[2] as int
      + a[3] as int * b[3] as int + a[4] as int * b[4] as int
  {
    assert Dot(a, b, 1) == Dot(a, b, 0) + a[0] as int * b[0] as int;
    assert Dot(a, b, 3) == Dot(a, b, 1) + a[1] as int * b[1] as int + a[2] as int * b[2] as int;
  }

  /** One column of the product, in 64 bits. */
  method Column(a: seq<u32>, b: seq<u32>, ghost bmax: nat) returns (d: u64)
    requires |a| == |b| == 5 && bmax <= 0x1400_0000
    requires forall i :: 0 <= i < 5 ==> a[i] <= 0x800_003F && b[i] <= bmax
    ensures d == Dot(a, b, 5) <= 5 * (0x800_003F * bmax)
  {
    DotBound(a, 0x800_003F, b, bmax, 5);
    DotOfFive(a, b);
    d := a[0] as int * b[0] as int + a[1] as int * b[1] as int + a[2] as int * b[2] as int
      + a[3] as int * b[3] as int + a[4] as int * b[4] as int;
  }

  lemma LowOfTrunc(d: u64)
    ensures Low26(Trunc32(d)) == d % 0x400_0000
  {
    var q, r := d / TWO32, d % TWO32;
    var q', r' := r / 0x400_0000, r % 0x400_0000;
    DivModUnique(d, 0x400_0000, 0x40 * q + q', r');
  }

  /** The bounds every block step keeps: all limbs below 2^26 but limb 1, which may exceed by 63. */
  predicate LimbsOk(h: seq<u32>)
  {
    && |h| == 5
    && h[0] < 0x400_0000 && h[1] < 0x400_0040
    && h[2] < 0x400_0000 && h[3] < 0x400_0000 && h[4] < 0x400_0000
  }

  /** `(uint32_t)d & 0x3ffffff` and `(uint32_t)(d >> 26)`. */
  method CutColumn(d: u64) returns (low: u32, carry: u32)
    requires d < 0x400_0000_0000_0000
    ensures d == low + 0x400_0000 * carry && low < 0x400_0000
  {
    LowOfTrunc(d);
    low, carry := Low26(Trunc32(d)), d / 0x400_0000;
  }

  method CutLimb(x: u32) returns (low: u32, carry: u32)
    ensures x == low + 0x400_0000 * carry && low < 0x400_0000
  {
    low, carry := Low26(x), x / 0x400_0000;
  }

  /** The carry pass of the block step.  No carry overflows 32 bits, not even the top one times
      five (no factor of five went into its column), and at most 63 is left over on limb 1. */
  method CarryColumns(c0: u64, c1: u64, c2: u64, c3: u64, c4: u64) returns (h: seq<u32>)
    requires c0 < 0x321_0000_0000_0000 && c1 < 0x321_0000_0000_0000 && c2 < 0x321_0000_0000_0000
    requires c3 < 0x321_0000_0000_0000 && c4 <= 0xA0_0005_0000_0000
    ensures LimbsOk(h) && Cong(ValOf(h), Val(c0, c1, c2, c3, c4), PRIME)
  {
    var h0, h1, h2, h3, h4, c;
    h0, c := CutColumn(c0);
    h1, c := CutColumn(c1 + c);
    h2, c := CutColumn(c2 + c);
    h3, c := CutColumn(c3 + c);
    h4, c := CutColumn(c4 + c);
    ghost var top: int, w0: int, w1: int := c, h0, h1;
    h0, c := CutLimb(h0 + c * 5);
    h1 := h1 + c;
    h := [h0, h1, h2, h3, h4];
    TopCarry(Val(c0, c1, c2, c3, c4), w0, w1, h2, h3, h4, top, h0, h1, c);
  }

  /** The top carry is worth 2^130, which is five more than the prime. */
  lemma TopCarry(v: int, w0: int, w1: int, h2: int, h3: int, h4: int, top: int, h0: int, h1: int, c: int)
    requires v == Val(w0, w1, h2, h3, h4) + 0x4_0000_0000_0000_0000_0000_0000_0000_0000 * top
    requires h0 + 0x400_0000 * c == w0 + 5 * top && h1 == w1 + c
    ensures Cong(Val(h0, h1, h2, h3, h4), v, PRIME)
  {
    CongByMultiple(v, Val(h0, h1, h2, h3, h4), top, PRIME);
  }

  /** One step of the accumulator: `((acc + block) * r) mod p`. */
  function Step(acc: nat, block: nat, r: nat): (a: nat)
    ensures a < PRIME
  {
    (acc + block) * r % PRIME
  }

  /** A block with the bit above it set: full blocks of 16 bytes and the final short one alike. */
  function Padded(block: seq<u8>): (n: nat)
    requires |block| <= 16
  {
    LeNat(block) + Pow2(8 * |block|)
  }

  /** The accumulator of section 2.5 over a whole message. */
  function Accumulate(acc: nat, msg: seq<u8>, r: nat): (a: nat)
    decreases |msg|
  {
    if msg == [] then acc
    else
      var n := if |msg| < 16 then |msg| else 16;
      Accumulate(Step(acc, Padded(msg[..n]), r), msg[n..], r)
  }

  /** The Poly1305 state: clamped multiplier, accumulator and final addend, in limbs and words. */
  class State {
    var r: seq<u32>
    var h: seq<u32>
    var pad: seq<u32>

    ghost predicate Valid()
      reads this
    {
      && |r| == 5 && (forall i :: 0 <= i < 5 ==> r[i] < 0x400_0000)
      && LimbsOk(h)
      && |pad| == 4
    }

    /** The accumulator as a field element, the multiplier, and the addend. */
    ghost function Acc(): (a: nat)
      requires Valid()
      reads this
    {
      ValOf(h) % PRIME
    }

    ghost function R(): (a: nat)
      requires Valid()
      reads this
    {
      ValOf(r)
    }

    ghost function S(): (a: nat)
      requires Valid()
      reads this
    {
      Words4(pad[0], pad[1], pad[2], pad[3])
    }

    constructor Make(limbs: seq<u32>, words: seq<u32>)
      requires |limbs| == 5 && (forall i :: 0 <= i < 5 ==> limbs[i] < 0x400_0000) && |words| == 4
      ensures Valid() && h == [0, 0, 0, 0, 0] && r == limbs && pad == words
    {
      r, h, pad := limbs, [0, 0, 0, 0, 0], words;
    }

    /** `poly1305_block`. */
    method Block(block: seq<u8>, hibit: u32)
      requires Valid() && |block| == 16 && (hibit == 0 || hibit == 0x100_0000)
      modifies this
      ensures Valid() && R() == old(R()) && S() == old(S())
      ensures Acc() == Step(old(Acc()), BlockNumber(block, hibit), R())
    {
      h := Absorb(h, r, block, hibit);
    }
  }

  /** The number a block adds to the accumulator. */
  function BlockNumber(block: seq<u8>, hibit: u32): (n: nat)
    requires |block| == 16
  {
    if hibit == 0 then LeNat(block) else Padded(block)
  }

  method Absorb(h: seq<u32>, r: seq<u32>, block: seq<u8>, hibit: u32) returns (h': seq<u32>)
    requires LimbsOk(h) && |r| == 5 && (forall i :: 0 <= i < 5 ==> r[i] < 0x400_0000)
    requires |block| == 16 && (hibit == 0 || hibit == 0x100_0000)
    ensures LimbsOk(h') && ValOf(h') % PRIME == Step(ValOf(h) % PRIME, BlockNumber(block, hibit), ValOf(r))
  {
    var a := AddBlock(h, block, hibit);
    h' := MultiplyReduce(a, r);
    StepCong(ValOf(h), BlockNumber(block, hibit), ValOf(r), ValOf(a), ValOf(h'));
  }

  /** The block's limbs, with the high bit, added to the accumulator. */
  method AddBlock(h: seq<u32>, block: seq<u8>, hibit: u32) returns (a: seq<u32>)
    requires LimbsOk(h) && |block| == 16 && (hibit == 0 || hibit == 0x100_0000)
    ensures |a| == 5 && forall i :: 0 <= i < 5 ==> a[i] <= 0x800_003F
    ensures ValOf(a) == ValOf(h) + BlockNumber(block, hibit)
  {
    var t0, t1, t2, t3 := LoadBlock(block);
    var x1, x2, x3 := JoinWords(t0, t1, t2, t3);
    LimbsOfWords(t0, t1, t2, t3);
    HighBit(t3, hibit);
    assert Pow2(8 * |block|) == 0x1_0000_0000_0000_0000_0000_0000_0000_0000 by { WordWeights(); }
    var m4 := Or(t3 / 0x100, hibit);
    a := [h[0] + Low26(t0), h[1] + Low26(x1), h[2] + Low26(x2), h[3] + Low26(x3), h[4] + m4];
  }

  lemma HighBit(t: u32, hibit: u32)
    requires hibit == 0 || hibit == 0x100_0000
    ensures Or(t / 0x100, hibit) == t / 0x100 + hibit
  {
    Pow2Values();
    if hibit != 0 { OrShifted(t / 0x100, 1, 24); }
  }

  lemma StepCong(h: nat, n: nat, r: nat, a: nat, h': nat)
    requires a == h + n && Cong(h', a * r, PRIME)
    ensures h' % PRIME == Step(h % PRIME, n, r)
  {
    CongReduced(h, PRIME);
    CongAdd(h % PRIME, h, n, n, PRIME);
    CongMul(h % PRIME + n, h + n, r, r, PRIME);
  }

  /** `poly1305_init`. */
  method Init(key: seq<u8>) returns (st: State)
    requires |key| == 32
    ensures fresh(st) && st.Valid() && st.Acc() == 0
    ensures st.R() == And(LeNat(key[..16]), CLAMP) && st.S() == LeNat(key[16..])
  {
    var r := ClampBlock(key[..16]);
    var p0, p1, p2, p3 := LoadBlock(key[16..]);
    st := new State.Make(r, [p0, p1, p2, p3]);
  }

  method ClampBlock(block: seq<u8>) returns (r: seq<u32>)
    requires |block| == 16
    ensures |r| == 5 && (forall i :: 0 <= i < 5 ==> r[i] < 0x400_0000)
    ensures ValOf(r) == And(LeNat(block), CLAMP)
  {
    var t0, t1, t2, t3 := LoadBlock(block);
    r := ClampWords(t0, t1, t2, t3, LeNat(block));
  }

  method ClampWords(t0: u32, t1: u32, t2: u32, t3: u32, ghost w: nat) returns (r: seq<u32>)
    requires w == Words4(t0, t1, t2, t3)
    ensures |r| == 5 && (forall i :: 0 <= i < 5 ==> r[i] < 0x400_0000)
    ensures ValOf(r) == And(w, CLAMP)
  {
    var x1, x2, x3 := JoinWords(t0, t1, t2, t3);
    LimbsOfWords(t0, t1, t2, t3);
    var r1 := And(x1, 0x3FF_FF03);
    var r2 := And(x2, 0x3FF_C0FF);
    var r3 := And(x3, 0x3F0_3FFF);
    var r4 := And(t3 / 0x100, 0x00F_FFFF);
    r := [Low26(t0), r1, r2, r3, r4];
    ClampMasked(Low26(t0), x1, x2, x3, t3 / 0x100, r1, r2, r3, r4, w);
  }

  lemma ClampMasked(l0: nat, x1: nat, x2: nat, x3: nat, l4: nat, r1: nat, r2: nat, r3: nat, r4: nat, w: nat)
    requires w == Val(l0, Low26(x1), Low26(x2), Low26(x3), l4) && l0 < 0x400_0000 && l4 < 0x400_0000
    requires r1 == And(x1, 0x3FF_FF03) && r2 == And(x2, 0x3FF_C0FF) && r3 == And(x3, 0x3F0_3FFF)
    requires r4 == And(l4, 0x00F_FFFF)
    ensures Val(l0, r1, r2, r3, r4) == And(w, CLAMP)
  {
    AndSmallMask(x1, 0x3FF_FF03);
    AndSmallMask(x2, 0x3FF_C0FF);
    AndSmallMask(x3, 0x3F0_3FFF);
    ClampLimbs([l0, Low26(x1), Low26(x2), Low26(x3), l4], [l0, r1, r2, r3, r4]);
  }

  /** The five columns and the carry pass: `a * r` mod p. */
  method MultiplyReduce(a: seq<u32>, r: seq<u32>) returns (h: seq<u32>)
    requires |a| == |r| == 5
    requires forall i :: 0 <= i < 5 ==> a[i] <= 0x800_003F && r[i] < 0x400_0000
    ensures LimbsOk(h) && Cong(ValOf(h), ValOf(a) * ValOf(r), PRIME)
  {
    var s1: u32 := r[1] * 5;
    var s2: u32 := r[2] * 5;
    var s3: u32 := r[3] * 5;
    var s4: u32 := r[4] * 5;
    var d0 := Column(a, [r[0], s4, s3, s2, s1], 0x1400_0000);
    var d1 := Column(a, [r[1], r[0], s4, s3, s2], 0x1400_0000);
    var d2 := Column(a, [r[2], r[1], r[0], s4, s3], 0x1400_0000);
    var d3 := Column(a, [r[3], r[2], r[1], r[0], s4], 0x1400_0000);
    var d4 := Column(a, [r[4], r[3], r[2], r[1], r[0]], 0x3FF_FFFF);
    h := CarryColumns(d0, d1, d2, d3, d4);
    ColumnsAreProduct(a, r, s1, s2, s3, s4);
  }

  lemma ColumnsAreProduct(a: seq<u32>, r: seq<u32>, s1: u32, s2: u32, s3: u32, s4: u32)
    requires |a| == |r| == 5
    requires s1 == 5 * r[1] as int && s2 == 5 * r[2] as int && s3 == 5 * r[3] as int && s4 == 5 * r[4] as int
    ensures Cong(Val(Dot(a, [r[0], s4, s3, s2, s1], 5), Dot(a, [r[1], r[0], s4, s3, s2], 5),
                     Dot(a, [r[2], r[1], r[0], s4, s3], 5), Dot(a, [r[3], r[2], r[1], r[0], s4], 5),
                     Dot(a, [r[4], r[3], r[2], r[1], r[0]], 5)),
                 ValOf(a) * ValOf(r), PRIME)
  {
    DotOfFive(a, [r[0], s4, s3, s2, s1]);
    DotOfFive(a, [r[1], r[0], s4, s3, s2]);
    DotOfFive(a, [r[2], r[1], r[0], s4, s3]);
    DotOfFive(a, [r[3], r[2], r[1], r[0], s4]);
    DotOfFive(a, [r[4], r[3], r[2], r[1], r[0]]);
    SumsAreProduct(a, r, s1, s2, s3, s4,
      Dot(a, [r[0], s4, s3, s2, s1], 5), Dot(a, [r[1], r[0], s4, s3, s2], 5), Dot(a, [r[2], r[1], r[0], s4, s3], 5),
      Dot(a, [r[3], r[2], r[1], r[0], s4], 5), Dot(a, [r[4], r[3], r[2], r[1], r[0]], 5));
  }

  lemma SumsAreProduct(a: seq<int>, r: seq<int>, s1: int, s2: int, s3: int, s4: int, d0: int, d1: int, d2: int, d3: int, d4: int)
    requires |a| == |r| == 5 && s1 == 5 * r[1] && s2 == 5 * r[2] && s3 == 5 * r[3] && s4 == 5 * r[4]
    requires d0 == a[0] * r[0] + a[1] * s4 + a[2] * s3 + a[3] * s2 + a[4] * s1
    requires d1 == a[0] * r[1] + a[1] * r[0] + a[2] * s4 + a[3] * s3 + a[4] * s2
    requires d2 == a[0] * r[2] + a[1] * r[1] + a[2] * r[0] + a[3] * s4 + a[4] * s3
    requires d3 == a[0] * r[3] + a[1] * r[2] + a[2] * r[1] + a[3] * r[0] + a[4] * s4
    requires d4 == a[0] * r[4] + a[1] * r[3] + a[2] * r[2] + a[3] * r[1] + a[4] * r[0]
    ensures Cong(Val(d0, d1, d2, d3, d4), Val(a[0], a[1], a[2], a[3], a[4]) * Val(r[0], r[1], r[2], r[3], r[4]), PRIME)
  {
    var k := HornerProduct(a, r);
    TimesFive(a[1], r[4]); TimesFive(a[2], r[3]); TimesFive(a[3], r[2]); TimesFive(a[4], r[1]);
    TimesFive(a[2], r[4]); TimesFive(a[3], r[3]); TimesFive(a[4], r[2]);
    TimesFive(a[3], r[4]); TimesFive(a[4], r[3]);
    TimesFive(a[4], r[4]);
    CongByMultiple(Val(a[0], a[1], a[2], a[3], a[4]) * Val(r[0], r[1], r[2], r[3], r[4]), Val(d0, d1, d2, d3, d4), k, PRIME);
  }
}
