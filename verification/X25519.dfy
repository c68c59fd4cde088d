/** The X25519 function of RFC 7748 section 5 as the code computes it. */
module X25519 {
  import opened Words
  import opened LittleEndian
  import opened Ring
  import opened BignumMod
  import opened Field25519
  import opened Fe25519
  import opened Encoding25519

  /** The working values of the ladder, as field elements. */
  datatype Ladder = Ladder(x2: nat, z2: nat, x3: nat, z3: nat)

  /** The conditional swap of section 5. */
  function CSwap(swap: bool, q: Ladder): (r: Ladder)
  {
    if swap then Ladder(q.x3, q.z3, q.x2, q.z2) else q
  }

  /** One iteration of the pseudocode in section 5, after its conditional swap. */
  function LadderStep(q: Ladder, x1: nat): (r: Ladder)
  {
    var p := P25519;
    var A := FAdd(q.x2, q.z2, p);
    var AA := FMul(A, A, p);
    var B := FSub(q.x2, q.z2, p);
    var BB := FMul(B, B, p);
    var E := FSub(AA, BB, p);
    var C := FAdd(q.x3, q.z3, p);
    var D := FSub(q.x3, q.z3, p);
    var DA := FMul(D, A, p);
    var CB := FMul(C, B, p);
    var s := FAdd(DA, CB, p);
    var d := FSub(DA, CB, p);
    Ladder(FMul(AA, BB, p), FMul(E, FAdd(AA, FMul(A24, E, p), p), p),
           FMul(s, s, p), FMul(x1, FMul(d, d, p), p))
  }

  function BitOf(k: nat, t: nat): bool
  {
    k / Pow2(t) % 2 == 1
  }

  datatype Run = Run(q: Ladder, swap: bool)

  /** The pseudocode's state once the bits of `k` from 254 down to `t` have been taken. */
  function RunTo(k: nat, u: nat, t: nat): (r: Run)
    requires t <= 255
    decreases 255 - t
  {
    if t == 255 then Run(Ladder(1, 0, u, 1), false)
    else
      var r := RunTo(k, u, t + 1);
      Run(LadderStep(CSwap(r.swap != BitOf(k, t), r.q), u), BitOf(k, t))
  }

  /** `z^(p-2)`, the inverse of section 5. */
  function Inverse(z: nat): (r: nat)
  {
    Pow(z, P25519 - 2) % P25519
  }

  function X(k: nat, u: nat): (r: nat)
  {
    var r := RunTo(k, u, 0);
    var q := CSwap(r.swap, r.q);
    FMul(q.x2, Inverse(q.z2), P25519)
  }

  const TWO240: nat := 0x1_0000_0000_0000_0000_0000_0000_0000_0000_0000_0000_0000_0000_0000_0000_0000
  const TWO245: nat := 0x20_0000_0000_0000_0000_0000_0000_0000_0000_0000_0000_0000_0000_0000_0000_0000
  const TWO248: nat := 0x100_0000_0000_0000_0000_0000_0000_0000_0000_0000_0000_0000_0000_0000_0000_0000
  const TWO251: nat := 0x800_0000_0000_0000_0000_0000_0000_0000_0000_0000_0000_0000_0000_0000_0000_0000
  const TWO254: nat := 0x4000_0000_0000_0000_0000_0000_0000_0000_0000_0000_0000_0000_0000_0000_0000_0000

  /** `decodeScalar25519` of section 5: bits 0 to 2 and 255 cleared, bit 254 set. */
  function DecodeScalar(k: nat): (r: nat)
  {
    TWO254 + 8 * (k / 8 % TWO251)
  }

  /** `fe25519_cswap`, by mask and exclusive or. */
  method CondSwap(f: seq<u32>, g: seq<u32>, b: u32) returns (f': seq<u32>, g': seq<u32>)
    requires |f| == |g| == 10 && b <= 1
    ensures f' == (if b == 1 then g else f) && g' == if b == 1 then f else g
  {
    var mask := Trunc32(-(b as int));
    DivModUnique(-(b as int), TWO32, -(b as int), b * 0xFFFF_FFFF);
    var x, y := new u32[10], new u32[10];
    for i := 0 to 10
      invariant forall k :: 0 <= k < i ==> x[k] == (if b == 1 then g else f)[k] && y[k] == (if b == 1 then f else g)[k]
    {
      MaskedSwap(f[i], g[i], b, mask);
      var t := And(Xor(f[i], g[i]), mask);
      x[i], y[i] := Xor(f[i], t), Xor(g[i], t);
    }
    f', g' := x[..], y[..];
  }

  lemma MaskedSwap(x: u32, y: u32, b: u32, mask: u32)
    requires b <= 1 && mask == b * 0xFFFF_FFFF
    ensures var t := And(Xor(x, y), mask);
      Xor(x, t) == (if b == 1 then y else x) && Xor(y, t) == (if b == 1 then x else y)
  {
    if b == 1 {
      WordRange();
      SwapByMask(x, y, 32, mask);
    }
  }

  lemma SwapByMask(x: nat, y: nat, k: nat, m: nat)
    requires x < Pow2(k) && y < Pow2(k) && m + 1 == Pow2(k)
    ensures var t := And(Xor(x, y), m); Xor(x, t) == y && Xor(y, t) == x
  {
    XorFits(x, y, k);
    AndAllOnes(Xor(x, y), k, m);
    XorCancels(x, y);
    XorCommutes(x, y);
    XorCancels(y, x);
  }

  /** `h` stands for `z` to the power `e`. */
  ghost predicate IsPower(h: seq<u32>, z: nat, e: nat)
  {
    Tight(h) && Res(h) == Pow(z, e) % P25519
  }

  method MulPowers(f: seq<u32>, g: seq<u32>, ghost z: nat, ghost a: nat, ghost b: nat) returns (h: seq<u32>)
    requires IsPower(f, z, a) && IsPower(g, z, b)
    ensures IsPower(h, z, a + b)
  {
    h := Mul(f, g);
    PowAdd(z, a, b);
    MulModBoth(Pow(z, a), Pow(z, b), P25519);
  }

  /** `n` squarings in a row. */
  method Squarings(f: seq<u32>, n: nat, ghost z: nat, ghost e: nat) returns (h: seq<u32>)
    requires IsPower(f, z, e)
    ensures IsPower(h, z, e * Pow2(n))
  {
    h := f;
    for i := 0 to n
      invariant IsPower(h, z, e * Pow2(i))
    {
      h := MulPowers(h, h, z, e * Pow2(i), e * Pow2(i));
      Doubled(e, Pow2(i));
    }
  }

  lemma Doubled(e: nat, p: nat)
    ensures e * p + e * p == e * (2 * p)
  {
  }

  /** From `z^(2^k1 - 1)` and `z^(2^k2 - 1)` to `z^(2^(k1 + k2) - 1)`. */
  method Extend(f: seq<u32>, g: seq<u32>, n: nat, ghost z: nat, ghost k1: nat, ghost k2: nat)
    returns (h: seq<u32>, ghost k: nat)
    requires n == k2 && IsPower(f, z, Pow2(k1) - 1) && IsPower(g, z, Pow2(k2) - 1)
    ensures k == k1 + k2 && IsPower(h, z, Pow2(k) - 1)
  {
    k := k1 + k2;
    ExtendedRun(k1, k2);
    h := JoinPowers(f, g, n, z, Pow2(k1) - 1, Pow2(k2) - 1, Pow2(k) - 1);
  }

  /** `n` squarings and a product: the exponents are written one after the other. */
  method JoinPowers(f: seq<u32>, g: seq<u32>, n: nat, ghost z: nat, ghost a: nat, ghost b: nat, ghost e: nat)
    returns (h: seq<u32>)
    requires IsPower(f, z, a) && IsPower(g, z, b) && e == a * Pow2(n) + b
    ensures IsPower(h, z, e)
  {
    var t := Squarings(f, n, z, a);
    h := MulPowers(t, g, z, a * Pow2(n), b);
  }

  lemma ExtendedRun(k1: nat, k2: nat)
    ensures Pow2(k1 + k2) - 1 == (Pow2(k1) - 1) * Pow2(k2) + (Pow2(k2) - 1)
  {
    Pow2Add(k1, k2);
    Distr(Pow2(k1), 1, Pow2(k2));
  }

  /** The long middle part of `fe25519_invert`: from `z^(2^5 - 1)` to `z^(2^250 - 1)`. */
  method LongRun(t: seq<u32>, ghost x: nat) returns (t1: seq<u32>, ghost k250: nat)
    requires IsPower(t, x, Pow2(5) - 1)
    ensures k250 == 250 && IsPower(t1, x, Pow2(k250) - 1)
  {
    ghost var k5, k10, k20, k40, k50, k100, k200 := 5, 0, 0, 0, 0, 0, 0;
    var t2: seq<u32>;
    t1, k10 := Extend(t, t, 5, x, k5, k5);
    t2, k20 := Extend(t1, t1, 10, x, k10, k10);
    t2, k40 := Extend(t2, t2, 20, x, k20, k20);
    t1, k50 := Extend(t2, t1, 10, x, k40, k10);
    t2, k100 := Extend(t1, t1, 50, x, k50, k50);
    t2, k200 := Extend(t2, t2, 100, x, k100, k100);
    t1, k250 := Extend(t2, t1, 50, x, k200, k50);
  }

  /** `fe25519_invert`. */
  method Invert(z: seq<u32>) returns (out: seq<u32>)
    requires Tight(z)
    ensures Tight(out) && Res(out) == Inverse(Res(z))
  {
    ghost var x := Res(z);
    var t0, t1 := ShortPowers(z, x);
    ghost var k, e;
    t1, k := LongRun(t1, x);
    t1 := Squarings(t1, 5, x, Pow2(k) - 1);
    e := (Pow2(k) - 1) * Pow2(5);
    out := MulPowers(t1, t0, x, e, 11);
    InverseExponent(k);
  }

  lemma InverseExponent(k: nat)
    requires k == 250
    ensures (Pow2(k) - 1) * Pow2(5) + 11 == P25519 - 2
  {
    Pow2Values();
    WordWeights();
    Pow2Add(128, 96);
    Pow2Add(224, 26);
    assert Pow2(5) == 32;
  }

  /** `z^11` and `z^(2^5 - 1)`. */
  method ShortPowers(z: seq<u32>, ghost x: nat) returns (t0: seq<u32>, t1: seq<u32>)
    requires Tight(z) && x == Res(z)
    ensures IsPower(t0, x, 11) && IsPower(t1, x, Pow2(5) - 1)
  {
    FirstPower(z, x);
    t0, t1 := UpToNine(z, x);
    t0 := MulPowers(t0, t1, x, 2, 9);
    var t2 := MulPowers(t0, t0, x, 11, 11);
    t1 := MulPowers(t1, t2, x, 9, 22);
    assert Pow2(5) - 1 == 31;
  }

  lemma FirstPower(z: seq<u32>, x: nat)
    requires Tight(z) && x == Res(z)
    ensures IsPower(z, x, 1)
  {
    DivModUnique(x, P25519, 0, x);
    assert Pow(x, 1) == x * Pow(x, 0);
  }

  /** `z^2` and `z^9`. */
  method UpToNine(z: seq<u32>, ghost x: nat) returns (t0: seq<u32>, t1: seq<u32>)
    requires IsPower(z, x, 1)
    ensures IsPower(t0, x, 2) && IsPower(t1, x, 9)
  {
    t0 := MulPowers(z, z, x, 1, 1);
    t1 := MulPowers(t0, t0, x, 2, 2);
    t1 := MulPowers(t1, t1, x, 4, 4);
    t1 := MulPowers(z, t1, x, 1, 8);
  }

  /** One iteration of `x25519_ladder` after its conditional swaps. */
  method Step(x1: seq<u32>, x2: seq<u32>, z2: seq<u32>, x3: seq<u32>, z3: seq<u32>)
    returns (x2': seq<u32>, z2': seq<u32>, x3': seq<u32>, z3': seq<u32>)
    requires Tight(x1) && Tight(x2) && Tight(z2) && Tight(x3) && Tight(z3)
    ensures Tight(x2') && Tight(z2') && Tight(x3') && Tight(z3')
    ensures Ladder(Res(x2'), Res(z2'), Res(x3'), Res(z3'))
      == LadderStep(Ladder(Res(x2), Res(z2), Res(x3), Res(z3)), Res(x1))
  {
    var A := Add(x2, z2);
    var AA := Mul(A, A);
    var B := Sub(x2, z2);
    var BB := Mul(B, B);
    var E := Sub(AA, BB);
    var C := Add(x3, z3);
    var D := Sub(x3, z3);
    var DA := Mul(D, A);
    var CB := Mul(C, B);
    var tmp := Add(DA, CB);
    x3' := Mul(tmp, tmp);
    tmp := Sub(DA, CB);
    z3' := Mul(tmp, tmp);
    z3' := Mul(z3', x1);
    x2' := Mul(AA, BB);
    tmp := MulA24(E);
    tmp := Add(AA, tmp);
    z2' := Mul(E, tmp);
  }

  /** Clamping as `x25519_ladder` does it is `decodeScalar25519`. */
  method Clamp(k: seq<u8>) returns (e: seq<u8>)
    requires |k| == 32
    ensures |e| == 32 && LeNat(e) == DecodeScalar(LeNat(k))
  {
    ClampLow(k[0]);
    ClampHigh(k[31]);
    e := k[0 := And(k[0], 248)][31 := Or(And(k[31], 127), 64)];
    ClampValue(k, e);
  }

  lemma ClampLow(b: u8)
    ensures And(b, 248) == b / 8 * 8
  {
    assert Pow2(3) == 8 && Pow2(5) == 32;
    ClearLow(b % 8, b / 8, 31, 3, 8, b, 248);
    AndAllOnes(b / 8, 5, 31);
  }

  lemma ClearLow(lo: nat, hi: nat, m: nat, k: nat, p: nat, x: nat, y: nat)
    requires p == Pow2(k) && lo < p && x == lo + p * hi && y == p * m
    ensures And(x, y) == p * And(hi, m)
  {
    ShlIsTimes(hi, k);
    ShlIsTimes(m, k);
    ShlIsTimes(And(hi, m), k);
    AndSplitAt(lo, hi, 0, m, k, p * hi, y, p * And(hi, m), x, y);
  }

  lemma ClampHigh(b: u8)
    ensures Or(And(b, 127), 64) == b % 64 + 64
  {
    assert Pow2(6) == 64;
    ClampTop(b, 6, 127, 64);
  }

  lemma ClampTop(b: nat, k: nat, m: nat, p: nat)
    requires p == Pow2(k) && m + 1 == 2 * p
    ensures Or(And(b, m), p) == b % p + p
  {
    MaskBelow(b, k + 1, m, 2 * p);
    RemainderOfHalf(b, p, b % (2 * p));
    SetBit(b % (2 * p), k, p);
  }

  lemma RemainderOfHalf(b: nat, p: nat, y: nat)
    requires p > 0 && y == b % (2 * p)
    ensures b % p == if y < p then y else y - p
  {
    var q := b / (2 * p);
    assert b == p * (2 * q) + y;
    if y < p {
      DivModUnique(b, p, 2 * q, y);
    } else {
      assert p * (2 * q + 1) == p * (2 * q) + p;
      DivModUnique(b, p, 2 * q + 1, y - p);
    }
  }

  lemma SetBit(y: nat, k: nat, p: nat)
    requires p == Pow2(k) && y < 2 * p
    ensures Or(y, p) == if y < p then y + p else y
  {
    if y < p { OrShifted(y, 1, k); } else { OrTopBit(y - p, k); }
  }

  lemma {:induction false} OrTopBit(lo: nat, k: nat)
    requires lo < Pow2(k)
    ensures Or(lo + Pow2(k), Pow2(k)) == lo + Pow2(k)
    decreases k
  {
    if k > 0 {
      OrTopBit(lo / 2, k - 1);
      AddEven(lo, Pow2(k - 1));
    }
  }

  lemma ClampValue(k: seq<u8>, e: seq<u8>)
    requires |k| == |e| == 32 && e[0] == k[0] / 8 * 8 && e[31] == k[31] % 64 + 64
    requires forall i :: 1 <= i < 31 ==> e[i] == k[i]
    ensures LeNat(e) == DecodeScalar(LeNat(k))
  {
    EndsAndMiddle(k);
    EndsAndMiddle(e);
    LePrefix(k[1..], e[1..], 30);
    ScalarArith(k[0], LeTo(k[1..], 30), k[31]);
  }

  lemma EndsAndMiddle(k: seq<u8>)
    requires |k| == 32
    ensures LeTo(k[1..], 30) < TWO240
    ensures LeNat(k) == k[0] + 0x100 * LeTo(k[1..], 30) + TWO248 * k[31]
  {
    var n := 240;
    PowerOf240(n);
    LeBound(k[1..], 30);
    assert LeTo(k[1..], 31) == LeTo(k[1..], 30) + k[31] * Pow2(n);
    FirstByte(k);
    TopTerm(LeTo(k[1..], 30), k[31], Pow2(n));
  }

  lemma FirstByte(k: seq<u8>)
    requires |k| > 0
    ensures LeNat(k) == k[0] + 0x100 * LeTo(k[1..], |k| - 1)
  {
    var z := 0;
    assert LeTo(k, z) == 0 && Pow2(8 * z) == 1;
    SplitAtByte(k, z);
  }

  lemma TopTerm(m: int, b: int, p: int)
    ensures 0x100 * (m + b * p) == 0x100 * m + (0x100 * p) * b
  {
  }

  lemma PowerOf240(n: nat)
    requires n == 240
    ensures Pow2(n) == TWO240
  {
    Pow2Values();
    WordWeights();
    Pow2Add(128, 96);
    Pow2Add(224, 16);
  }

  lemma ScalarArith(k0: int, m: int, k31: int)
    requires 0 <= k0 < 0x100 && 0 <= m < TWO240 && 0 <= k31 < 0x100
    ensures k0 / 8 * 8 + 0x100 * m + TWO248 * (k31 % 64 + 64)
      == DecodeScalar(k0 + 0x100 * m + TWO248 * k31)
  {
    ScalarParts(k0 / 8, k0 % 8, m, k31 % 64, k31 / 64, k0 + 0x100 * m + TWO248 * k31);
  }

  lemma ScalarParts(a: nat, b: nat, m: nat, c: nat, d: nat, n: nat)
    requires a < 0x20 && b < 8 && m < TWO240 && c < 64
    requires n == 8 * a + b + 0x100 * m + TWO248 * (64 * d + c)
    ensures 8 * a + 0x100 * m + TWO248 * (c + 64) == DecodeScalar(n)
  {
    DecodedAs(n, b, a + 32 * m + TWO245 * c, d);
  }

  /** Decoding drops the bits below bit 3 and the top bits, and sets bit 254. */
  lemma DecodedAs(n: nat, lowest: nat, low: nat, top: nat)
    requires n == lowest + 8 * (low + TWO251 * top) && lowest < 8 && low < TWO251
    ensures DecodeScalar(n) == TWO254 + 8 * low
  {
    DivModUnique(n, 8, low + TWO251 * top, lowest);
    DivModUnique(n / 8, TWO251, top, low);
  }

  /** `fe25519_0` and `fe25519_1`. */
  method Constant(c: u32) returns (h: seq<u32>)
    requires c <= 1
    ensures Tight(h) && Res(h) == c
  {
    h := [c, 0, 0, 0, 0, 0, 0, 0, 0, 0];
    CarriedIsTight(h);
    DivModUnique(c, P25519, 0, c);
  }

  method BitAt(e: seq<u8>, i: nat) returns (b: u32)
    requires |e| == 32 && i < 255
    ensures b <= 1 && (b == 1 <==> BitOf(LeNat(e), i))
  {
    BitOfByte(e, i);
    b := e[i / 8] / Pow2(i % 8) % 2;
  }

  /** `x25519_ladder`: the 255 iterations, the last swap, and the division. */
  method Ladder255(k: seq<u8>, u: seq<u8>) returns (out: seq<u8>)
    requires |k| == |u| == 32
    ensures |out| == 32 && LeNat(out) == X(DecodeScalar(LeNat(k)), LeNat(u) % TWO255 % P25519)
  {
    var e := Clamp(k);
    var x1 := FromBytes(u);
    var x2 := Constant(1);
    var z2 := Constant(0);
    var x3 := x1;
    var z3 := Constant(1);
    var swap: u32 := 0;
    ghost var n, v := LeNat(e), Res(x1);
    for i := 255 downto 0
      invariant Tight(x2) && Tight(z2) && Tight(x3) && Tight(z3) && swap <= 1
      invariant RunTo(n, v, i) == Run(Ladder(Res(x2), Res(z2), Res(x3), Res(z3)), swap == 1)
    {
      var b := BitAt(e, i);
      x2, z2, x3, z3 := Iterate(x1, x2, z2, x3, z3, swap, b);
      swap := b;
    }
    out := Finish(x2, z2, x3, z3, swap);
  }

  /** The body of the loop of `x25519_ladder`. */
  method Iterate(x1: seq<u32>, x2: seq<u32>, z2: seq<u32>, x3: seq<u32>, z3: seq<u32>, swap: u32, b: u32)
    returns (x2': seq<u32>, z2': seq<u32>, x3': seq<u32>, z3': seq<u32>)
    requires Tight(x1) && Tight(x2) && Tight(z2) && Tight(x3) && Tight(z3) && swap <= 1 && b <= 1
    ensures Tight(x2') && Tight(z2') && Tight(x3') && Tight(z3')
    ensures Ladder(Res(x2'), Res(z2'), Res(x3'), Res(z3'))
      == LadderStep(CSwap(swap != b, Ladder(Res(x2), Res(z2), Res(x3), Res(z3))), Res(x1))
  {
    var flip: u32 := Xor(swap, b);
    x2', x3' := CondSwap(x2, x3, flip);
    z2', z3' := CondSwap(z2, z3, flip);
    x2', z2', x3', z3' := Step(x1, x2', z2', x3', z3');
  }

  /** The last swap, the division and the encoding. */
  method Finish(x2: seq<u32>, z2: seq<u32>, x3: seq<u32>, z3: seq<u32>, swap: u32) returns (out: seq<u8>)
    requires Tight(x2) && Tight(z2) && Tight(x3) && Tight(z3) && swap <= 1
    ensures |out| == 32
    ensures var q := CSwap(swap == 1, Ladder(Res(x2), Res(z2), Res(x3), Res(z3)));
      LeNat(out) == FMul(q.x2, Inverse(q.z2), P25519)
  {
    var x, x' := CondSwap(x2, x3, swap);
    var z, z' := CondSwap(z2, z3, swap);
    z := Invert(z);
    x := Mul(x, z);
    out := ToBytes(x);
  }

  /** The Montgomery ladder without the bookkeeping of the swap: both points are put in order
      before each iteration and put back after it. */
  function PlainTo(k: nat, u: nat, t: nat): (q: Ladder)
    requires t <= 255
    decreases 255 - t
  {
    if t == 255 then Ladder(1, 0, u, 1)
    else CSwap(BitOf(k, t), LadderStep(CSwap(BitOf(k, t), PlainTo(k, u, t + 1)), u))
  }

  /** Swapping only when the bit changes computes the same points. */
  lemma {:induction false} DeferredSwaps(k: nat, u: nat, t: nat)
    requires t <= 255
    ensures var r := RunTo(k, u, t); CSwap(r.swap, r.q) == PlainTo(k, u, t)
    decreases 255 - t
  {
    if t < 255 {
      DeferredSwaps(k, u, t + 1);
      var r := RunTo(k, u, t + 1);
      var b := BitOf(k, t);
      assert CSwap(r.swap != b, r.q) == CSwap(b, CSwap(r.swap, r.q));
    }
  }

  /** `zz9k_soft_x25519`: 0 exactly for the all-zero output. */
  method SharedSecret(scalar: seq<u8>, point: seq<u8>) returns (out: seq<u8>, ok: int)
    requires |scalar| == |point| == 32
    ensures |out| == 32 && LeNat(out) == X(DecodeScalar(LeNat(scalar)), LeNat(point) % TWO255 % P25519)
    ensures ok == 0 <==> LeNat(out) == 0
    ensures ok == 0 || ok == 1
  {
    out := Ladder255(scalar, point);
    ok := NonZero(out);
  }

  method NonZero(out: seq<u8>) returns (ok: int)
    requires |out| == 32
    ensures ok == 0 <==> LeNat(out) == 0
    ensures ok == 0 || ok == 1
  {
    var zero: u32 := 0;
    for i := 0 to 32
      invariant zero < 0x100 && (zero == 0 <==> LeTo(out, i) == 0)
    {
      OrIsZero(zero, out[i], 8);
      MulZero(out[i], Pow2(8 * i));
      zero := Or(zero, out[i]);
    }
    ok := if zero != 0 then 1 else 0;
  }

  lemma MulZero(b: nat, p: nat)
    requires p > 0
    ensures b * p == 0 <==> b == 0
  {
    if b > 0 { MulPos(b, p); }
  }
}
