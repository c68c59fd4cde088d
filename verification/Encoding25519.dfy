/** The byte encoding of field elements in section 5 of RFC 7748: 32 bytes, little-endian, the
    top bit ignored on the way in, and always the remainder below the prime on the way out. */
module Encoding25519 {
  import opened Words
  import opened LittleEndian
  import opened Ring
  import opened Field25519
  import opened Fe25519

  const TWO255: nat := 0x8000_0000_0000_0000_0000_0000_0000_0000_0000_0000_0000_0000_0000_0000_0000_0000

  /** `a | b << n | c << (n + 8) | d << (n + 16)`, the shape of every limb of `fe25519_from_bytes`. */
  function Gather(a: nat, b: u8, c: u8, d: u8, n: nat): (r: u32)
    requires 2 <= n <= 8 && a < Pow2(n)
    ensures r == a + Pow2(n) * (b + 0x100 * c as int + 0x1_0000 * d as int)
  {
    GatherIsSum(a, b, c, d, n);
    Or(Or(Or(a, Shl(b, n)), Shl(c, n + 8)), Shl(d, n + 16))
  }

  lemma GatherIsSum(a: nat, b: u8, c: u8, d: u8, n: nat)
    requires 2 <= n <= 8 && a < Pow2(n)
    ensures Or(Or(Or(a, Shl(b, n)), Shl(c, n + 8)), Shl(d, n + 16))
      == a + Pow2(n) * (b + 0x100 * c as int + 0x1_0000 * d as int) < 0x1_0000_0000
  {
    var p := Pow2(n);
    assert p <= 0x100 by { SmallPowers(n); }
    NextByteWeight(n);
    NextByteWeight(n + 8);
    GatherArith(a, b, c, d, p);
    OrThree(a, b, c, d, n, p, 0x100 * p, 0x1_0000 * p);
  }

  lemma OrThree(a: nat, b: nat, c: nat, d: nat, n: nat, p: nat, p': nat, p'': nat)
    requires p == Pow2(n) && p' == Pow2(n + 8) && p'' == Pow2(n + 16)
    requires a < p && a + b * p < p' && a + b * p + c * p' < p''
    ensures Or(Or(Or(a, Shl(b, n)), Shl(c, n + 8)), Shl(d, n + 16)) == a + b * p + c * p' + d * p''
  {
    OrAt(a, b, n, p);
    var x := a + b * p;
    OrAt(x, c, n + 8, p');
    OrAt(x + c * p', d, n + 16, p'');
  }

  lemma OrAt(x: nat, y: nat, k: nat, p: nat)
    requires p == Pow2(k) && x < p
    ensures Or(x, Shl(y, k)) == x + y * p
  {
    ShlIsTimes(y, k);
    OrShifted(x, y, k);
  }

  lemma GatherArith(a: nat, b: nat, c: nat, d: nat, p: nat)
    requires a < p <= 0x100 && b < 0x100 && c < 0x100 && d < 0x100
    ensures a + b * p < 0x100 * p && a + b * p + c * (0x100 * p) < 0x1_0000 * p
    ensures a + b * p + c * (0x100 * p) + d * (0x1_0000 * p) == a + p * (b + 0x100 * c + 0x1_0000 * d) < 0x1_0000_0000
  {
    assert a + b * p < 0x100 * p by { MulLe(b + 1, 0x100, p, p); Distr(b, 1, p); }
    assert c * (0x100 * p) + 0x100 * p <= 0x1_0000 * p by { MulLe(c + 1, 0x100, 0x100 * p, 0x100 * p); Distr(c, 1, 0x100 * p); }
    assert d * (0x1_0000 * p) + 0x1_0000 * p <= 0x100_0000 * p by { MulLe(d + 1, 0x100, 0x1_0000 * p, 0x1_0000 * p); Distr(d, 1, 0x1_0000 * p); }
    FourPieces(p, b, c, d);
  }

  lemma FourPieces(p: int, b: int, c: int, d: int)
    ensures p * (b + 0x100 * c + 0x1_0000 * d) == b * p + c * (0x100 * p) + d * (0x1_0000 * p)
  {
  }

  function Small(n: nat): nat
  {
    match n
    case 0 => 1
    case 1 => 2
    case 2 => 4
    case 3 => 8
    case 4 => 16
    case 5 => 32
    case 6 => 64
    case 7 => 128
    case _ => 256
  }

  lemma SmallPowers(n: nat)
    requires n <= 8
    ensures Pow2(n) == Small(n)
  {
    assert Pow2(4) == 16;
    if n > 4 { assert Pow2(5) == 32 && Pow2(6) == 64 && Pow2(7) == 128 && Pow2(8) == 256; }
  }

  /** `fe25519_from_bytes`. */
  method FromBytes(s: seq<u8>) returns (h: seq<u32>)
    requires |s| == 32
    ensures Tight(h) && Val(h) == LeNat(s) % TWO255
  {
    var h0, h1, h2, h3, h4 := LowLimbs(s);
    var h5, h6, h7, h8, h9 := HighLimbs(s);
    h := [h0, h1, h2, h3, h4, h5, h6, h7, h8, h9];
    CarriedIsTight(h);
    HalvesOf(s);
    DivModUnique(LeNat(s), TWO255, s[31] / 128, Val(h));
  }

  lemma HalvesOf(s: seq<u8>)
    requires |s| == 32
    ensures LeNat(s) == Words4(WordAt(s, 0), WordAt(s, 1), WordAt(s, 2), WordAt(s, 3))
      + Weight(5) * Words4(WordAt(s, 4), WordAt(s, 5), WordAt(s, 6), WordAt(s, 7))
  {
    var a, b := s[..16], s[16..];
    LeSplit(s, 16, 32);
    LePrefix(s, a, 16);
    LeOfBlock(a);
    LeOfBlock(b);
    assert Pow2(8 * 16) == Weight(5) by { WordWeights(); }
    assert WordAt(a, 0) == WordAt(s, 0) && WordAt(a, 1) == WordAt(s, 1) && WordAt(a, 2) == WordAt(s, 2)
      && WordAt(a, 3) == WordAt(s, 3);
    assert WordAt(b, 0) == WordAt(s, 4) && WordAt(b, 1) == WordAt(s, 5) && WordAt(b, 2) == WordAt(s, 6)
      && WordAt(b, 3) == WordAt(s, 7);
  }

  /** Limbs 0 to 4 are exactly the low 128 bits. */
  method LowLimbs(s: seq<u8>) returns (h0: u32, h1: u32, h2: u32, h3: u32, h4: u32)
    requires |s| == 32
    ensures h0 < 0x400_0000 && h1 < 0x200_0000 && h2 < 0x400_0000 && h3 < 0x200_0000 && h4 < 0x400_0000
    ensures h0 + Weight(1) * h1 + Weight(2) * h2 + Weight(3) * h3 + Weight(4) * h4
      == Words4(WordAt(s, 0), WordAt(s, 1), WordAt(s, 2), WordAt(s, 3))
  {
    SmallPowers(8);
    SmallPowers(6);
    SmallPowers(5);
    SmallPowers(3);
    SmallPowers(2);
    h0 := Gather(s[0], s[1], s[2], s[3] % 4, 8);
    h1 := Gather(s[3] / 4, s[4], s[5], s[6] % 8, 6);
    h2 := Gather(s[6] / 8, s[7], s[8], s[9] % 32, 5);
    h3 := Gather(s[9] / 32, s[10], s[11], s[12] % 64, 3);
    h4 := Gather(s[12] / 64, s[13], s[14], s[15], 2);
  }

  /** Limbs 5 to 9 are bits 128 to 254; the top bit is dropped. */
  method HighLimbs(s: seq<u8>) returns (h5: u32, h6: u32, h7: u32, h8: u32, h9: u32)
    requires |s| == 32
    ensures h5 < 0x200_0000 && h6 < 0x400_0000 && h7 < 0x200_0000 && h8 < 0x400_0000 && h9 < 0x200_0000
    ensures h5 + 0x200_0000 * h6 + 0x8_0000_0000_0000 * h7 + 0x1000_0000_0000_0000_0000 * h8
        + 0x40_0000_0000_0000_0000_0000_0000 * h9
      == Words4(WordAt(s, 4), WordAt(s, 5), WordAt(s, 6), WordAt(s, 7))
        - 0x8000_0000_0000_0000_0000_0000_0000_0000 * (s[31] as int / 128)
  {
    SmallPowers(8);
    SmallPowers(7);
    SmallPowers(5);
    SmallPowers(4);
    SmallPowers(2);
    h5 := Gather(s[16], s[17], s[18], s[19] % 2, 8);
    h6 := Gather(s[19] / 2, s[20], s[21], s[22] % 8, 7);
    h7 := Gather(s[22] / 8, s[23], s[24], s[25] % 16, 5);
    h8 := Gather(s[25] / 16, s[26], s[27], s[28] % 64, 4);
    h9 := Gather(s[28] / 64, s[29], s[30], s[31] % 0x80, 2);
  }

  /** `(uint8_t)(lo | hi << n)`: the top bits of one limb below the low bits of the next. */
  method Straddle(lo: nat, hi: nat, n: nat, ghost p: nat, ghost c: nat) returns (r: u8)
    requires n <= 8 && lo < p && p == Small(n) && p * c == 0x100
    ensures r == lo + p * (hi % c)
  {
    SmallPowers(n);
    OrAt(lo, hi, n, p);
    StraddleArith(lo, hi, p, c);
    r := Trunc8(Or(lo, Shl(hi, n)));
  }

  lemma StraddleArith(lo: nat, hi: nat, p: nat, c: nat)
    requires lo < p && c > 0 && p * c == 0x100
    ensures (lo + hi * p) % 0x100 == lo + p * (hi % c) < 0x100
  {
    var q, r := hi / c, hi % c;
    assert hi * p == 0x100 * q + p * r by { assert (c * q + r) * p == (p * c) * q + p * r; }
    assert p * r + p <= 0x100 by { MulLe(p, p, r + 1, c); assert p * (r + 1) == p * r + p; }
    DivModUnique(lo + hi * p, 0x100, q, lo + p * r);
  }

  /** Cutting a limb into `n` low bits, two bytes and what is left. */
  lemma Pieces(x: nat, p: nat)
    requires p > 0
    ensures x == x % p + p * (x / p % 0x100) + 0x100 * p * (x / (0x100 * p) % 0x100) + 0x1_0000 * p * (x / (0x1_0000 * p))
  {
    var y := x / p;
    DivDiv(x, p, 0x100);
    DivDiv(x, p, 0x1_0000);
    ThreeDigits(y);
    PutTogether(x, p, x % p, y, y % 0x100, y / 0x100 % 0x100, y / 0x1_0000);
  }

  lemma ThreeDigits(y: nat)
    ensures y == y % 0x100 + 0x100 * (y / 0x100 % 0x100) + 0x1_0000 * (y / 0x1_0000)
  {
  }

  lemma PutTogether(x: int, p: int, r: int, y: int, b: int, c: int, d: int)
    requires x == p * y + r && y == b + 0x100 * c + 0x1_0000 * d
    ensures x == r + p * b + 0x100 * p * c + 0x1_0000 * p * d
  {
    FourPieces(p, b, c, d);
  }

  /** The digits of `fe25519_to_bytes` once they are reduced, packed into bytes. */
  method Pack(h: seq<u32>) returns (s: seq<u8>)
    requires Carried(h) && h[9] < 0x200_0000
    ensures |s| == 32 && LeNat(s) == Val(h)
  {
    var low := PackLow(h[0], h[1], h[2], h[3], h[4]);
    var high := PackHigh(h[5], h[6], h[7], h[8], h[9]);
    s := low + high;
    LeSplit(s, 16, 32);
    LePrefix(s, low, 16);
    assert s[16..] == high;
    assert Pow2(8 * 16) == Weight(5) by { WordWeights(); }
  }

  /** The bytes of a limb that starts at a byte's bit of weight `0x100 / p`: what fits into that
      byte, two whole bytes, and what is left for the byte it shares with the next limb. */
  method Cut(h: u32, p: nat) returns (low: u8, b1: u8, b2: u8, high: u8)
    requires 1 < p <= 0x100 && h < 0x100_0000 * p
    ensures low == h % p
    ensures h == low + p * b1 as int + 0x100 * p * b2 as int + 0x1_0000 * p * high as int
  {
    Pieces(h, p);
    TopFits(h, 0x1_0000 * p);
    low, b1, b2, high := h % p, h / p % 0x100, h / (0x100 * p) % 0x100, h / (0x1_0000 * p);
  }

  lemma TopFits(h: nat, d: nat)
    requires 0 <= h < 0x100 * d
    ensures d > 0 && 0 <= h / d < 0x100
  {
    var q := h / d;
    assert q >= 0;
    MulAtLeast(d, q - 0xFF);
    assert d * (q - 0xFF) == d * q - 0xFF * d;
  }

  method PackLow(h0: u32, h1: u32, h2: u32, h3: u32, h4: u32) returns (s: seq<u8>)
    requires h0 < 0x400_0000 && h1 < 0x200_0000 && h2 < 0x400_0000 && h3 < 0x200_0000 && h4 < 0x400_0000
    ensures |s| == 16
    ensures LeNat(s) == h0 + 0x400_0000 * h1 as int + 0x8_0000_0000_0000 * h2 as int + 0x2000_0000_0000_0000_0000 * h3 as int + 0x40_0000_0000_0000_0000_0000_0000 * h4 as int
  {
    var a0, a1, a2, a3 := Cut(h0, 0x100);
    var b0, b1, b2, b3 := Cut(h1, 0x40);
    var c0, c1, c2, c3 := Cut(h2, 0x20);
    var d0, d1, d2, d3 := Cut(h3, 8);
    var e0, e1, e2, e3 := Cut(h4, 4);
    var ab := Straddle(a3, h1, 2, 4, 64);
    var bc := Straddle(b3, h2, 3, 8, 32);
    var cd := Straddle(c3, h3, 5, 32, 8);
    var de := Straddle(d3, h4, 6, 64, 4);
    s := [a0, a1, a2, ab, b1, b2, bc, c1, c2, cd, d1, d2, de, e1, e2, e3];
    PackedLow(s, a0, a1, a2, a3, b0, b1, b2, b3, c0, c1, c2, c3, d0, d1, d2, d3, e0, e1, e2, e3);
  }

  lemma PackedLow(s: seq<u8>, a0: int, a1: int, a2: int, a3: int,
      b0: int, b1: int, b2: int, b3: int,
      c0: int, c1: int, c2: int, c3: int,
      d0: int, d1: int, d2: int, d3: int,
      e0: int, e1: int, e2: int, e3: int)
    requires |s| == 16
    requires s[0] == a0 && s[1] == a1 && s[2] == a2 && s[3] == a3 + 4 * b0
    requires s[4] == b1 && s[5] == b2 && s[6] == b3 + 8 * c0 && s[7] == c1
    requires s[8] == c2 && s[9] == c3 + 32 * d0 && s[10] == d1 && s[11] == d2
    requires s[12] == d3 + 64 * e0 && s[13] == e1 && s[14] == e2 && s[15] == e3
    ensures LeNat(s) == (a0 + 0x100 * a1 + 0x1_0000 * a2 + 0x100_0000 * a3)
      + 0x400_0000 * (b0 + 0x40 * b1 + 0x4000 * b2 + 0x40_0000 * b3)
      + 0x8_0000_0000_0000 * (c0 + 0x20 * c1 + 0x2000 * c2 + 0x20_0000 * c3)
      + 0x2000_0000_0000_0000_0000 * (d0 + 8 * d1 + 0x800 * d2 + 0x8_0000 * d3)
      + 0x40_0000_0000_0000_0000_0000_0000 * (e0 + 4 * e1 + 0x400 * e2 + 0x4_0000 * e3)
  {
    LeOfBlock(s);
    ReassembleLow(a0, a1, a2, a3, b0, b1, b2, b3, c0, c1, c2, c3, d0, d1, d2, d3, e0, e1, e2, e3);
  }

  lemma ReassembleLow(a0: int, a1: int, a2: int, a3: int,
      b0: int, b1: int, b2: int, b3: int,
      c0: int, c1: int, c2: int, c3: int,
      d0: int, d1: int, d2: int, d3: int,
      e0: int, e1: int, e2: int, e3: int)
    ensures Words4(a0 + 0x100 * a1 + 0x1_0000 * a2 + 0x100_0000 * (a3 + 4 * b0),
      b1 + 0x100 * b2 + 0x1_0000 * (b3 + 8 * c0) + 0x100_0000 * c1,
      c2 + 0x100 * (c3 + 32 * d0) + 0x1_0000 * d1 + 0x100_0000 * d2,
      d3 + 64 * e0 + 0x100 * e1 + 0x1_0000 * e2 + 0x100_0000 * e3)
      == (a0 + 0x100 * a1 + 0x1_0000 * a2 + 0x100_0000 * a3)
      + 0x400_0000 * (b0 + 0x40 * b1 + 0x4000 * b2 + 0x40_0000 * b3)
      + 0x8_0000_0000_0000 * (c0 + 0x20 * c1 + 0x2000 * c2 + 0x20_0000 * c3)
      + 0x2000_0000_0000_0000_0000 * (d0 + 8 * d1 + 0x800 * d2 + 0x8_0000 * d3)
      + 0x40_0000_0000_0000_0000_0000_0000 * (e0 + 4 * e1 + 0x400 * e2 + 0x4_0000 * e3)
  {
  }

  method PackHigh(h5: u32, h6: u32, h7: u32, h8: u32, h9: u32) returns (s: seq<u8>)
    requires h5 < 0x200_0000 && h6 < 0x400_0000 && h7 < 0x200_0000 && h8 < 0x400_0000 && h9 < 0x200_0000
    ensures |s| == 16
    ensures LeNat(s) == h5 + 0x200_0000 * h6 as int + 0x8_0000_0000_0000 * h7 as int + 0x1000_0000_0000_0000_0000 * h8 as int + 0x40_0000_0000_0000_0000_0000_0000 * h9 as int
  {
    var a0, a1, a2, a3 := Cut(h5, 0x100);
    var b0, b1, b2, b3 := Cut(h6, 0x80);
    var c0, c1, c2, c3 := Cut(h7, 0x20);
    var d0, d1, d2, d3 := Cut(h8, 0x10);
    var e0, e1, e2, e3 := Cut(h9, 4);
    var ab := Straddle(a3, h6, 1, 2, 128);
    var bc := Straddle(b3, h7, 3, 8, 32);
    var cd := Straddle(c3, h8, 4, 16, 16);
    var de := Straddle(d3, h9, 6, 64, 4);
    s := [a0, a1, a2, ab, b1, b2, bc, c1, c2, cd, d1, d2, de, e1, e2, e3];
    PackedHigh(s, a0, a1, a2, a3, b0, b1, b2, b3, c0, c1, c2, c3, d0, d1, d2, d3, e0, e1, e2, e3);
  }

  lemma PackedHigh(s: seq<u8>, a0: int, a1: int, a2: int, a3: int,
      b0: int, b1: int, b2: int, b3: int,
      c0: int, c1: int, c2: int, c3: int,
      d0: int, d1: int, d2: int, d3: int,
      e0: int, e1: int, e2: int, e3: int)
    requires |s| == 16
    requires s[0] == a0 && s[1] == a1 && s[2] == a2 && s[3] == a3 + 2 * b0
    requires s[4] == b1 && s[5] == b2 && s[6] == b3 + 8 * c0 && s[7] == c1
    requires s[8] == c2 && s[9] == c3 + 16 * d0 && s[10] == d1 && s[11] == d2
    requires s[12] == d3 + 64 * e0 && s[13] == e1 && s[14] == e2 && s[15] == e3
    ensures LeNat(s) == (a0 + 0x100 * a1 + 0x1_0000 * a2 + 0x100_0000 * a3)
      + 0x200_0000 * (b0 + 0x80 * b1 + 0x8000 * b2 + 0x80_0000 * b3)
      + 0x8_0000_0000_0000 * (c0 + 0x20 * c1 + 0x2000 * c2 + 0x20_0000 * c3)
      + 0x1000_0000_0000_0000_0000 * (d0 + 0x10 * d1 + 0x1000 * d2 + 0x10_0000 * d3)
      + 0x40_0000_0000_0000_0000_0000_0000 * (e0 + 4 * e1 + 0x400 * e2 + 0x4_0000 * e3)
  {
    LeOfBlock(s);
    ReassembleHigh(a0, a1, a2, a3, b0, b1, b2, b3, c0, c1, c2, c3, d0, d1, d2, d3, e0, e1, e2, e3);
  }

  lemma ReassembleHigh(a0: int, a1: int, a2: int, a3: int,
      b0: int, b1: int, b2: int, b3: int,
      c0: int, c1: int, c2: int, c3: int,
      d0: int, d1: int, d2: int, d3: int,
      e0: int, e1: int, e2: int, e3: int)
    ensures Words4(a0 + 0x100 * a1 + 0x1_0000 * a2 + 0x100_0000 * (a3 + 2 * b0),
      b1 + 0x100 * b2 + 0x1_0000 * (b3 + 8 * c0) + 0x100_0000 * c1,
      c2 + 0x100 * (c3 + 16 * d0) + 0x1_0000 * d1 + 0x100_0000 * d2,
      d3 + 64 * e0 + 0x100 * e1 + 0x1_0000 * e2 + 0x100_0000 * e3)
      == (a0 + 0x100 * a1 + 0x1_0000 * a2 + 0x100_0000 * a3)
      + 0x200_0000 * (b0 + 0x80 * b1 + 0x8000 * b2 + 0x80_0000 * b3)
      + 0x8_0000_0000_0000 * (c0 + 0x20 * c1 + 0x2000 * c2 + 0x20_0000 * c3)
      + 0x1000_0000_0000_0000_0000 * (d0 + 0x10 * d1 + 0x1000 * d2 + 0x10_0000 * d3)
      + 0x40_0000_0000_0000_0000_0000_0000 * (e0 + 4 * e1 + 0x400 * e2 + 0x4_0000 * e3)
  {
  }

  /** How many primes fit into a tight number: the top limb alone decides the rounding. */
  method Quotient(h: seq<u32>) returns (q: i64)
    requires Tight(h)
    ensures 0 <= q <= 1 && q * P25519 <= Val(h) < (q + 1) * P25519
  {
    var q0: i64 := (19 * h[9] as int + 0x100_0000) / 0x200_0000;
    q := CarryOut(h, q0);
    OneOrNone(h, q0, q);
  }

  lemma OneOrNone(h: seq<u32>, q0: int, q: int)
    requires Tight(h) && q0 == (19 * h[9] as int + 0x100_0000) / 0x200_0000
    requires q * TWO255 <= Val(h) + q0 < (q + 1) * TWO255
    ensures 0 <= q <= 1 && q * P25519 <= Val(h) < (q + 1) * P25519
  {
    assert 0 <= q0 <= 19;
    var low := Val(h) - 0x40_0000_0000_0000_0000_0000_0000_0000_0000_0000_0000_0000_0000_0000_0000 * h[9] as int;
    assert 0 <= low < 0x40_0000_0100_0000_0000_0000_0000_0000_0000_0000_0000_0000_0000_0000_0000;
    if h[9] >= 0x1FF_FFFF { assert q0 == 19; }
  }

  /** What would be carried out of the top if `q0` were added at the bottom. */
  method CarryOut(h: seq<u32>, q0: i64) returns (q: i64)
    requires |h| == 10 && 0 <= q0 <= 19
    ensures q * TWO255 <= Val(h) + q0 < (q + 1) * TWO255
  {
    q := CarryOutLow(h, q0);
    ghost var m := q;
    q := (h[5] as int + q) / 0x200_0000;
    q := (h[6] as int + q) / 0x400_0000;
    q := (h[7] as int + q) / 0x200_0000;
    q := (h[8] as int + q) / 0x400_0000;
    q := (h[9] as int + q) / 0x200_0000;
    assert q * 0x8000_0000_0000_0000_0000_0000_0000_0000
      <= h[5] + 0x200_0000 * h[6] as int + 0x8_0000_0000_0000 * h[7] as int + 0x1000_0000_0000_0000_0000 * h[8] as int
        + 0x40_0000_0000_0000_0000_0000_0000 * h[9] as int + m
      < (q + 1) * 0x8000_0000_0000_0000_0000_0000_0000_0000;
  }

  method CarryOutLow(h: seq<u32>, q0: i64) returns (q: i64)
    requires |h| == 10 && 0 <= q0 <= 19
    ensures 0 <= q <= 64
    ensures q * Weight(5)
      <= h[0] + Weight(1) * h[1] + Weight(2) * h[2] + Weight(3) * h[3] + Weight(4) * h[4] + q0
      < (q + 1) * Weight(5)
  {
    q := (h[0] as int + q0) / 0x400_0000;
    q := (h[1] as int + q) / 0x200_0000;
    q := (h[2] as int + q) / 0x400_0000;
    q := (h[3] as int + q) / 0x200_0000;
    q := (h[4] as int + q) / 0x400_0000;
  }

  /** `fe25519_to_bytes`: the one encoding below the prime of the residue. */
  method ToBytes(h: seq<u32>) returns (s: seq<u8>)
    requires Tight(h)
    ensures |s| == 32 && LeNat(s) == Res(h)
  {
    var q := Quotient(h);
    var t: seq<i64> := [h[0] as int + 19 * q, h[1], h[2], h[3], h[4], h[5], h[6], h[7], h[8], h[9]];
    var r := CarryUp(t, 0x800_0000);
    var d := [r[0], r[1], r[2], r[3], r[4], r[5], r[6], r[7], r[8], r[9] % 0x200_0000];
    DropTop(h, t, r, d, q);
    s := Pack(d);
  }

  /** What the final mask drops is worth exactly `q` times 2^255. */
  lemma DropTop(h: seq<u32>, t: seq<int>, r: seq<int>, d: seq<int>, q: int)
    requires |h| == |t| == |r| == |d| == 10 && 0 <= q <= 1 && q * P25519 <= Val(h) < (q + 1) * P25519
    requires t[0] == h[0] + 19 * q && forall k :: 1 <= k < 10 ==> t[k] == h[k]
    requires Carried(r) && 0 <= r[9] && Val(r) == Val(t)
    requires d[9] == r[9] % 0x200_0000 && forall k :: 0 <= k < 9 ==> d[k] == r[k]
    ensures Val(d) == Res(h)
  {
    assert Val(t) == Val(h) + 19 * q;
    assert q * TWO255 <= Val(r) < (q + 1) * TWO255;
    assert r[9] / 0x200_0000 == q;
    assert Val(d) == Val(h) - q * P25519;
    DivModUnique(Val(h), P25519, q, Val(d));
  }

  /** No other 32 bytes encode the same residue below the prime. */
  lemma EncodingUnique(s: seq<u8>, t: seq<u8>)
    requires |s| == |t| == 32 && LeNat(s) < P25519 && LeNat(t) < P25519
    requires LeNat(s) % P25519 == LeNat(t) % P25519
    ensures s == t
  {
    CongReducedEqual(LeNat(s), LeNat(t), P25519);
    LeInjective(s, t);
  }
}
