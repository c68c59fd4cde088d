/** The multiplication and hash of AES-GCM (sdk/tools/zz9k-crypto-soft.c) against sections 6.3
    and 6.4 of NIST SP 800-38D. */
module Ghash {

  type Block = s: seq<bv8> | |s| == 16 witness ZERO

  const ZERO: seq<bv8> := [0, 0, 0, 0, 0, 0, 0, 0, 0, 0, 0, 0, 0, 0, 0, 0]

  /** A block as the standard's string of 128 bits, leftmost bit first. */
  type Bits = b: seq<bool> | |b| == 128 witness seq(128, _ => false)

  function BitsOf(s: Block): (b: Bits)
  {
    seq(128, i requires 0 <= i < 128 => BitOf(s[i / 8], i % 8))
  }

  /** Bit `t` of a byte, counted from the left. */
  function BitOf(x: bv8, t: nat): bool
    requires t < 8
  {
    match t
    case 0 => x & 0x80 != 0
    case 1 => x & 0x40 != 0
    case 2 => x & 0x20 != 0
    case 3 => x & 0x10 != 0
    case 4 => x & 8 != 0
    case 5 => x & 4 != 0
    case 6 => x & 2 != 0
    case _ => x & 1 != 0
  }

  function ByteOf(b: Bits, j: nat): (x: bv8)
    requires j < 16
  {
    Weighted(b[8 * j], 0x80) | Weighted(b[8 * j + 1], 0x40) | Weighted(b[8 * j + 2], 0x20) | Weighted(b[8 * j + 3], 0x10)
    | Weighted(b[8 * j + 4], 8) | Weighted(b[8 * j + 5], 4) | Weighted(b[8 * j + 6], 2) | Weighted(b[8 * j + 7], 1)
  }

  function Weighted(b: bool, w: bv8): bv8
  {
    if b then w else 0
  }

  function BlockOf(b: Bits): (s: Block)
  {
    seq(16, j requires 0 <= j < 16 => ByteOf(b, j))
  }

  lemma ByteFromBits(x: bv8, b: Bits, j: nat)
    requires j < 16 && forall t :: 0 <= t < 8 ==> b[8 * j + t] == BitOf(x, t)
    ensures ByteOf(b, j) == x
  {
    assert b[8 * j] == BitOf(x, 0) && b[8 * j + 1] == BitOf(x, 1) && b[8 * j + 2] == BitOf(x, 2) && b[8 * j + 3] == BitOf(x, 3);
    assert b[8 * j + 4] == BitOf(x, 4) && b[8 * j + 5] == BitOf(x, 5) && b[8 * j + 6] == BitOf(x, 6) && b[8 * j + 7] == BitOf(x, 7);
  }

  /** A block is determined by its bits. */
  lemma BlockFromBits(s: Block)
    ensures BlockOf(BitsOf(s)) == s
  {
    forall j | 0 <= j < 16 ensures BlockOf(BitsOf(s))[j] == s[j] {
      OneByte(s, j);
    }
  }

  lemma OneByte(s: Block, j: nat)
    requires j < 16
    ensures ByteOf(BitsOf(s), j) == s[j]
  {
    var b := BitsOf(s);
    forall t | 0 <= t < 8 ensures b[8 * j + t] == BitOf(s[j], t) {
      assert (8 * j + t) / 8 == j && (8 * j + t) % 8 == t;
    }
    ByteFromBits(s[j], b, j);
  }

  function XorBits(a: Bits, b: Bits): (r: Bits)
  {
    seq(128, i requires 0 <= i < 128 => a[i] != b[i])
  }

  function Nothing(): (z: Bits)
  {
    seq(128, _ => false)
  }

  /** One step of V in algorithm 1: a right shift, and R = 11100001 || 0^120 if a bit fell out. */
  function NextV(v: Bits): (w: Bits)
  {
    seq(128, i requires 0 <= i < 128 =>
      (i > 0 && v[i - 1]) != (v[127] && (i == 0 || i == 1 || i == 2 || i == 7)))
  }

  /** V_i of algorithm 1. */
  function V(y: Bits, i: nat): (v: Bits)
  {
    if i == 0 then y else NextV(V(y, i - 1))
  }

  /** Z_i of algorithm 1. */
  function Z(x: Bits, y: Bits, i: nat): (z: Bits)
    requires i <= 128
  {
    if i == 0 then Nothing()
    else if x[i - 1] then XorBits(Z(x, y, i - 1), V(y, i - 1)) else Z(x, y, i - 1)
  }

  /** The product of section 6.3. */
  function Product(x: Bits, y: Bits): (z: Bits)
  {
    Z(x, y, 128)
  }

  lemma NextVLinear(a: Bits, b: Bits)
    ensures NextV(XorBits(a, b)) == XorBits(NextV(a), NextV(b))
  {
  }

  lemma {:induction false} VLinear(a: Bits, b: Bits, i: nat)
    ensures V(XorBits(a, b), i) == XorBits(V(a, i), V(b, i))
  {
    if i > 0 {
      VLinear(a, b, i - 1);
      NextVLinear(V(a, i - 1), V(b, i - 1));
    }
  }

  lemma XorShuffle(a: Bits, b: Bits, c: Bits, d: Bits)
    ensures XorBits(XorBits(a, b), XorBits(c, d)) == XorBits(XorBits(a, c), XorBits(b, d))
  {
  }

  lemma XorNothing(a: Bits)
    ensures XorBits(a, Nothing()) == a && XorBits(Nothing(), a) == a && XorBits(a, a) == Nothing()
  {
  }

  lemma XorCancel(a: Bits, b: Bits, v: Bits)
    ensures XorBits(XorBits(a, v), XorBits(b, v)) == XorBits(a, b)
    ensures XorBits(XorBits(a, v), b) == XorBits(XorBits(a, b), v) == XorBits(a, XorBits(b, v))
  {
  }

  /** The product distributes over exclusive or on the left and on the right. */
  lemma {:induction false} ZLeft(a: Bits, b: Bits, y: Bits, n: nat)
    requires n <= 128
    ensures Z(XorBits(a, b), y, n) == XorBits(Z(a, y, n), Z(b, y, n))
  {
    if n > 0 {
      ZLeft(a, b, y, n - 1);
      XorCancel(Z(a, y, n - 1), Z(b, y, n - 1), V(y, n - 1));
    }
  }

  lemma {:induction false} ZRight(x: Bits, a: Bits, b: Bits, n: nat)
    requires n <= 128
    ensures Z(x, XorBits(a, b), n) == XorBits(Z(x, a, n), Z(x, b, n))
  {
    if n > 0 {
      ZRight(x, a, b, n - 1);
      VLinear(a, b, n - 1);
      XorShuffle(Z(x, a, n - 1), Z(x, b, n - 1), V(a, n - 1), V(b, n - 1));
    }
  }

  lemma ProductDistributes(a: Bits, b: Bits, y: Bits)
    ensures Product(XorBits(a, b), y) == XorBits(Product(a, y), Product(b, y))
    ensures Product(y, XorBits(a, b)) == XorBits(Product(y, a), Product(y, b))
  {
    ZLeft(a, b, y, 128);
    ZRight(y, a, b, 128);
  }

  /** Stepping V of one factor steps the product. */
  lemma {:induction false} ZStep(x: Bits, y: Bits, n: nat)
    requires n <= 128
    ensures Z(x, NextV(y), n) == NextV(Z(x, y, n))
  {
    if n > 0 {
      ZStep(x, y, n - 1);
      VStep(y, n - 1);
      NextVLinear(Z(x, y, n - 1), V(y, n - 1));
    } else {
      assert NextV(Nothing()) == Nothing();
    }
  }

  lemma {:induction false} VStep(y: Bits, i: nat)
    ensures V(NextV(y), i) == NextV(V(y, i))
  {
    if i > 0 { VStep(y, i - 1); }
  }

  /** The block with only bit `j` set. */
  function Unit(j: nat): (e: Bits)
    requires j < 128
  {
    seq(128, i => i == j)
  }

  lemma {:induction false} UnitSteps(j: nat)
    requires j < 128
    ensures V(Unit(0), j) == Unit(j)
  {
    if j > 0 { UnitSteps(j - 1); }
  }

  /** The first `n` bits. */
  function First(y: Bits, n: nat): (p: Bits)
    requires n <= 128
  {
    seq(128, i requires 0 <= i < 128 => i < n && y[i])
  }

  /** `1`, the leftmost bit, is the unit of the product. */
  lemma {:induction false} TimesOne(x: Bits, n: nat)
    requires n <= 128
    ensures Z(x, Unit(0), n) == First(x, n)
  {
    if n > 0 {
      TimesOne(x, n - 1);
      UnitSteps(n - 1);
    }
  }

  lemma {:induction false} TimesUnit(x: Bits, j: nat)
    requires j < 128
    ensures Product(x, Unit(j)) == V(x, j)
  {
    if j == 0 {
      TimesOne(x, 128);
      assert First(x, 128) == x;
    } else {
      TimesUnit(x, j - 1);
      ZStep(x, Unit(j - 1), 128);
      assert NextV(Unit(j - 1)) == Unit(j);
    }
  }

  lemma {:induction false} TimesFirst(x: Bits, y: Bits, n: nat)
    requires n <= 128
    ensures Product(x, First(y, n)) == Z(y, x, n)
  {
    if n == 0 {
      var a := First(y, 0);
      assert a == Nothing();
      ProductDistributes(a, a, x);
      XorNothing(a);
      XorNothing(Product(x, a));
    } else {
      TimesFirst(x, y, n - 1);
      if y[n - 1] {
        assert First(y, n) == XorBits(First(y, n - 1), Unit(n - 1));
        ProductDistributes(First(y, n - 1), Unit(n - 1), x);
        TimesUnit(x, n - 1);
      } else {
        assert First(y, n) == First(y, n - 1);
      }
    }
  }

  /** The product is commutative. */
  lemma ProductCommutes(x: Bits, y: Bits)
    ensures Product(x, y) == Product(y, x)
  {
    TimesFirst(x, y, 128);
    assert First(y, 128) == y;
  }

  /** The product of two blocks. */
  function GMul(x: Block, h: Block): (z: Block)
  {
    BlockOf(Product(BitsOf(x), BitsOf(h)))
  }

  function XorBlock(a: Block, b: Block): (r: Block)
  {
    seq(16, j requires 0 <= j < 16 => a[j] ^ b[j])
  }

  lemma XorBlockBits(a: Block, b: Block)
    ensures BitsOf(XorBlock(a, b)) == XorBits(BitsOf(a), BitsOf(b))
  {
    var x, y := BitsOf(XorBlock(a, b)), XorBits(BitsOf(a), BitsOf(b));
    forall i | 0 <= i < 128 ensures x[i] == y[i] { XorBlockBit(a, b, i); }
  }

  lemma XorBlockBit(a: Block, b: Block, i: nat)
    requires i < 128
    ensures BitsOf(XorBlock(a, b))[i] == (BitsOf(a)[i] != BitsOf(b)[i])
  {
    XorBit(a[i / 8], b[i / 8], i % 8);
  }

  lemma XorBit(a: bv8, b: bv8, t: nat)
    requires t < 8
    ensures BitOf(a ^ b, t) == (BitOf(a, t) != BitOf(b, t))
  {
    if t < 4 { XorBitHigh(a, b, t); } else { XorBitLow(a, b, t); }
  }

  lemma XorBitHigh(a: bv8, b: bv8, t: nat)
    requires t < 4
    ensures BitOf(a ^ b, t) == (BitOf(a, t) != BitOf(b, t))
  {
    match t
    case 0 => case 1 => case 2 => case 3 =>
  }

  lemma XorBitLow(a: bv8, b: bv8, t: nat)
    requires 4 <= t < 8
    ensures BitOf(a ^ b, t) == (BitOf(a, t) != BitOf(b, t))
  {
    match t
    case 4 => case 5 => case 6 => case 7 =>
  }

  lemma OneBit(x: bv8)
    ensures x & 1 == 0 || x & 1 == 1
  {
  }

  lemma ZeroBlock()
    ensures BitsOf(ZERO) == Nothing()
  {
    forall i | 0 <= i < 128 ensures BitsOf(ZERO)[i] == Nothing()[i] {
      ZeroBit(i % 8);
    }
  }

  lemma ZeroBit(t: nat)
    requires t < 8
    ensures !BitOf(0, t)
  {
    match t
    case 0 => case 1 => case 2 => case 3 => case 4 => case 5 => case 6 => case 7 =>
  }

  /** The bytes of V after the shift loop, before the reduction. */
  function Shifted(v: Block): (w: Block)
  {
    seq(16, j requires 0 <= j < 16 => if j == 0 then Half(v[0]) else ShiftedIn(v[j], v[j - 1]))
  }

  function Half(x: bv8): bv8
  {
    x >> 1
  }

  function ShiftedIn(x: bv8, left: bv8): bv8
  {
    (x >> 1) | (left << 7)
  }

  lemma ShiftedBit(x: bv8, left: bv8, t: nat)
    requires t < 8
    ensures BitOf(ShiftedIn(x, left), t) == if t == 0 then BitOf(left, 7) else BitOf(x, t - 1)
    ensures BitOf(Half(x), t) == (t > 0 && BitOf(x, t - 1))
  {
    match t
    case 0 => case 1 => case 2 => case 3 => case 4 => case 5 => case 6 => case 7 =>
  }

  lemma Reduction(x: bv8, t: nat)
    requires t < 8
    ensures BitOf(x ^ 0xe1, t) == (BitOf(x, t) != (t == 0 || t == 1 || t == 2 || t == 7))
  {
    XorBit(x, 0xe1, t);
    match t
    case 0 => case 1 => case 2 => case 3 => case 4 => case 5 => case 6 => case 7 =>
  }

  /** The bytes of V after the reduction. */
  function Reduced(v: Block): (r: Block)
  {
    var s := Shifted(v);
    if BitOf(v[15], 7) then s[0 := s[0] ^ 0xe1] else s
  }

  /** Shifting the bytes and reducing is one step of V. */
  lemma ShiftIsNextV(v: Block)
    ensures BitsOf(Reduced(v)) == NextV(BitsOf(v))
  {
    forall i | 0 <= i < 128 ensures BitsOf(Reduced(v))[i] == NextV(BitsOf(v))[i] {
      ReducedBit(v, i / 8, i % 8);
      BitAt(Reduced(v), i / 8, i % 8);
    }
  }

  lemma BitAt(v: Block, j: nat, t: nat)
    requires j < 16 && t < 8
    ensures BitsOf(v)[8 * j + t] == BitOf(v[j], t)
  {
    var i := 8 * j + t;
    assert i / 8 == j && i % 8 == t;
  }

  lemma ShiftedBits(v: Block, j: nat, t: nat)
    requires j < 16 && t < 8
    ensures BitOf(Shifted(v)[j], t) == (8 * j + t > 0 && BitsOf(v)[8 * j + t - 1])
  {
    ShiftedByte(v, j, t);
    if t > 0 { BitAt(v, j, t - 1); } else if j > 0 { BitAt(v, j - 1, 7); }
  }

  lemma ShiftedByte(v: Block, j: nat, t: nat)
    requires j < 16 && t < 8
    ensures BitOf(Shifted(v)[j], t) == if t > 0 then BitOf(v[j], t - 1) else j > 0 && BitOf(v[j - 1], 7)
  {
    var left := if j == 0 then 0 else v[j - 1];
    ShiftedBit(v[j], left, t);
  }

  lemma ReducedBit(v: Block, j: nat, t: nat)
    requires j < 16 && t < 8
    ensures BitOf(Reduced(v)[j], t) == NextV(BitsOf(v))[8 * j + t]
  {
    ShiftedBits(v, j, t);
    BitAt(v, 15, 7);
    NextVAt(BitsOf(v), 8 * j + t);
    ReducedFrom(v, j, t);
  }

  lemma ReducedFrom(v: Block, j: nat, t: nat)
    requires j < 16 && t < 8
    ensures BitOf(Reduced(v)[j], t)
      == (BitOf(Shifted(v)[j], t) != (BitOf(v[15], 7) && j == 0 && (t == 0 || t == 1 || t == 2 || t == 7)))
  {
    var s := Shifted(v);
    if BitOf(v[15], 7) {
      assert Reduced(v)[j] == if j == 0 then s[0] ^ 0xe1 else s[j];
      if j == 0 { Reduction(s[0], t); }
    }
  }

  lemma NextVAt(v: Bits, i: nat)
    requires i < 128
    ensures NextV(v)[i] == ((i > 0 && v[i - 1]) != (v[127] && (i == 0 || i == 1 || i == 2 || i == 7)))
  {
  }

  /** `(x >> (7 - t)) & 1`. */
  method TestBit(x: bv8, t: nat) returns (b: bv8)
    requires t < 8
    ensures b != 0 <==> BitOf(x, t)
  {
    b := (x >> (7 - t)) & 1;
    match t
    case 0 => case 1 => case 2 => case 3 => case 4 => case 5 => case 6 => case 7 =>
  }

  /** `zz9k_ghash_mul`: the product is built in Z while V is stepped, and then replaces `x`. */
  method GhashMul(x: array<bv8>, h: Block)
    requires x.Length == 16
    modifies x
    ensures x[..] == GMul(old(x[..]), h)
  {
    var z := Multiply(x[..], h);
    CopyBlock(x, z);
  }

  method Multiply(x: Block, h: Block) returns (r: Block)
    ensures r == GMul(x, h)
  {
    var z, v := new bv8[16], new bv8[16];
    CopyBlock(z, ZERO);
    CopyBlock(v, h);
    ghost var xb, hb := BitsOf(x), BitsOf(h);
    ZeroBlock();
    for i := 0 to 128
      invariant BitsOf(z[..]) == Z(xb, hb, i)
      invariant BitsOf(v[..]) == V(hb, i)
    {
      var b := TestBit(x[i / 8], i % 8);
      assert b != 0 <==> xb[i];
      if b != 0 {
        XorInto(z, v[..]);
      }
      ShiftReduce(v);
    }
    r := z[..];
    ProductBlock(x, h, r);
  }

  lemma ProductBlock(x: Block, h: Block, z: Block)
    requires BitsOf(z) == Product(BitsOf(x), BitsOf(h))
    ensures z == GMul(x, h)
  {
    BlockFromBits(z);
  }

  method CopyBlock(x: array<bv8>, z: Block)
    requires x.Length == 16
    modifies x
    ensures x[..] == z
  {
    for i := 0 to 16
      invariant forall k :: 0 <= k < i ==> x[k] == z[k]
    {
      x[i] := z[i];
    }
  }

  /** `z ^= v`, byte by byte. */
  method XorInto(z: array<bv8>, v: Block)
    requires z.Length == 16
    modifies z
    ensures z[..] == XorBlock(old(z[..]), v)
    ensures BitsOf(z[..]) == XorBits(BitsOf(old(z[..])), BitsOf(v))
  {
    ghost var was := z[..];
    for j := 0 to 16
      invariant forall k :: 0 <= k < j ==> z[k] == was[k] ^ v[k]
      invariant forall k :: j <= k < 16 ==> z[k] == was[k]
    {
      z[j] := z[j] ^ v[j];
    }
    assert z[..] == XorBlock(was, v);
    XorBlockBits(was, v);
  }

  /** The shift of V across its bytes, from the last byte down, and the reduction. */
  method ShiftReduce(v: array<bv8>)
    requires v.Length == 16
    modifies v
    ensures BitsOf(v[..]) == NextV(BitsOf(old(v[..])))
  {
    ghost var was := v[..];
    var bit := v[15] & 1;
    OneBit(v[15]);
    for j := 16 downto 1
      invariant forall k :: j <= k < 16 ==> v[k] == ShiftedIn(was[k], was[k - 1])
      invariant forall k :: 0 <= k < j ==> v[k] == was[k]
    {
      v[j] := ShiftedIn(v[j], v[j - 1]);
    }
    v[0] := Half(v[0]);
    assert v[..] == Shifted(was);
    if bit != 0 { v[0] := v[0] ^ 0xe1; }
    assert v[..] == Reduced(was);
    ShiftIsNextV(was);
  }
}
