/** P-256 over 32-bit limbs (sdk/tools/zz9k-crypto-soft.c): the field, the Jacobian point
    operations, scalar multiplication and the public point check. */
module P256 {
  import opened Words
  import opened Bignum
  import BignumMod
  import opened Ring
  import opened Curve

  const P_LIMBS: seq<u32> := [
    0xFFFF_FFFF, 0xFFFF_FFFF, 0xFFFF_FFFF, 0x0000_0000,
    0x0000_0000, 0x0000_0000, 0x0000_0001, 0xFFFF_FFFF]
  const B_LIMBS: seq<u32> := [
    0x27D2_604B, 0x3BCE_3C3E, 0xCC53_B0F6, 0x651D_06B0,
    0x7698_86BC, 0xB3EB_BD55, 0xAA3A_93E7, 0x5AC6_35D8]
  const GX_LIMBS: seq<u32> := [
    0xD898_C296, 0xF4A1_3945, 0x2DEB_33A0, 0x7703_7D81,
    0x63A4_40F2, 0xF8BC_E6E5, 0xE12C_4247, 0x6B17_D1F2]
  const GY_LIMBS: seq<u32> := [
    0x37BF_51F5, 0xCBB6_4068, 0x6B31_5ECE, 0x2BCE_3357,
    0x7C0F_9E16, 0x8EE7_EB4A, 0xFE1A_7F9B, 0x4FE3_42E2]

  /** The field modulus and the coefficient b, as the numbers their limbs stand for. */
  function P(): (p: nat) { Nat(P_LIMBS) }
  function B(): (b: nat) { Nat(B_LIMBS) }

  lemma NatOfEight(s: seq<u32>)
    requires |s| == 8
    ensures Nat(s) == s[0] + 0x1_0000_0000 * (s[1] as int)
      + 0x1_0000_0000_0000_0000 * (s[2] as int)
      + 0x1_0000_0000_0000_0000_0000_0000 * (s[3] as int)
      + 0x1_0000_0000_0000_0000_0000_0000_0000_0000 * (s[4] as int)
      + 0x1_0000_0000_0000_0000_0000_0000_0000_0000_0000_0000 * (s[5] as int)
      + 0x1_0000_0000_0000_0000_0000_0000_0000_0000_0000_0000_0000_0000 * (s[6] as int)
      + 0x1_0000_0000_0000_0000_0000_0000_0000_0000_0000_0000_0000_0000_0000_0000 * (s[7] as int)
  {
    assert Base(1) == 0x1_0000_0000;
    assert Base(2) == 0x1_0000_0000_0000_0000;
    assert Base(3) == 0x1_0000_0000_0000_0000_0000_0000;
    assert Base(4) == 0x1_0000_0000_0000_0000_0000_0000_0000_0000;
    assert Base(5) == 0x1_0000_0000_0000_0000_0000_0000_0000_0000_0000_0000;
    assert Base(6) == 0x1_0000_0000_0000_0000_0000_0000_0000_0000_0000_0000_0000_0000;
    assert Base(7) == 0x1_0000_0000_0000_0000_0000_0000_0000_0000_0000_0000_0000_0000_0000_0000;
    assert NatTo(s, 1) == s[0] * Base(0);
    assert NatTo(s, 2) == NatTo(s, 1) + s[1] * Base(1);
    assert NatTo(s, 4) == NatTo(s, 2) + s[2] * Base(2) + s[3] * Base(3);
    assert NatTo(s, 6) == NatTo(s, 4) + s[4] * Base(4) + s[5] * Base(5);
    assert NatTo(s, 8) == NatTo(s, 6) + s[6] * Base(6) + s[7] * Base(7);
  }

  /** The limbs of the modulus are those of 2^256 - 2^224 + 2^192 + 2^96 - 1. */
  lemma ModulusValue()
    ensures P() == 0xFFFFFFFF00000001000000000000000000000000FFFFFFFFFFFFFFFFFFFFFFFF
    ensures 1 < P() < Base(8)
  {
    NatOfEight(P_LIMBS);
    NatBound(P_LIMBS);
  }

  lemma CoefficientReduced()
    ensures B() < P()
  {
    ModulusValue();
    NatOfEight(B_LIMBS);
  }

  /** A reduced field element in eight limbs. */
  ghost predicate Fe(a: seq<u32>)
  {
    |a| == 8 && Nat(a) < P()
  }

  method Limbs(s: seq<u32>) returns (a: array<u32>)
    ensures fresh(a) && a.Length == |s| && a[..] == s
  {
    a := new u32[|s|](i requires 0 <= i < |s| => s[i]);
  }

  method FpAdd(a: seq<u32>, b: seq<u32>) returns (r: seq<u32>)
    requires Fe(a) && Fe(b)
    ensures Fe(r) && P() > 0 && Nat(r) == FAdd(Nat(a), Nat(b), P())
  {
    ModulusValue();
    var x := Limbs(a);
    var y := Limbs(b);
    var p := Limbs(P_LIMBS);
    var t := new u32[8];
    assert x[..8] == a && y[..8] == b;
    var c := Bignum.Add(t, x, y, 8);
    assert p[..8] == P_LIMBS;
    ReduceOnce(Nat(a) + Nat(b), P());
    NatBound(t[..8]);
    var k := Cmp(t, p, 8);
    if c != 0 || k >= 0 {
      assert p[..8] == P_LIMBS;
      var borrow := Bignum.Sub(t, t, p, 8);
      NatBound(t[..8]);
    }
    r := t[..8];
  }

  lemma ReduceOnce(x: int, m: nat)
    requires m > 0 && 0 <= x + m && x < 2 * m
    ensures x % m == if x >= m then x - m else if x >= 0 then x else x + m
  {
    if x >= m { DivModUnique(x, m, 1, x - m); }
    else if x >= 0 { DivModUnique(x, m, 0, x); }
    else { DivModUnique(x, m, -1, x + m); }
  }

  method FpSub(a: seq<u32>, b: seq<u32>) returns (r: seq<u32>)
    requires Fe(a) && Fe(b)
    ensures Fe(r) && P() > 0 && Nat(r) == FSub(Nat(a), Nat(b), P())
  {
    ModulusValue();
    var x := Limbs(a);
    var y := Limbs(b);
    var p := Limbs(P_LIMBS);
    var t := new u32[8];
    assert x[..8] == a && y[..8] == b;
    var borrow := Bignum.Sub(t, x, y, 8);
    assert p[..8] == P_LIMBS;
    ReduceOnce(Nat(a) - Nat(b), P());
    NatBound(t[..8]);
    if borrow != 0 {
      var c := Bignum.Add(t, t, p, 8);
      NatBound(t[..8]);
    }
    r := t[..8];
  }

  method FpMul(a: seq<u32>, b: seq<u32>) returns (r: seq<u32>)
    requires |a| == 8 && |b| == 8
    ensures Fe(r) && P() > 0 && Nat(r) == FMul(Nat(a), Nat(b), P())
  {
    ModulusValue();
    var x := Limbs(a);
    var y := Limbs(b);
    var p := Limbs(P_LIMBS);
    var t := new u32[8];
    assert x[..8] == a && y[..8] == b && p[..8] == P_LIMBS;
    BignumMod.MulMod(t, x, y, p, 8);
    r := t[..8];
  }

  method IsZero(a: seq<u32>) returns (z: bool)
    requires |a| == 8
    ensures z <==> Nat(a) == 0
  {
    NatOfEight(a);
    var acc: u32 := 0;
    for i := 0 to 8
      invariant acc == 0 <==> forall k :: 0 <= k < i ==> a[k] == 0
    {
      WordRange();
      OrIsZero(acc, a[i], 32);
      acc := Or(acc, a[i]);
    }
    z := acc == 0;
  }

  /** `p256_pt`: eight-limb Jacobian coordinates, overwritten by the point operations. */
  class Pt {
    var X: seq<u32>
    var Y: seq<u32>
    var Z: seq<u32>

    ghost predicate Valid()
      reads this
    {
      Fe(X) && Fe(Y) && Fe(Z)
    }

    /** The coordinates as numbers. */
    ghost function Value(): (p: Point)
      reads this
    {
      Point(Nat(X), Nat(Y), Nat(Z))
    }

    /** `p256_set_infinity`. */
    constructor Infinity()
      ensures Valid() && Value() == INFINITY
    {
      X, Y, Z := ONE, ONE, ZERO;
      new;
      SmallConstants();
    }

  }

  const ZERO: seq<u32> := [0, 0, 0, 0, 0, 0, 0, 0]
  const ONE: seq<u32> := [1, 0, 0, 0, 0, 0, 0, 0]

  lemma SmallConstants()
    ensures Fe(ZERO) && Nat(ZERO) == 0 && Fe(ONE) && Nat(ONE) == 1
  {
    ModulusValue();
    NatOfEight(ZERO);
    NatOfEight(ONE);
  }

  method SetInfinity(out: Pt)
    modifies out
    ensures out.Valid() && out.Value() == INFINITY
  {
    SmallConstants();
    out.X, out.Y, out.Z := ONE, ONE, ZERO;
  }

  /** `p256_double`; `out` may be `p`. */
  method PtDouble(out: Pt, p: Pt)
    requires p.Valid()
    modifies out
    ensures P() > 1 && out.Valid() && out.Value() == Double(old(p.Value()), P())
  {
    ModulusValue();
    var zz := IsZero(p.Z);
    var yz := IsZero(p.Y);
    if zz || yz {
      SetInfinity(out);
      return;
    }
    var y2 := FpMul(p.Y, p.Y);
    var s := FpMul(p.X, y2);
    s := FpAdd(s, s);
    s := FpAdd(s, s);
    var m := TangentNumerator(p);
    var x3 := FpMul(m, m);
    x3 := FpSub(x3, s);
    x3 := FpSub(x3, s);
    var t1 := FpSub(s, x3);
    var y3 := FpMul(m, t1);
    var t2 := FpMul(y2, y2);
    t2 := FpAdd(t2, t2);
    t2 := FpAdd(t2, t2);
    t2 := FpAdd(t2, t2);
    y3 := FpSub(y3, t2);
    var z3 := FpMul(p.Y, p.Z);
    z3 := FpAdd(z3, z3);
    out.X, out.Y, out.Z := x3, y3, z3;
  }

  /** M = 3 (X - Z^2) (X + Z^2). */
  method TangentNumerator(p: Pt) returns (m: seq<u32>)
    requires p.Valid()
    ensures P() > 1 && Fe(m) && Nat(m) == DoubleM(p.Value(), P())
  {
    ModulusValue();
    var t1 := FpMul(p.Z, p.Z);
    var t2 := FpSub(p.X, t1);
    t1 := FpAdd(p.X, t1);
    m := FpMul(t2, t1);
    t1 := FpAdd(m, m);
    m := FpAdd(t1, m);
  }

  /** `p256_add`; `out` may be `p` or `q`. */
  method PtAdd(out: Pt, p: Pt, q: Pt)
    requires p.Valid() && q.Valid()
    modifies out
    ensures P() > 1 && out.Valid() && out.Value() == Curve.Add(old(p.Value()), old(q.Value()), P())
  {
    ModulusValue();
    var pz := IsZero(p.Z);
    if pz { out.X, out.Y, out.Z := q.X, q.Y, q.Z; return; }
    var qz := IsZero(q.Z);
    if qz { out.X, out.Y, out.Z := p.X, p.Y, p.Z; return; }
    var u1, s1 := OverOther(p, q);
    var u2, s2 := OverOther(q, p);
    var sameX := Equal(u1, u2);
    if sameX {
      var sameY := Equal(s1, s2);
      if !sameY {
        SetInfinity(out);
        return;
      }
      PtDouble(out, p);
      return;
    }
    var h := FpSub(u2, u1);
    var r := FpSub(s2, s1);
    var x3, y3 := ChordPoint(u1, s1, h, r);
    var z3 := FpMul(h, p.Z);
    z3 := FpMul(z3, q.Z);
    out.X, out.Y, out.Z := x3, y3, z3;
  }

  /** U = X_p Z_q^2 and S = Y_p Z_q^3. */
  method OverOther(p: Pt, q: Pt) returns (u: seq<u32>, s: seq<u32>)
    requires p.Valid() && q.Valid()
    ensures P() > 1 && Fe(u) && Nat(u) == AddU(p.Value(), q.Value(), P())
    ensures Fe(s) && Nat(s) == AddS(p.Value(), q.Value(), P())
  {
    ModulusValue();
    var zz := FpMul(q.Z, q.Z);
    u := FpMul(p.X, zz);
    s := FpMul(p.Y, q.Z);
    s := FpMul(s, zz);
  }

  method Equal(a: seq<u32>, b: seq<u32>) returns (eq: bool)
    requires |a| == |b| == 8
    ensures eq <==> Nat(a) == Nat(b)
  {
    var x := Limbs(a);
    var y := Limbs(b);
    var c := Cmp(x, y, 8);
    assert x[..8] == a && y[..8] == b;
    eq := c == 0;
  }

  method ChordPoint(u1: seq<u32>, s1: seq<u32>, h: seq<u32>, r: seq<u32>) returns (x3: seq<u32>, y3: seq<u32>)
    requires Fe(u1) && Fe(s1) && Fe(h) && Fe(r)
    ensures Fe(x3) && Fe(y3) && P() > 1
    ensures var m := P(); var h2 := FMul(Nat(h), Nat(h), m); var h3 := FMul(h2, Nat(h), m);
      var uh2 := FMul(Nat(u1), h2, m);
      && Nat(x3) == FSub(FSub(FSub(FMul(Nat(r), Nat(r), m), h3, m), uh2, m), uh2, m)
      && Nat(y3) == FSub(FMul(Nat(r), FSub(uh2, Nat(x3), m), m), FMul(Nat(s1), h3, m), m)
  {
    ModulusValue();
    var h2 := FpMul(h, h);
    var h3 := FpMul(h2, h);
    var u1h2 := FpMul(u1, h2);
    x3 := FpMul(r, r);
    x3 := FpSub(x3, h3);
    x3 := FpSub(x3, u1h2);
    x3 := FpSub(x3, u1h2);
    var t := FpSub(u1h2, x3);
    y3 := FpMul(r, t);
    t := FpMul(s1, h3);
    y3 := FpSub(y3, t);
  }

  /** Left-to-right double-and-add over the bits of `k` from bit `i` up. */
  ghost function ScalarFrom(k: nat, i: nat, bits: nat, p: Point, m: nat): (r: Point)
    requires m > 1
    decreases bits - i
  {
    if i >= bits then INFINITY
    else
      var d := Double(ScalarFrom(k, i + 1, bits, p, m), m);
      if BignumMod.Shr(k, i) % 2 == 1 then Curve.Add(d, p, m) else d
  }

  /** Every accumulator of the loop is a reduced point on the curve when `p` is. */
  lemma {:induction false} AccumulatorsOnCurve(k: nat, i: nat, bits: nat, p: Point, b: int, m: nat)
    requires m > 1 && OnCurve(p, b, m) && Reduced(p, m)
    ensures OnCurve(ScalarFrom(k, i, bits, p, m), b, m) && Reduced(ScalarFrom(k, i, bits, p, m), m)
    decreases bits - i
  {
    if i >= bits {
      InfinityOnCurve(b, m);
    } else {
      AccumulatorsOnCurve(k, i + 1, bits, p, b, m);
      var acc := ScalarFrom(k, i + 1, bits, p, m);
      DoubleOnCurve(acc, b, m);
      AddOnCurve(Double(acc, m), p, b, m);
    }
  }

  /** `p256_scalar`: the accumulator after bit `i` is `ScalarFrom` of `i`. */
  method Scalar(out: Pt, k: seq<u32>, p: Pt)
    requires |k| == 8 && p.Valid() && P() > 1 && OnCurve(p.Value(), B(), P())
    modifies out
    ensures out.Valid() && OnCurve(out.Value(), B(), P())
    ensures out.Value() == ScalarFrom(Nat(k), 0, 256, old(p.Value()), P())
  {
    var acc := new Pt.Infinity();
    InfinityOnCurve(B(), P());
    var ks := Limbs(k);
    assert ks[..8] == k;
    var i := 256;
    while i > 0
      modifies acc
      invariant 0 <= i <= 256 && ks[..8] == k
      invariant acc.Valid() && OnCurve(acc.Value(), B(), P())
      invariant acc.Value() == ScalarFrom(Nat(k), i, 256, p.Value(), P())
    {
      i := i - 1;
      var bit := BignumMod.Bit(ks, 8, i);
      DoubleAndAdd(acc, p, bit);
      assert ks[..8] == k;
    }
    out.X, out.Y, out.Z := acc.X, acc.Y, acc.Z;
  }

  /** One turn of the loop. */
  method DoubleAndAdd(acc: Pt, p: Pt, bit: u32)
    requires acc != p && acc.Valid() && p.Valid() && P() > 1
    requires OnCurve(acc.Value(), B(), P()) && OnCurve(p.Value(), B(), P())
    modifies acc
    ensures acc.Valid() && OnCurve(acc.Value(), B(), P())
    ensures var d := Double(old(acc.Value()), P());
      acc.Value() == if bit != 0 then Curve.Add(d, p.Value(), P()) else d
  {
    DoubleOnCurve(acc.Value(), B(), P());
    PtDouble(acc, acc);
    if bit != 0 {
      AddOnCurve(acc.Value(), p.Value(), B(), P());
      PtAdd(acc, acc, p);
    }
  }

  /** `y^2 = x^3 - 3x + b` mod p. */
  ghost predicate AffineOnCurve(x: nat, y: nat)
  {
    OnCurve(Point(x, y, 1), B(), P())
  }

  /** `p256_point_valid`. */
  method PointValid(x: seq<u32>, y: seq<u32>) returns (ok: bool)
    requires |x| == 8 && |y| == 8
    ensures ok <==> Fe(x) && Fe(y) && AffineOnCurve(Nat(x), Nat(y))
  {
    ModulusValue();
    var xa := Limbs(x);
    var ya := Limbs(y);
    var p := Limbs(P_LIMBS);
    assert xa[..8] == x && ya[..8] == y && p[..8] == P_LIMBS;
    var cx := Cmp(xa, p, 8);
    var cy := Cmp(ya, p, 8);
    if cx >= 0 || cy >= 0 { return false; }
    CoefficientReduced();
    var lhs := FpMul(y, y);
    var x2 := FpMul(x, x);
    var rhs := FpMul(x2, x);
    var tx := FpAdd(x, x);
    tx := FpAdd(tx, x);
    rhs := FpSub(rhs, tx);
    rhs := FpAdd(rhs, B_LIMBS);
    AffineEquation(Nat(x), Nat(y), B(), P());
    ok := Equal(lhs, rhs);
  }

  lemma AffineEquation(x: nat, y: nat, b: nat, m: nat)
    requires m > 1
    ensures OnCurve(Point(x, y, 1), b, m) <==>
      FMul(y, y, m) == FAdd(FSub(FMul(FMul(x, x, m), x, m), FAdd(FAdd(x, x, m), x, m), m), b, m)
  {
    FieldOps(y, y, y, y, m);
    FieldOps(x, x, x, x, m);
    var x2 := FMul(x, x, m);
    FieldOps(x2, x * x, x, x, m);
    var x3 := FMul(x2, x, m);
    var d := FAdd(x, x, m);
    FieldOps(d, 2 * x, x, x, m);
    var t := FAdd(d, x, m);
    FieldOps(x3, x * x * x, t, 3 * x, m);
    FieldOps(FSub(x3, t, m), x * x * x - 3 * x, b, b, m);
    var l, r := FMul(y, y, m), FAdd(FSub(x3, t, m), b, m);
    var l', r' := y * y, x * x * x - 3 * x + b;
    assert Miss(x, y, CoefA(1), CoefC(1, b)) == l' - r';
    if l == r {
      CongAdd(l', r', r', r', m);
    }
    if Cong(l' - r', 0, m) {
      CongAdd(l' - r', 0, r', r', m);
      CongReducedEqual(l, r, m);
    }
  }

  /** The generator is on the curve. */
  lemma GeneratorOnCurve()
    ensures Fe(GX_LIMBS) && Fe(GY_LIMBS) && AffineOnCurve(Nat(GX_LIMBS), Nat(GY_LIMBS))
  {
    ModulusValue();
    NatOfEight(GX_LIMBS);
    NatOfEight(GY_LIMBS);
    NatOfEight(B_LIMBS);
    var x: int, y: int, b: int := Nat(GX_LIMBS), Nat(GY_LIMBS), B();
    assert Miss(x, y, CoefA(1), CoefC(1, b)) == y * y - x * x * x + 3 * x - b;
  }
}
