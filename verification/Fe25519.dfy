/** The field operations of the X25519 ladder on limbs: no 64-bit sum overflows, no cast to
    32 bits loses anything, and every result is right mod 2^255 - 19. */
module Fe25519 {
  import opened Words
  import opened Ring
  import opened Field25519

  ghost predicate Within(l: seq<int>, even: int, odd: int)
  {
    |l| == 10 && forall i :: 0 <= i < 10 ==> 0 <= l[i] <= if i % 2 == 0 then even else odd
  }

  /** What a multiplication leaves: even limbs below 2^26, odd limbs below 2^25 plus a small excess. */
  ghost predicate Tight(l: seq<u32>)
  {
    Within(l, 0x3FF_FFFF, 0x207_FFFF)
  }

  /** What one addition or subtraction of tight operands leaves; a multiplication takes this. */
  ghost predicate Loose(l: seq<u32>)
  {
    Within(l, 0xC00_0000, 0x620_0000)
  }

  /** The first nine limbs hold no more than their 26 or 25 bits. */
  ghost predicate Carried(l: seq<int>)
  {
    && |l| == 10
    && 0 <= l[0] < 0x400_0000 && 0 <= l[1] < 0x200_0000 && 0 <= l[2] < 0x400_0000
    && 0 <= l[3] < 0x200_0000 && 0 <= l[4] < 0x400_0000 && 0 <= l[5] < 0x200_0000
    && 0 <= l[6] < 0x400_0000 && 0 <= l[7] < 0x200_0000 && 0 <= l[8] < 0x400_0000
  }

  lemma CarriedIsTight(l: seq<u32>)
    requires |l| == 10 && Carried(l[1 := 0]) && l[1] <= 0x207_FFFF && l[9] <= 0x207_FFFF
    ensures Tight(l)
  {
    var m := l[1 := 0];
    forall i | 0 <= i < 10 ensures 0 <= l[i] <= if i % 2 == 0 then 0x3FF_FFFF else 0x207_FFFF {
      assert i != 1 ==> l[i] == m[i];
    }
  }

  /** The residue that limbs stand for. */
  function Res(l: seq<u32>): (r: nat)
    requires |l| == 10
    ensures r < P25519
  {
    Val(l) % P25519
  }

  /** The ten products of one output limb, summed in a signed 64-bit word. */
  method SumColumn(a: seq<int>, b: seq<int>, ghost f: seq<u32>, ghost g: seq<u32>, ghost k: nat) returns (r: i64)
    requires |a| == |b| == 10 && k < 10 && Loose(f) && Loose(g)
    requires forall i :: 0 <= i < 10 ==> a[i] == Left(f, k, i) && b[i] == Right(g, k, i)
    ensures r == Column(f, g, k, 10) && 0 <= r <= 0x6D1A_0000_0000_0000
    ensures k == 9 ==> r <= 0x5A0_0000_0000_0000
  {
    ColumnFits(f, g, k);
    ColumnOfTen(a, b, f, g, k);
    r := a[0] * b[0] + a[1] * b[1] + a[2] * b[2] + a[3] * b[3] + a[4] * b[4]
      + a[5] * b[5] + a[6] * b[6] + a[7] * b[7] + a[8] * b[8] + a[9] * b[9];
  }

  lemma ColumnFits(f: seq<u32>, g: seq<u32>, k: nat)
    requires k < 10 && Loose(f) && Loose(g)
    ensures 0 <= Column(f, g, k, 10) <= 0x6D1A_0000_0000_0000
    ensures k == 9 ==> Column(f, g, k, 10) <= 0x5A0_0000_0000_0000
  {
    if k == 9 {
      ColumnBound(f, g, k, 10, 0xC00_0000, 0xC00_0000);
    } else {
      ColumnBound(f, g, k, 10, 0xC40_0000, 0xE400_0000);
    }
  }

  lemma ColumnOfTen(a: seq<int>, b: seq<int>, f: seq<u32>, g: seq<u32>, k: nat)
    requires |a| == |b| == |f| == |g| == 10 && k < 10
    requires forall i :: 0 <= i < 10 ==> a[i] == Left(f, k, i) && b[i] == Right(g, k, i)
    ensures Column(f, g, k, 10) == a[0] * b[0] + a[1] * b[1] + a[2] * b[2] + a[3] * b[3] + a[4] * b[4]
      + a[5] * b[5] + a[6] * b[6] + a[7] * b[7] + a[8] * b[8] + a[9] * b[9]
  {
    assert Column(f, g, k, 1) == a[0] * b[0];
    assert Column(f, g, k, 2) == Column(f, g, k, 1) + a[1] * b[1];
    assert Column(f, g, k, 4) == Column(f, g, k, 2) + a[2] * b[2] + a[3] * b[3];
    assert Column(f, g, k, 6) == Column(f, g, k, 4) + a[4] * b[4] + a[5] * b[5];
    assert Column(f, g, k, 8) == Column(f, g, k, 6) + a[6] * b[6] + a[7] * b[7];
    assert Column(f, g, k, 10) == Column(f, g, k, 8) + a[8] * b[8] + a[9] * b[9];
  }

  lemma {:induction false} ColumnBound(f: seq<u32>, g: seq<u32>, k: nat, n: nat, amax: int, bmax: int)
    requires |f| == |g| == 10 && k < 10 && n <= 10
    requires forall i :: 0 <= i < 10 ==> 0 <= Left(f, k, i) <= amax && 0 <= Right(g, k, i) <= bmax
    ensures 0 <= Column(f, g, k, n) <= n * (amax * bmax)
  {
    if n > 0 {
      ColumnBound(f, g, k, n - 1, amax, bmax);
      MulLe(Left(f, k, n - 1), amax, Right(g, k, n - 1), bmax);
      NextMultiple(n, amax * bmax);
    }
  }

  /** `fe25519_mul`. */
  method Mul(f: seq<u32>, g: seq<u32>) returns (h: seq<u32>)
    requires Loose(f) && Loose(g)
    ensures Tight(h) && Res(h) == FMul(Res(f), Res(g), P25519)
  {
    var r := MulColumns(f, g);
    h := CarryProduct(r);
    ColumnsAreProduct(f, g, 10);
    ValToIsVal(f);
    ResidueOfProduct(Val(h), Val(f), Val(g), Val(r));
  }

  lemma ResidueOfProduct(h: int, f: int, g: int, r: int)
    requires Cong(h, r, P25519) && Cong(r, f * g, P25519)
    ensures h % P25519 == FMul(f % P25519, g % P25519, P25519)
  {
    CongReduced(f, P25519);
    CongReduced(g, P25519);
    CongMul(f % P25519, f, g % P25519, g, P25519);
  }

  method MulColumns(f: seq<u32>, g: seq<u32>) returns (r: seq<i64>)
    requires Loose(f) && Loose(g)
    ensures r == Columns(f, g, 10) && forall k :: 0 <= k < 10 ==> 0 <= r[k] <= 0x6D1A_0000_0000_0000
    ensures r[9] <= 0x5A0_0000_0000_0000
  {
    var r0, r2, r4, r6, r8 := EvenColumns(f, g);
    var r1, r3, r5, r7, r9 := OddColumns(f, g);
    r := [r0, r1, r2, r3, r4, r5, r6, r7, r8, r9];
    var c := Columns(f, g, 10);
    assert r[0] == c[0] && r[1] == c[1] && r[2] == c[2] && r[3] == c[3] && r[4] == c[4]
      && r[5] == c[5] && r[6] == c[6] && r[7] == c[7] && r[8] == c[8] && r[9] == c[9];
  }

  predicate IsColumn(r: i64, f: seq<u32>, g: seq<u32>, k: nat)
    requires |f| == |g| == 10 && k < 10
  {
    r == Column(f, g, k, 10) && 0 <= r <= 0x6D1A_0000_0000_0000
  }

  /** The columns in which the product of two odd limbs is doubled. */
  method EvenColumns(f: seq<u32>, g: seq<u32>) returns (r0: i64, r2: i64, r4: i64, r6: i64, r8: i64)
    requires Loose(f) && Loose(g)
    ensures IsColumn(r0, f, g, 0) && IsColumn(r2, f, g, 2) && IsColumn(r4, f, g, 4) && IsColumn(r6, f, g, 6)
    ensures IsColumn(r8, f, g, 8)
  {
    var f1_2: i64 := 2 * f[1] as int;
    var f3_2: i64 := 2 * f[3] as int;
    var f5_2: i64 := 2 * f[5] as int;
    var f7_2: i64 := 2 * f[7] as int;
    var f9_2: i64 := 2 * f[9] as int;
    var g1_19: i64 := 19 * g[1] as int;
    var g2_19: i64 := 19 * g[2] as int;
    var g3_19: i64 := 19 * g[3] as int;
    var g4_19: i64 := 19 * g[4] as int;
    var g5_19: i64 := 19 * g[5] as int;
    var g6_19: i64 := 19 * g[6] as int;
    var g7_19: i64 := 19 * g[7] as int;
    var g8_19: i64 := 19 * g[8] as int;
    var g9_19: i64 := 19 * g[9] as int;
    r0 := SumColumn([f[0], f1_2, f[2], f3_2, f[4], f5_2, f[6], f7_2, f[8], f9_2],
      [g[0], g9_19, g8_19, g7_19, g6_19, g5_19, g4_19, g3_19, g2_19, g1_19], f, g, 0);
    r2 := SumColumn([f[0], f1_2, f[2], f3_2, f[4], f5_2, f[6], f7_2, f[8], f9_2],
      [g[2], g[1], g[0], g9_19, g8_19, g7_19, g6_19, g5_19, g4_19, g3_19], f, g, 2);
    r4 := SumColumn([f[0], f1_2, f[2], f3_2, f[4], f5_2, f[6], f7_2, f[8], f9_2],
      [g[4], g[3], g[2], g[1], g[0], g9_19, g8_19, g7_19, g6_19, g5_19], f, g, 4);
    r6 := SumColumn([f[0], f1_2, f[2], f3_2, f[4], f5_2, f[6], f7_2, f[8], f9_2],
      [g[6], g[5], g[4], g[3], g[2], g[1], g[0], g9_19, g8_19, g7_19], f, g, 6);
    r8 := SumColumn([f[0], f1_2, f[2], f3_2, f[4], f5_2, f[6], f7_2, f[8], f9_2],
      [g[8], g[7], g[6], g[5], g[4], g[3], g[2], g[1], g[0], g9_19], f, g, 8);
  }

  method OddColumns(f: seq<u32>, g: seq<u32>) returns (r1: i64, r3: i64, r5: i64, r7: i64, r9: i64)
    requires Loose(f) && Loose(g)
    ensures IsColumn(r1, f, g, 1) && IsColumn(r3, f, g, 3) && IsColumn(r5, f, g, 5) && IsColumn(r7, f, g, 7)
    ensures IsColumn(r9, f, g, 9) && r9 <= 0x5A0_0000_0000_0000
  {
    var g2_19: i64 := 19 * g[2] as int;
    var g3_19: i64 := 19 * g[3] as int;
    var g4_19: i64 := 19 * g[4] as int;
    var g5_19: i64 := 19 * g[5] as int;
    var g6_19: i64 := 19 * g[6] as int;
    var g7_19: i64 := 19 * g[7] as int;
    var g8_19: i64 := 19 * g[8] as int;
    var g9_19: i64 := 19 * g[9] as int;
    r1 := SumColumn(f,
      [g[1], g[0], g9_19, g8_19, g7_19, g6_19, g5_19, g4_19, g3_19, g2_19], f, g, 1);
    r3 := SumColumn(f,
      [g[3], g[2], g[1], g[0], g9_19, g8_19, g7_19, g6_19, g5_19, g4_19], f, g, 3);
    r5 := SumColumn(f,
      [g[5], g[4], g[3], g[2], g[1], g[0], g9_19, g8_19, g7_19, g6_19], f, g, 5);
    r7 := SumColumn(f,
      [g[7], g[6], g[5], g[4], g[3], g[2], g[1], g[0], g9_19, g8_19], f, g, 7);
    r9 := SumColumn(f,
      [g[9], g[8], g[7], g[6], g[5], g[4], g[3], g[2], g[1], g[0]], f, g, 9);
  }

  /** The pass all three carry loops share: limbs 0 to 8 pass what they cannot hold upwards. */
  method CarryUp(t: seq<i64>, ghost m: int) returns (r: seq<i64>)
    requires |t| == 10 && m <= 0x7000_0000_0000_0000 && forall k :: 0 <= k < 10 ==> 0 <= t[k] <= m
    ensures Carried(r) && Val(r) == Val(t) && t[9] <= r[9] && 0x3FF_0000 * (r[9] - t[9]) <= m
  {
    var r0, r1, r2, r3, r4, c4 := CarryLow(t[0], t[1], t[2], t[3], t[4], m);
    var r5, r6, r7, r8, r9 := CarryHigh(t[5] + c4, t[6], t[7], t[8], t[9], c4, m);
    r := [r0, r1, r2, r3, r4, r5, r6, r7, r8, r9];
    JoinHalves(t, r, c4);
  }

  lemma JoinHalves(t: seq<int>, r: seq<int>, c: int)
    requires |t| == |r| == 10
    requires r[0] + Weight(1) * r[1] + Weight(2) * r[2] + Weight(3) * r[3] + Weight(4) * r[4] + Weight(5) * c
      == t[0] + Weight(1) * t[1] + Weight(2) * t[2] + Weight(3) * t[3] + Weight(4) * t[4]
    requires r[5] + 0x200_0000 * r[6] + 0x8_0000_0000_0000 * r[7] + 0x1000_0000_0000_0000_0000 * r[8]
        + 0x40_0000_0000_0000_0000_0000_0000 * r[9]
      == t[5] + c + 0x200_0000 * t[6] + 0x8_0000_0000_0000 * t[7] + 0x1000_0000_0000_0000_0000 * t[8]
        + 0x40_0000_0000_0000_0000_0000_0000 * t[9]
    ensures Val(r) == Val(t)
  {
  }

  method CarryLow(t0: i64, t1: i64, t2: i64, t3: i64, t4: i64, ghost m: int)
    returns (r0: i64, r1: i64, r2: i64, r3: i64, r4: i64, c: i64)
    requires 0 <= t0 <= m && 0 <= t1 <= m && 0 <= t2 <= m && 0 <= t3 <= m && 0 <= t4 <= m <= 0x7000_0000_0000_0000
    ensures 0 <= r0 < 0x400_0000 && 0 <= r1 < 0x200_0000 && 0 <= r2 < 0x400_0000 && 0 <= r3 < 0x200_0000
    ensures 0 <= r4 < 0x400_0000 && 0 <= 0x100_0000 * c <= m
    ensures r0 + Weight(1) * r1 + Weight(2) * r2 + Weight(3) * r3 + Weight(4) * r4 + Weight(5) * c
      == t0 + Weight(1) * t1 + Weight(2) * t2 + Weight(3) * t3 + Weight(4) * t4
  {
    var carry;
    r0, carry := Cut26(t0);
    assert 0x100_0000 * carry <= m;
    ghost var c0 := carry;
    r1, carry := Cut25(t1 + carry);
    assert 0x100_0000 * carry <= m;
    ghost var c1 := carry;
    r2, carry := Cut26(t2 + carry);
    assert 0x100_0000 * carry <= m;
    ghost var c2 := carry;
    r3, carry := Cut25(t3 + carry);
    assert 0x100_0000 * carry <= m;
    r4, c := Cut26(t4 + carry);
    LowSum(t0, t1, t2, t3, t4, r0, r1, r2, r3, r4, c0, c1, c2, carry, c);
  }

  lemma LowSum(t0: int, t1: int, t2: int, t3: int, t4: int, r0: int, r1: int, r2: int, r3: int, r4: int,
               c0: int, c1: int, c2: int, c3: int, c4: int)
    requires t0 == r0 + 0x400_0000 * c0 && t1 + c0 == r1 + 0x200_0000 * c1 && t2 + c1 == r2 + 0x400_0000 * c2
    requires t3 + c2 == r3 + 0x200_0000 * c3 && t4 + c3 == r4 + 0x400_0000 * c4
    ensures r0 + Weight(1) * r1 + Weight(2) * r2 + Weight(3) * r3 + Weight(4) * r4 + Weight(5) * c4
      == t0 + Weight(1) * t1 + Weight(2) * t2 + Weight(3) * t3 + Weight(4) * t4
  {
  }

  /** `carry = t >> 26` and what `t -= carry << 26` leaves. */
  method Cut26(t: i64) returns (low: i64, carry: i64)
    requires t >= 0
    ensures t == low + 0x400_0000 * carry && 0 <= low < 0x400_0000 && carry >= 0
  {
    low, carry := t % 0x400_0000, t / 0x400_0000;
  }

  method Cut25(t: i64) returns (low: i64, carry: i64)
    requires t >= 0
    ensures t == low + 0x200_0000 * carry && 0 <= low < 0x200_0000 && carry >= 0
  {
    low, carry := t % 0x200_0000, t / 0x200_0000;
  }

  method CarryHigh(t5: i64, t6: i64, t7: i64, t8: i64, t9: i64, ghost c: int, ghost m: int)
    returns (r5: i64, r6: i64, r7: i64, r8: i64, r9: i64)
    requires 0 <= t5 <= m + c && 0 <= t6 <= m && 0 <= t7 <= m && 0 <= t8 <= m && 0 <= t9 <= m <= 0x7000_0000_0000_0000
    requires 0 <= 0x100_0000 * c <= m
    ensures 0 <= r5 < 0x200_0000 && 0 <= r6 < 0x400_0000 && 0 <= r7 < 0x200_0000 && 0 <= r8 < 0x400_0000
    ensures t9 <= r9 && 0x3FF_0000 * (r9 - t9) <= m
    ensures r5 + 0x200_0000 * r6 + 0x8_0000_0000_0000 * r7 + 0x1000_0000_0000_0000_0000 * r8
        + 0x40_0000_0000_0000_0000_0000_0000 * r9
      == t5 + 0x200_0000 * t6 + 0x8_0000_0000_0000 * t7 + 0x1000_0000_0000_0000_0000 * t8
        + 0x40_0000_0000_0000_0000_0000_0000 * t9
  {
    var carry;
    r5, carry := Cut25(t5);
    r6, carry := Cut26(t6 + carry);
    r7, carry := Cut25(t7 + carry);
    r8, carry := Cut26(t8 + carry);
    r9 := t9 + carry;
  }

  /** The carry pass of `fe25519_mul`. */
  method CarryProduct(t: seq<i64>) returns (h: seq<u32>)
    requires |t| == 10 && forall k :: 0 <= k < 10 ==> 0 <= t[k] <= 0x6D1A_0000_0000_0000
    requires t[9] <= 0x5A0_0000_0000_0000
    ensures Tight(h) && Cong(Val(h), Val(t), P25519)
  {
    var r := CarryUp(t, 0x6D1A_0000_0000_0000);
    var r9, c9 := Cut25(r[9]);
    var r0, c0 := Cut26(r[0] + 19 * c9);
    h := [r0, r[1] + c0, r[2], r[3], r[4], r[5], r[6], r[7], r[8], r9];
    CarriedIsTight(h);
    FoldTop(r, h, c0, c9);
    CongByMultiple(Val(t), Val(h), c9, P25519);
  }

  /** The bits above position 255 come back at position 0, times 19. */
  lemma FoldTop(r: seq<int>, h: seq<int>, c0: int, c9: int)
    requires |r| == |h| == 10 && r[0] + 19 * c9 == h[0] + 0x400_0000 * c0 && h[1] == r[1] + c0
    requires r[9] == h[9] + 0x200_0000 * c9 && forall k :: 2 <= k < 9 ==> h[k] == r[k]
    ensures Val(r) == Val(h) + c9 * P25519
  {
  }

  /** `fe25519_add`: no limb wraps. */
  method Add(f: seq<u32>, g: seq<u32>) returns (h: seq<u32>)
    requires Tight(f) && Tight(g)
    ensures Loose(h) && Res(h) == FAdd(Res(f), Res(g), P25519)
  {
    var out := new u32[10];
    for i := 0 to 10
      invariant forall k :: 0 <= k < i ==> out[k] == f[k] as int + g[k]
    {
      out[i] := f[i] as int + g[i];
    }
    h := out[..];
    ValOfSum(f, g, h);
    ResidueOfSum(Val(h), Val(f), Val(g), P25519);
  }

  lemma ResidueOfSum(h: int, f: int, g: int, m: nat)
    requires m > 0 && h == f + g
    ensures h % m == FAdd(f % m, g % m, m)
  {
    CongReduced(f, m);
    CongReduced(g, m);
    CongAdd(f % m, f, g % m, g, m);
  }

  lemma ResidueOfDifference(h: int, f: int, g: int, m: nat)
    requires m > 0 && h == f - g + 2 * m
    ensures h % m == FSub(f % m, g % m, m)
  {
    CongByMultiple(h, f - g, 2, m);
    CongReduced(f, m);
    CongReduced(g, m);
    CongAdd(f % m, f, g % m, g, m);
  }

  /** The limbs of 2 (2^255 - 19), each at least as large as any limb it is used to subtract. */
  const TWO_P: seq<u32> := [0x7ff_ffda, 0x3ff_fffe, 0x7ff_fffe, 0x3ff_fffe, 0x7ff_fffe,
                            0x3ff_fffe, 0x7ff_fffe, 0x3ff_fffe, 0x7ff_fffe, 0x3ff_fffe]

  lemma TwicePrime()
    ensures Val(TWO_P) == 2 * P25519
    ensures forall i :: 0 <= i < 10 ==> (if i % 2 == 0 then 0x7ff_ffda else 0x3ff_fffe) <= TWO_P[i]
    ensures forall i :: 0 <= i < 10 ==> TWO_P[i] <= (if i % 2 == 0 then 0x7ff_fffe else 0x3ff_fffe)
  {
  }

  /** `fe25519_sub`: adding 2p keeps every limb non-negative, because `g` is tight. */
  method Sub(f: seq<u32>, g: seq<u32>) returns (h: seq<u32>)
    requires Tight(f) && Tight(g)
    ensures Loose(h) && Res(h) == FSub(Res(f), Res(g), P25519)
  {
    h := Differences(f, g);
    DifferenceValue(f, g, h);
    ResidueOfDifference(Val(h), Val(f), Val(g), P25519);
  }

  method Differences(f: seq<u32>, g: seq<u32>) returns (h: seq<u32>)
    requires Tight(f) && Tight(g)
    ensures Loose(h) && forall k :: 0 <= k < 10 ==> h[k] == f[k] as int - g[k] as int + TWO_P[k]
  {
    TwicePrime();
    var out := new u32[10];
    for i := 0 to 10
      invariant forall k :: 0 <= k < i ==> out[k] == f[k] as int - g[k] as int + TWO_P[k]
    {
      var diff: i64 := f[i] as int - g[i] as int + TWO_P[i];
      out[i] := diff;
    }
    h := out[..];
    DifferencesLoose(f, g, h);
  }

  lemma DifferencesLoose(f: seq<u32>, g: seq<u32>, h: seq<u32>)
    requires Tight(f) && Tight(g) && |h| == 10 && forall k :: 0 <= k < 10 ==> h[k] == f[k] as int - g[k] as int + TWO_P[k]
    ensures Loose(h)
  {
    TwicePrime();
  }

  lemma DifferenceValue(f: seq<u32>, g: seq<u32>, h: seq<u32>)
    requires |f| == |g| == |h| == 10 && forall k :: 0 <= k < 10 ==> h[k] == f[k] as int - g[k] as int + TWO_P[k]
    ensures Val(h) == Val(f) - Val(g) + 2 * P25519
  {
    TwicePrime();
    var s := seq(10, k requires 0 <= k < 10 => h[k] as int + g[k]);
    ValOfSum(h, g, s);
    ValOfSum(f, TWO_P, s);
  }

  const A24: int := 121665

  /** `fe25519_mul_a24`, whose carry pass starts at the top limb. */
  method MulA24(f: seq<u32>) returns (h: seq<u32>)
    requires Loose(f)
    ensures Tight(h) && Res(h) == FMul(A24, Res(f), P25519)
  {
    var t := new i64[10];
    for i := 0 to 10
      invariant forall k :: 0 <= k < i ==> t[k] == A24 * f[k]
    {
      t[i] := f[i] as int * A24;
    }
    ValOfScaled(A24, f);
    assert t[..] == Scaled(A24, f);
    h := CarryA24(t[..]);
    ResidueOfProduct(Val(h), A24, Val(f), Val(t[..]));
    DivModUnique(A24, P25519, 0, A24);
  }

  method CarryA24(t: seq<i64>) returns (h: seq<u32>)
    requires |t| == 10 && forall k :: 0 <= k < 10 ==> 0 <= t[k] <= 0x1650_0000_0000
    ensures Tight(h) && Cong(Val(h), Val(t), P25519)
  {
    var u := CarryTop(t);
    var r := CarryUp(u, 0x1700_0000_0000);
    h := [r[0], r[1], r[2], r[3], r[4], r[5], r[6], r[7], r[8], r[9]];
    CarriedIsTight(h);
    assert h == r;
  }

  /** The carry out of the top limb comes back at the bottom, times 19. */
  method CarryTop(t: seq<i64>) returns (u: seq<i64>)
    requires |t| == 10 && forall k :: 0 <= k < 10 ==> 0 <= t[k] <= 0x1650_0000_0000
    ensures |u| == 10 && u[9] < 0x200_0000 && forall k :: 0 <= k < 10 ==> 0 <= u[k] <= 0x1700_0000_0000
    ensures Cong(Val(u), Val(t), P25519)
  {
    var r9, c9 := Cut25(t[9]);
    u := [t[0] + 19 * c9, t[1], t[2], t[3], t[4], t[5], t[6], t[7], t[8], r9];
    FoldTop(t, u, 0, c9);
    CongByMultiple(Val(t), Val(u), c9, P25519);
  }
}
