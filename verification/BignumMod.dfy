/** Reduction by binary long division and square-and-multiply exponentiation over the limb
    arrays of sdk/tools/zz9k-crypto-soft.c. */
module BignumMod {
  import opened Words
  import opened Bignum

  const MAX_LIMBS: nat := 128

  /** `x >> i`. */
  function Shr(x: nat, i: nat): (r: nat)
  {
    if i == 0 then x else Shr(x / 2, i - 1)
  }

  lemma {:induction false} ShrIsDiv(x: nat, i: nat)
    ensures Shr(x, i) == x / Pow2(i)
    decreases i
  {
    if i > 0 {
      ShrIsDiv(x / 2, i - 1);
      DivDiv(x, 2, Pow2(i - 1));
    }
  }

  /** Each shift drops one bit off the low end. */
  lemma {:induction false} ShrStep(x: nat, i: nat)
    ensures Shr(x, i) == 2 * Shr(x, i + 1) + Shr(x, i) % 2
    decreases i
  {
    if i > 0 { ShrStep(x / 2, i - 1); }
  }

  lemma {:induction false} ShrBelow(x: nat, i: nat)
    requires x < Pow2(i)
    ensures Shr(x, i) == 0
    decreases i
  {
    if i > 0 { ShrBelow(x / 2, i - 1); }
  }

  /** Bits below bit `n` do not depend on the bits above. */
  lemma {:induction false} LowBits(x: nat, i: nat, n: nat)
    requires i < n
    ensures Shr(x % Pow2(n), i) % 2 == Shr(x, i) % 2
    decreases i
  {
    var m := Pow2(n - 1);
    ModTwice(x, m);
    HalfOf(x % (2 * m), x % 2, x / 2 % m);
    if i > 0 { LowBits(x / 2, i - 1, n - 1); }
  }

  lemma HalfOf(x: nat, b: nat, h: nat)
    requires x == b + 2 * h && b < 2
    ensures x / 2 == h && x % 2 == b
  {
  }

  /** Bit `i` of the number, by limb and offset: the value of `(a[i >> 5] >> (i & 31)) & 1`. */
  lemma BitOfLimb(s: seq<u32>, i: nat)
    ensures Shr(Nat(s), i) % 2 == if i / 32 < |s| then s[i / 32] / Pow2(i % 32) % 2 else 0
  {
    var w, t := i / 32, i % 32;
    ShrIsDiv(Nat(s), i);
    if w < |s| {
      calc {
        Nat(s) / Pow2(i) % 2;
        { ShiftSplit(Nat(s), w, t); }
        Nat(s) / Base(w) / Pow2(t) % 2;
        { ShiftToLimb(s, w); }
        Nat(s[w..]) / Pow2(t) % 2;
        { assert s[w..] == [s[w]] + s[w + 1..]; NatCons(s[w], s[w + 1..]); }
        (s[w] + Nat(s[w + 1..]) * 0x1_0000_0000) / Pow2(t) % 2;
        { HighBitsAreEven(s[w], Nat(s[w + 1..]), t); }
        s[w] / Pow2(t) % 2;
      }
    } else {
      NatBound(s);
      BaseIsPow2(|s|);
      Pow2Mono(32 * |s|, i);
      DivModUnique(Nat(s), Pow2(i), 0, Nat(s));
    }
  }

  lemma ShiftSplit(x: nat, w: nat, t: nat)
    ensures x / Pow2(32 * w + t) == x / Base(w) / Pow2(t)
  {
    BaseIsPow2(w);
    Pow2Add(32 * w, t);
    DivDiv(x, Base(w), Pow2(t));
  }

  lemma ShiftToLimb(s: seq<u32>, w: nat)
    requires w < |s|
    ensures Nat(s) / Base(w) == Nat(s[w..])
  {
    assert s == s[..w] + s[w..];
    NatConcat(s[..w], s[w..]);
    NatBound(s[..w]);
    QuotientOf(Nat(s[..w]), Nat(s[w..]), Base(w));
  }

  lemma NatCons(x: u32, s: seq<u32>)
    ensures Nat([x] + s) == x + Nat(s) * 0x1_0000_0000
  {
    NatConcat([x], s);
    assert [x] == [] + [x];
    NatAppend([], x);
    assert Base(1) == 0x1_0000_0000 * Base(0);
  }

  lemma HighBitsAreEven(limb: u32, hi: nat, t: nat)
    requires t < 32
    ensures (limb + hi * 0x1_0000_0000) / Pow2(t) % 2 == limb / Pow2(t) % 2
  {
    var p, c := Pow2(t), Pow2(31 - t);
    assert p * c == 0x8000_0000 by { Pow2Add(t, 31 - t); WordRange(); }
    assert hi * 0x1_0000_0000 == p * (2 * (c * hi)) by { RegroupFour(p, c, hi); }
    EvenShift(limb, p, c * hi);
  }

  lemma RegroupFour(p: int, c: int, h: int)
    requires p * c == 0x8000_0000
    ensures h * 0x1_0000_0000 == p * (2 * (c * h))
  {
    assert p * (c * h) == (p * c) * h;
  }

  lemma {:induction false} BaseMono(m: nat, n: nat)
    requires m <= n
    ensures Base(m) <= Base(n)
  {
    if m < n { BaseMono(m, n - 1); }
  }

  lemma {:induction false} Pow2Mono(m: nat, n: nat)
    requires m <= n
    ensures Pow2(m) <= Pow2(n)
  {
    if m < n { Pow2Mono(m, n - 1); }
  }

  method Bit(a: array<u32>, len: nat, i: nat) returns (b: u32)
    requires len <= a.Length
    ensures b == Shr(Nat(a[..len]), i) % 2
  {
    BitOfLimb(a[..len], i);
    var w := i / 32;
    if w >= len { return 0; }
    b := a[w] / Pow2(i % 32) % 2;
  }

  /** The bit length: the least `n` with the value below `2^n`. */
  method BitLen(a: array<u32>, len: nat) returns (n: nat)
    requires len <= a.Length
    ensures Nat(a[..len]) < Pow2(n)
    ensures n > 0 ==> Pow2(n - 1) <= Nat(a[..len])
  {
    var i := len;
    while i > 0
      invariant 0 <= i <= len
      invariant Nat(a[..i]) == Nat(a[..len])
    {
      i := i - 1;
      NatSnoc(a[..], i);
      assert a[..][..i] == a[..i] && a[..][..i + 1] == a[..i + 1];
      if a[i] != 0 {
        var b := 31;
        WordRange();
        while true
          invariant 0 <= b <= 31
          invariant 0 < a[i] < Pow2(b + 1)
          decreases b
        {
          TopBit(a[i], b);
          if a[i] / Pow2(b) % 2 == 1 {
            NatBound(a[..i]);
            LengthOfTop(Nat(a[..i]), a[i], i, b);
            return i * 32 + b + 1;
          }
          b := b - 1;
        }
      }
    }
    n := 0;
  }

  lemma TopBit(x: nat, b: nat)
    requires 0 < x < Pow2(b + 1)
    ensures x / Pow2(b) % 2 == 1 <==> Pow2(b) <= x
    ensures b == 0 ==> Pow2(b) <= x
  {
    var p := Pow2(b);
    if p <= x { DivModUnique(x, p, 1, x - p); } else { DivModUnique(x, p, 0, x); }
  }

  lemma LengthOfTop(lo: nat, x: u32, i: nat, b: nat)
    requires lo < Base(i) && Pow2(b) <= x < Pow2(b + 1)
    ensures Pow2(i * 32 + b) <= lo + x * Base(i) < Pow2(i * 32 + b + 1)
  {
    BaseIsPow2(i);
    Pow2Add(32 * i, b);
    Pow2Add(32 * i, b + 1);
    LengthArith(lo, x, Base(i), Pow2(b), Pow2(b + 1));
  }

  lemma LengthArith(lo: nat, x: nat, c: nat, p: nat, q: nat)
    requires lo < c && p <= x < q
    ensures c * p <= lo + x * c < c * q
  {
    MulMono(p, x, c);
    MulMono(x + 1, q, c);
    Distr(x, 1, c);
  }

  lemma OrLowBit(y: nat, c: nat)
    requires y % 2 == 0 && c <= 1
    ensures Or(y, c) == y + c
  {
  }

  /** `acc <<= 1` across `len` limbs; returns the bit shifted out. */
  method ShiftLeft(acc: array<u32>, len: nat) returns (carry: u32)
    requires len <= acc.Length
    modifies acc
    ensures carry <= 1
    ensures Nat(acc[..len]) + Carried(carry, len) == 2 * Nat(old(acc[..len]))
    ensures len > 0 ==> acc[0] % 2 == 0
  {
    carry := 0;
    ghost var x, z := acc[..len], [];
    for k := 0 to len
      invariant carry <= 1 && |z| == k
      invariant forall j :: k <= j < len ==> acc[j] == x[j]
      invariant forall j :: 0 <= j < k ==> acc[j] == z[j]
      invariant Nat(z) + Carried(carry, k) == Nat(x[..k]) + Nat(x[..k])
      invariant k > 0 ==> acc[0] % 2 == 0
    {
      var newcarry := acc[k] / 0x8000_0000;
      OrLowBit(Trunc32(acc[k] as int * 2), carry);
      acc[k] := Or(Trunc32(acc[k] as int * 2), carry);
      AddLimb(z, x, x, k, carry, acc[k], newcarry);
      z := z + [acc[k]];
      carry := newcarry;
    }
    assert x[..len] == x && acc[..len] == z;
  }

  lemma NatLowLimb(s: seq<u32>, t: seq<u32>, d: int, n: nat)
    requires 0 < n <= |s| == |t| && t[0] == s[0] + d
    requires forall k :: 0 < k < |s| ==> t[k] == s[k]
    ensures NatTo(t, n) == NatTo(s, n) + d
  {
    if n > 1 {
      NatLowLimb(s, t, d, n - 1);
    } else {
      assert NatTo(s, 1) == NatTo(s, 0) + s[0] * Base(0);
      assert NatTo(t, 1) == NatTo(t, 0) + t[0] * Base(0);
    }
  }

  /** The remainder of the leading bits of `x`, those from bit `i` up. */
  ghost function LeadingRemainder(x: nat, i: nat, m: nat): (r: nat)
    requires m > 0
  {
    Shr(x, i) % m
  }

  lemma NothingLeads(x: nat, i: nat, m: nat)
    requires m > 0 && x < Pow2(i)
    ensures LeadingRemainder(x, i, m) == 0
  {
    ShrBelow(x, i);
    DivModUnique(0, m, 0, 0);
  }

  /** The prefix of the dividend gains its next bit; the remainder follows. */
  lemma DivisionStep(x: nat, i: nat, m: nat, acc: nat)
    requires m > 0 && acc == LeadingRemainder(x, i + 1, m)
    ensures var t := 2 * acc + Shr(x, i) % 2;
      t < 2 * m && LeadingRemainder(x, i, m) == if t >= m then t - m else t
  {
    ShrStep(x, i);
    var q, p := Shr(x, i + 1), Shr(x, i);
    var t, k := 2 * acc + p % 2, q / m;
    assert p == 2 * (m * k + acc) + p % 2;
    assert 2 * (m * k) == m * (2 * k);
    if t >= m {
      assert p == m * (2 * k + 1) + (t - m) by { Distr(2 * k, 1, m); }
      DivModUnique(p, m, 2 * k + 1, t - m);
    } else {
      DivModUnique(p, m, 2 * k, t);
    }
  }

  /** Clears the accumulator and widens the modulus by a zero limb. */
  method Widen(acc: array<u32>, mm: array<u32>, m: array<u32>, n: nat)
    requires n < acc.Length && n < mm.Length && n <= m.Length
    requires acc != mm && acc != m && mm != m
    modifies acc, mm
    ensures Nat(acc[..n + 1]) == 0
    ensures Nat(mm[..n + 1]) == Nat(m[..n]) < Base(n)
  {
    for i := 0 to n + 1
      invariant forall j :: 0 <= j < i ==> acc[j] == 0
      invariant forall j :: 0 <= j < i ==> mm[j] == if j < n then m[j] else 0
    {
      acc[i] := 0;
      mm[i] := if i < n then m[i] else 0;
    }
    NatZero(acc[..n + 1]);
    assert mm[..n + 1] == m[..n] + [0];
    NatAppend(m[..n], 0);
    NatBound(m[..n]);
  }

  /** `r = x mod m` by binary long division: the accumulator is at every bit the remainder
      of the dividend's leading bits, and the shift never loses a bit off the top. */
  method Mod(r: array<u32>, x: array<u32>, xlen: nat, m: array<u32>, n: nat)
    requires xlen <= x.Length && n <= m.Length && n <= r.Length
    requires n <= MAX_LIMBS && Nat(m[..n]) > 0
    modifies r
    ensures Nat(r[..n]) == Nat(old(x[..xlen])) % Nat(old(m[..n]))
    ensures forall k :: n <= k < r.Length ==> r[k] == old(r[k])
  {
    var acc := new u32[MAX_LIMBS + 1];
    var mm := new u32[MAX_LIMBS + 1];
    Widen(acc, mm, m, n);
    ghost var xs, ms := x[..xlen], mm[..n + 1];
    var i := BitLen(x, xlen);
    NothingLeads(Nat(xs), i, Nat(ms));
    while i > 0
      modifies acc
      invariant 0 <= i
      invariant x[..xlen] == xs && mm[..n + 1] == ms
      invariant Nat(acc[..n + 1]) == LeadingRemainder(Nat(xs), i, Nat(ms))
    {
      i := i - 1;
      DivisionStep(Nat(xs), i, Nat(ms), Nat(acc[..n + 1]));
      var bit := Bit(x, xlen, i);
      DivideOneBit(acc, mm, n, bit);
    }
    RemainderFits(acc[..n + 1], n, Nat(ms));
    assert acc[..n + 1][..n] == acc[..n];
    CopyOut(r, acc, n);
  }

  lemma RemainderFits(s: seq<u32>, n: nat, d: nat)
    requires |s| == n + 1 && Nat(s) < d <= Base(n)
    ensures Nat(s) == Nat(s[..n])
  {
    NatSnoc(s, n);
    assert s[..n + 1] == s;
    if s[n] > 0 { MulMono(1, s[n], Base(n)); }
  }

  /** One iteration of the division loop. */
  method DivideOneBit(acc: array<u32>, mm: array<u32>, n: nat, bit: u32)
    requires n < acc.Length && n < mm.Length && acc != mm && bit <= 1
    requires Nat(acc[..n + 1]) < Nat(mm[..n + 1]) < Base(n)
    modifies acc
    ensures var t := 2 * Nat(old(acc[..n + 1])) + bit;
      Nat(acc[..n + 1]) == if t >= Nat(mm[..n + 1]) then t - Nat(mm[..n + 1]) else t
  {
    ghost var d := Nat(mm[..n + 1]);
    var out := ShiftLeft(acc, n + 1);
    assert out == 0;
    ghost var s := acc[..n + 1];
    OrLowBit(acc[0], bit);
    acc[0] := Or(acc[0], bit);
    NatLowLimb(s, acc[..n + 1], bit, n + 1);
    var c := Cmp(acc, mm, n + 1);
    if c >= 0 {
      var borrow := Sub(acc, acc, mm, n + 1);
      NatBound(acc[..n + 1]);
    }
  }

  method CopyOut(r: array<u32>, a: array<u32>, n: nat)
    requires n <= r.Length && n <= a.Length
    modifies r
    ensures r[..n] == old(a[..n])
    ensures forall k :: n <= k < r.Length ==> r[k] == old(r[k])
  {
    for i := 0 to n
      invariant forall k :: 0 <= k < i ==> r[k] == old(a[k])
      invariant forall k :: i <= k < r.Length ==> r[k] == old(r[k])
      invariant forall k :: i <= k < n ==> a[k] == old(a[k])
    {
      r[i] := a[i];
    }
  }

  lemma MulModLeft(a: nat, b: nat, m: nat)
    requires m > 0
    ensures (a % m) * b % m == a * b % m
  {
    var q, r := a / m, a % m;
    var x := r * b;
    assert a * b == m * (q * b + x / m) + x % m by {
      assert a * b == (m * q + r) * b;
      assert (m * q + r) * b == m * (q * b) + x;
      assert x == m * (x / m) + x % m;
      assert m * (q * b + x / m) == m * (q * b) + m * (x / m);
    }
    DivModUnique(a * b, m, q * b + x / m, x % m);
  }

  lemma MulModBoth(a: nat, b: nat, m: nat)
    requires m > 0
    ensures (a % m) * (b % m) % m == a * b % m
  {
    MulModLeft(a, b % m, m);
    MulModLeft(b, a, m);
  }

  /** `r = a * b mod m`. */
  method MulMod(r: array<u32>, a: array<u32>, b: array<u32>, m: array<u32>, n: nat)
    requires n <= a.Length && n <= b.Length && n <= m.Length && n <= r.Length
    requires n <= MAX_LIMBS && Nat(m[..n]) > 0
    modifies r
    ensures Nat(r[..n]) == Nat(old(a[..n])) * Nat(old(b[..n])) % Nat(old(m[..n]))
    ensures forall k :: n <= k < r.Length ==> r[k] == old(r[k])
  {
    var prod := new u32[2 * MAX_LIMBS];
    Mul(prod, a, b, n);
    Mod(r, prod, 2 * n, m, n);
  }

  lemma {:induction false} PowAdd(b: nat, x: nat, y: nat)
    ensures Pow(b, x + y) == Pow(b, x) * Pow(b, y)
  {
    if x > 0 {
      PowAdd(b, x - 1, y);
      MulAssoc(b, Pow(b, x - 1), Pow(b, y));
    }
  }

  lemma {:induction false} PowMod(b: nat, e: nat, m: nat)
    requires m > 0
    ensures Pow(b % m, e) % m == Pow(b, e) % m
  {
    if e > 0 {
      var c := b % m;
      calc {
        Pow(c, e) % m;
        c * Pow(c, e - 1) % m;
        { MulModBoth(c, Pow(c, e - 1), m); }
        (c % m) * (Pow(c, e - 1) % m) % m;
        { PowMod(b, e - 1, m); SmallMod(c, m); }
        (b % m) * (Pow(b, e - 1) % m) % m;
        { MulModBoth(b, Pow(b, e - 1), m); }
        Pow(b, e) % m;
      }
    }
  }

  lemma SmallMod(c: nat, m: nat)
    requires c < m
    ensures c % m == c
  {
    DivModUnique(c, m, 0, c);
  }

  /** The power of `b` by the bits of `x` from bit `i` up, mod `m`. */
  ghost function LeadingPower(b: nat, x: nat, i: nat, m: nat): (r: nat)
    requires m > 0
  {
    Pow(b, Shr(x, i)) % m
  }

  /** Square and multiply: one more exponent bit. */
  lemma PowerStep(b: nat, x: nat, i: nat, m: nat, acc: nat)
    requires m > 0 && acc % m == LeadingPower(b, x, i + 1, m)
    ensures LeadingPower(b, x, i, m)
      == if Shr(x, i) % 2 == 0 then acc * acc % m else (acc * acc % m) * (b % m) % m
  {
    var h := Shr(x, i + 1);
    ShrStep(x, i);
    PowerSquared(b, h, m, acc);
    if Shr(x, i) % 2 == 1 { PowerTimes(b, 2 * h, m); }
  }

  lemma PowerSquared(b: nat, h: nat, m: nat, acc: nat)
    requires m > 0 && acc % m == Pow(b, h) % m
    ensures Pow(b, 2 * h) % m == acc * acc % m
  {
    PowAdd(b, h, h);
    SquareMod(acc, Pow(b, h), m);
  }

  lemma PowerTimes(b: nat, k: nat, m: nat)
    requires m > 0
    ensures Pow(b, k + 1) % m == (Pow(b, k) % m) * (b % m) % m
  {
    MulModBoth(Pow(b, k), b, m);
    assert Pow(b, k + 1) == Pow(b, k) * b;
  }

  lemma SquareMod(x: nat, y: nat, m: nat)
    requires m > 0 && x % m == y % m
    ensures x * x % m == y * y % m
  {
    MulModBoth(x, x, m);
    MulModBoth(y, y, m);
  }

  /** What the exponentiation loop has computed when the exponent bits from `i` up are read, of the
      `ebits` low ones. */
  ghost predicate PowerSoFar(acc: nat, g: nat, e: nat, i: nat, ebits: nat, m: nat)
  {
    && m > 0
    && (i >= ebits ==> acc == 1)
    && (i < ebits ==> acc < m)
    && acc % m == LeadingPower(g, e % Pow2(ebits), i, m)
  }

  lemma PowerLoopStep(acc: nat, acc': nat, g: nat, e: nat, i: nat, ebits: nat, m: nat)
    requires i < ebits && PowerSoFar(acc, g, e, i + 1, ebits, m)
    requires acc' == if Shr(e, i) % 2 == 0 then acc * acc % m else (acc * acc % m) * (g % m) % m
    ensures PowerSoFar(acc', g, e, i, ebits, m)
  {
    SmallMod(acc', m);
    LowBits(e, i, ebits);
    PowerStep(g, e % Pow2(ebits), i, m, acc);
  }

  /** `acc = 1`, `b = base`. */
  method StartPower(acc: array<u32>, b: array<u32>, base: array<u32>, n: nat)
    requires 0 < n <= acc.Length && n <= b.Length && n <= base.Length
    requires acc != b && acc != base && b != base
    modifies acc, b
    ensures Nat(acc[..n]) == 1 && b[..n] == base[..n]
  {
    for i := 0 to n
      invariant forall k :: 0 <= k < i ==> acc[k] == 0 && b[k] == base[k]
    {
      acc[i] := 0;
      b[i] := base[i];
    }
    NatZero(acc[..n]);
    ghost var zeros := acc[..n];
    acc[0] := 1;
    NatLowLimb(zeros, acc[..n], 1, n);
  }

  /** One iteration of the exponentiation loop. */
  method SquareAndMultiply(acc: array<u32>, b: array<u32>, bit: u32, m: array<u32>, n: nat)
    requires n <= acc.Length && n <= b.Length && n <= m.Length
    requires n <= MAX_LIMBS && Nat(m[..n]) > 0 && acc != b && acc != m
    modifies acc
    ensures var sq := Nat(old(acc[..n])) * Nat(old(acc[..n])) % Nat(m[..n]);
      Nat(acc[..n]) == if bit == 0 then sq else sq * Nat(b[..n]) % Nat(m[..n])
  {
    ghost var ms, bs := m[..n], b[..n];
    MulMod(acc, acc, acc, m, n);
    assert m[..n] == ms && b[..n] == bs;
    if bit != 0 {
      MulMod(acc, acc, b, m, n);
      assert m[..n] == ms && b[..n] == bs;
    }
  }

  /** `r = base^exp mod m`, the exponent read as its `ebits` low bits.  With no exponent bits the
      result is 1, which is not reduced. */
  method ModExp(r: array<u32>, base: array<u32>, exp: array<u32>, ebits: nat, m: array<u32>, n: nat)
    requires n <= base.Length && n <= m.Length && n <= r.Length
    requires 0 < n <= MAX_LIMBS && Nat(m[..n]) > 0 && (ebits + 31) / 32 <= exp.Length
    modifies r
    ensures PowerSoFar(Nat(r[..n]), Nat(old(base[..n])), Nat(old(exp[..(ebits + 31) / 32])), 0, ebits, Nat(old(m[..n])))
    ensures forall k :: n <= k < r.Length ==> r[k] == old(r[k])
  {
    var acc := new u32[MAX_LIMBS];
    var b := new u32[MAX_LIMBS];
    var explimbs := (ebits + 31) / 32;
    ghost var es, ms, gs := exp[..explimbs], m[..n], base[..n];
    StartPower(acc, b, base, n);
    assert m[..n] == ms;
    Mod(b, b, n, m, n);
    ghost var bs := b[..n];
    var i := ebits;
    ShrBelow(Nat(es) % Pow2(ebits), ebits);
    while i > 0
      modifies acc
      invariant 0 <= i <= ebits
      invariant b[..n] == bs && m[..n] == ms && exp[..explimbs] == es
      invariant PowerSoFar(Nat(acc[..n]), Nat(gs), Nat(es), i, ebits, Nat(ms))
    {
      i := i - 1;
      ghost var a := Nat(acc[..n]);
      var bit := Bit(exp, explimbs, i);
      SquareAndMultiply(acc, b, bit, m, n);
      PowerLoopStep(a, Nat(acc[..n]), Nat(gs), Nat(es), i, ebits, Nat(ms));
    }
    CopyOut(r, acc, n);
  }

  /** So the result is the power mod `m`, by the exponent's low bits, unless there are none and
      the modulus is 1. */
  lemma ModExpIsPower(acc: nat, g: nat, e: nat, ebits: nat, m: nat)
    requires PowerSoFar(acc, g, e, 0, ebits, m)
    ensures acc == Pow(g, e % Pow2(ebits)) % m <==> ebits > 0 || m > 1
  {
    if ebits > 0 || m > 1 { SmallMod(acc, m); }
  }
}
