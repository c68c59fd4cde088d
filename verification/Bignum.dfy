/** The generic big-integer core of sdk/tools/zz9k-crypto-soft.c: little-endian 32-bit
    limb arrays, updated in place, with every operation proved exact. */
module Bignum {
  import opened Words

  /** The weight of limb `n`. */
  function Base(n: nat): (r: nat)
    ensures r > 0
  {
    if n == 0 then 1 else 0x1_0000_0000 * Base(n - 1)
  }

  /** The number a little-endian limb sequence stands for. */
  function Nat(s: seq<u32>): (r: nat)
  {
    NatTo(s, |s|)
  }

  /** The value of the low `n` limbs. */
  function NatTo(s: seq<u32>, n: nat): (r: nat)
    requires n <= |s|
  {
    if n == 0 then 0 else NatTo(s, n - 1) + s[n - 1] * Base(n - 1)
  }

  lemma {:induction false} NatPrefix(s: seq<u32>, t: seq<u32>, n: nat)
    requires n <= |s| && n <= |t|
    requires forall k :: 0 <= k < n ==> s[k] == t[k]
    ensures NatTo(s, n) == NatTo(t, n)
  {
    if n > 0 { NatPrefix(s, t, n - 1); }
  }

  lemma NatSnoc(s: seq<u32>, i: nat)
    requires i < |s|
    ensures Nat(s[..i + 1]) == Nat(s[..i]) + s[i] * Base(i)
  {
    NatPrefix(s[..i + 1], s[..i], i);
  }

  lemma {:induction false} NatBound(s: seq<u32>)
    ensures Nat(s) < Base(|s|)
  {
    if s != [] {
      var b := Base(|s| - 1);
      NatSnoc(s, |s| - 1);
      assert s[..|s|] == s;
      NatBound(s[..|s| - 1]);
      assert s[|s| - 1] * b <= 0xFFFF_FFFF * b by { MulMono(s[|s| - 1], 0xFFFF_FFFF, b); }
    }
  }

  lemma MulMono(x: int, y: int, b: int)
    requires x <= y && b >= 0
    ensures x * b <= y * b
  {
  }

  /** Equal values of equal length are equal limb by limb. */
  lemma {:induction false} NatInjective(s: seq<u32>, t: seq<u32>)
    requires |s| == |t| && Nat(s) == Nat(t)
    ensures s == t
  {
    if s != [] {
      var k := |s| - 1;
      NatSnoc(s, k);
      NatSnoc(t, k);
      assert s[..|s|] == s && t[..|s|] == t;
      NatBound(s[..k]);
      NatBound(t[..k]);
      TopLimb(Nat(s[..k]), s[k], Nat(t[..k]), t[k], Base(k));
      NatInjective(s[..k], t[..k]);
      assert s == s[..k] + [s[k]] && t == t[..k] + [t[k]];
    }
  }

  lemma TopLimb(lo: nat, hi: nat, lo': nat, hi': nat, b: nat)
    requires lo < b && lo' < b
    ensures hi < hi' ==> lo + hi * b < lo' + hi' * b
    ensures lo + hi * b == lo' + hi' * b ==> lo == lo' && hi == hi'
  {
    if hi < hi' { MulMono(hi + 1, hi', b); Distr(hi, 1, b); }
    if hi' < hi { MulMono(hi' + 1, hi, b); Distr(hi', 1, b); }
  }

  /** Lexicographic order from the top limb is numeric order. */
  method Cmp(a: array<u32>, b: array<u32>, len: nat) returns (c: int)
    requires len <= a.Length && len <= b.Length
    ensures c == -1 || c == 0 || c == 1
    ensures c < 0 <==> Nat(a[..len]) < Nat(b[..len])
    ensures c == 0 <==> Nat(a[..len]) == Nat(b[..len])
  {
    var i := len;
    while i > 0
      invariant 0 <= i <= len
      invariant Nat(a[..i]) < Nat(b[..i]) <==> Nat(a[..len]) < Nat(b[..len])
      invariant Nat(a[..i]) == Nat(b[..i]) <==> Nat(a[..len]) == Nat(b[..len])
    {
      i := i - 1;
      NatSnoc(a[..], i);
      NatSnoc(b[..], i);
      assert a[..][..i] == a[..i] && b[..][..i] == b[..i];
      assert a[..][..i + 1] == a[..i + 1] && b[..][..i + 1] == b[..i + 1];
      NatBound(a[..i]);
      NatBound(b[..i]);
      TopLimb(Nat(a[..i]), a[i], Nat(b[..i]), b[i], Base(i));
      TopLimb(Nat(b[..i]), b[i], Nat(a[..i]), a[i], Base(i));
      if a[i] < b[i] { return -1; }
      if a[i] > b[i] { return 1; }
    }
    c := 0;
  }

  lemma CarryStep(lo: int, x: int, carry: int, carry': int, w: int, b: int)
    requires w + carry' * 0x1_0000_0000 == x + carry
    ensures lo + w * b + carry' * (0x1_0000_0000 * b) == lo + carry * b + x * b
  {
    assert (w + carry' * 0x1_0000_0000) * b == w * b + carry' * (0x1_0000_0000 * b);
    assert (x + carry) * b == x * b + carry * b;
  }

  lemma NatAppend(s: seq<u32>, w: u32)
    ensures Nat(s + [w]) == Nat(s) + w * Base(|s|)
  {
    NatPrefix(s + [w], s, |s|);
  }

  /** What a carry or borrow bit at limb `i` is worth. */
  function Carried(bit: u32, i: nat): (r: nat)
  {
    if bit == 0 then 0 else Base(i)
  }

  lemma LimbArith(x: int, y: int, c: int, w: int, c': int, b: int)
    requires w + c' * 0x1_0000_0000 == x + y + c
    requires 0 <= c <= 1 && 0 <= c' <= 1
    ensures w * b + (if c' == 0 then 0 else 0x1_0000_0000 * b) == x * b + y * b + (if c == 0 then 0 else b)
  {
    var t := if c' == 0 then 0 else 0x1_0000_0000;
    assert w * b == (x + y + c - t) * b;
    assert (x + y + c - t) * b == x * b + y * b + c * b - t * b;
  }

  /** One limb of an addition: `w` is the limb written and `carry'` the carry passed on. */
  lemma AddLimb(z: seq<u32>, x: seq<u32>, y: seq<u32>, i: nat, carry: u32, w: u32, carry': u32)
    requires |z| == i < |x| && i < |y| && carry <= 1 && carry' <= 1
    requires Nat(z) + Carried(carry, i) == Nat(x[..i]) + Nat(y[..i])
    requires w + carry' * 0x1_0000_0000 == x[i] + y[i] + carry
    ensures Nat(z + [w]) + Carried(carry', i + 1) == Nat(x[..i + 1]) + Nat(y[..i + 1])
  {
    NatSnoc(x, i);
    NatSnoc(y, i);
    NatAppend(z, w);
    LimbArith(x[i], y[i], carry, w, carry', Base(i));
  }

  /** One limb of a subtraction, with the borrow in place of the carry. */
  lemma SubLimb(z: seq<u32>, x: seq<u32>, y: seq<u32>, i: nat, borrow: u32, w: u32, borrow': u32)
    requires |z| == i < |x| && i < |y| && borrow <= 1 && borrow' <= 1
    requires Nat(z) - Carried(borrow, i) == Nat(x[..i]) - Nat(y[..i])
    requires w - borrow' * 0x1_0000_0000 == x[i] - y[i] - borrow
    ensures Nat(z + [w]) - Carried(borrow', i + 1) == Nat(x[..i + 1]) - Nat(y[..i + 1])
  {
    NatSnoc(x, i);
    NatSnoc(y, i);
    NatAppend(z, w);
    LimbArith(w, y[i], borrow, x[i], borrow', Base(i));
  }

  /** `r = a + b`; the carry out is the part that does not fit in `len` limbs. */
  method Add(r: array<u32>, a: array<u32>, b: array<u32>, len: nat) returns (carry: u32)
    requires len <= r.Length && len <= a.Length && len <= b.Length
    modifies r
    ensures carry <= 1
    ensures Nat(r[..len]) + Carried(carry, len) == Nat(old(a[..len])) + Nat(old(b[..len]))
    ensures forall k :: len <= k < r.Length ==> r[k] == old(r[k])
  {
    carry := 0;
    ghost var x, y, z := a[..len], b[..len], [];
    for i := 0 to len
      invariant carry <= 1 && |z| == i
      invariant forall k :: i <= k < len ==> a[k] == x[k] && b[k] == y[k]
      invariant forall k :: len <= k < r.Length ==> r[k] == old(r[k])
      invariant forall k :: 0 <= k < i ==> r[k] == z[k]
      invariant Nat(z) + Carried(carry, i) == Nat(x[..i]) + Nat(y[..i])
    {
      var sum: u64 := a[i] + b[i] + carry;
      AddLimb(z, x, y, i, carry, Trunc32(sum), sum / 0x1_0000_0000);
      r[i] := Trunc32(sum);
      carry := sum / 0x1_0000_0000;
      z := z + [r[i]];
    }
    assert x[..len] == x && y[..len] == y && r[..len] == z;
  }

  /** Bit 32 of a difference wrapped to 64 bits is its sign. */
  lemma WrappedBorrow(d: int)
    requires -0x1_0000_0000 <= d < 0x1_0000_0000
    ensures var w := d % 0x1_0000_0000_0000_0000; var s := w / 0x1_0000_0000 % 2;
      0 <= s <= 1 && w % 0x1_0000_0000 - s * 0x1_0000_0000 == d
  {
  }

  /** `r = a - b`; the borrow out says whether the true difference is negative. */
  method Sub(r: array<u32>, a: array<u32>, b: array<u32>, len: nat) returns (borrow: u32)
    requires len <= r.Length && len <= a.Length && len <= b.Length
    modifies r
    ensures borrow <= 1
    ensures Nat(r[..len]) - Carried(borrow, len) == Nat(old(a[..len])) - Nat(old(b[..len]))
    ensures forall k :: len <= k < r.Length ==> r[k] == old(r[k])
  {
    borrow := 0;
    ghost var x, y, z := a[..len], b[..len], [];
    for i := 0 to len
      invariant borrow <= 1 && |z| == i
      invariant forall k :: i <= k < len ==> a[k] == x[k] && b[k] == y[k]
      invariant forall k :: len <= k < r.Length ==> r[k] == old(r[k])
      invariant forall k :: 0 <= k < i ==> r[k] == z[k]
      invariant Nat(z) - Carried(borrow, i) == Nat(x[..i]) - Nat(y[..i])
    {
      // the subtraction wraps in 64 bits and the borrow is bit 32 of the result
      var diff: u64 := (a[i] as int - b[i] as int - borrow as int) % 0x1_0000_0000_0000_0000;
      var borrow': u32 := diff / 0x1_0000_0000 % 2;
      WrappedBorrow(a[i] as int - b[i] as int - borrow as int);
      SubLimb(z, x, y, i, borrow, Trunc32(diff), borrow');
      r[i] := Trunc32(diff);
      borrow := borrow';
      z := z + [r[i]];
    }
    assert x[..len] == x && y[..len] == y && r[..len] == z;
  }

  lemma {:induction false} NatConcat(s: seq<u32>, t: seq<u32>)
    ensures Nat(s + t) == Nat(s) + Nat(t) * Base(|s|)
  {
    if t == [] {
      assert s + t == s;
    } else {
      var k := |t| - 1;
      var u, top := t[..k], t[k];
      NatConcat(s, u);
      assert s + t == (s + u) + [top] && t == u + [top];
      NatAppend(s + u, top);
      NatAppend(u, top);
      BaseAdd(k, |s|);
      ConcatTerm(Nat(u), top, Base(k), Base(|s|));
    }
  }

  lemma ConcatTerm(lo: int, d: int, b: int, c: int)
    ensures (lo + d * b) * c == lo * c + d * (b * c)
  {
  }

  lemma {:induction false} BaseAdd(m: nat, n: nat)
    ensures Base(m + n) == Base(m) * Base(n)
  {
    if m > 0 {
      BaseAdd(m - 1, n);
      assert Base(m + n) == 0x1_0000_0000 * (Base(m - 1) * Base(n));
    }
  }

  lemma {:induction false} BaseIsPow2(n: nat)
    ensures Base(n) == Pow2(32 * n)
  {
    if n > 0 {
      BaseIsPow2(n - 1);
      Pow2Add(32, 32 * (n - 1));
      WordRange();
    }
  }

  /** One row of the schoolbook product, `z` being the prefix of the result written so far;
      `f` is the row's limb times the weight of its position and `p` the limb product. */
  lemma MulLimb(z: seq<u32>, row: seq<u32>, bs: seq<u32>, ai: u32, i: nat, j: nat, f: int, p: int,
                carry: int, w: u32, carry': int)
    requires |z| == i + j < |row| && j < |bs| && f == ai * Base(i) && p == Product(ai, bs[j])
    requires Nat(z) + carry * Base(i + j) == Nat(row[..i + j]) + f * Nat(bs[..j])
    requires w + carry' * 0x1_0000_0000 == carry + p + row[i + j]
    ensures Nat(z + [w]) + carry' * Base(i + j + 1) == Nat(row[..i + j + 1]) + f * Nat(bs[..j + 1])
  {
    var b := Base(i + j);
    NatAppend(z, w);
    NatSnoc(row, i + j);
    NatSnoc(bs, j);
    BaseAdd(i, j);
    CarryStep(Nat(z), p + row[i + j] as int, carry, carry', w, b);
    Distr(p, row[i + j], b);
    RowTerm(ai, Base(i), Nat(bs[..j]), bs[j], Base(j));
    assert p == ai * bs[j];
  }

  lemma RowTerm(a: int, b: int, lo: int, d: int, c: int)
    ensures a * b * (lo + d * c) == a * b * lo + a * d * (b * c)
  {
  }

  /** `r = a * b`, `2 * len` limbs. */
  method Mul(r: array<u32>, a: array<u32>, b: array<u32>, len: nat)
    requires 2 * len <= r.Length && len <= a.Length && len <= b.Length
    requires r != a && r != b
    modifies r
    ensures Nat(r[..2 * len]) == Nat(a[..len]) * Nat(b[..len])
  {
    for i := 0 to 2 * len
      invariant forall k :: 0 <= k < i ==> r[k] == 0
    {
      r[i] := 0;
    }
    ghost var z := r[..len];
    NatZero(z);
    ghost var x, y := a[..len], b[..len];
    for i := 0 to len
      invariant |z| == i + len && r[..i + len] == z
      invariant Nat(z) == Nat(x[..i]) * Nat(y)
    {
      var carry := MulRow(r, a[i], b, i, len, a[i] * Base(i));
      z := r[..i + len];
      r[i + len] := carry;
      NatAppend(z, carry);
      assert r[..i + len + 1] == z + [carry];
      z := z + [carry];
      NatSnoc(x, i);
      Distr(Nat(x[..i]), x[i] * Base(i), Nat(y));
    }
    assert x[..len] == x;
  }

  lemma {:induction false} NatZero(s: seq<u32>)
    requires forall k :: 0 <= k < |s| ==> s[k] == 0
    ensures Nat(s) == 0
  {
    if s != [] {
      NatZero(s[..|s| - 1]);
      NatPrefix(s, s[..|s| - 1], |s| - 1);
    }
  }

  /** The 32 by 32 to 64 bit product. */
  function Product(a: u32, b: u32): (p: u64)
    ensures p <= 0xFFFF_FFFE_0000_0001
  {
    MulLe(a, 0xFFFF_FFFF, b, 0xFFFF_FFFF);
    a as int * b as int
  }

  /** The inner loop of `Mul`: adds `ai * b` at limb `i`; `f` is the weighted limb. */
  method MulRow(r: array<u32>, ai: u32, b: array<u32>, i: nat, len: nat, ghost f: nat) returns (carry: u64)
    requires i + len <= r.Length && len <= b.Length && r != b
    requires f == ai * Base(i)
    modifies r
    ensures carry < 0x1_0000_0000
    ensures Nat(r[..i + len]) + carry * Base(i + len) == Nat(old(r[..i + len])) + f * Nat(b[..len])
  {
    carry := 0;
    ghost var row, y, z := r[..], b[..len], r[..i];
    assert row[..i] == z;
    for j := 0 to len
      invariant |z| == i + j && carry < 0x1_0000_0000
      invariant forall k :: i + j <= k < r.Length ==> r[k] == row[k]
      invariant forall k :: 0 <= k < i + j ==> r[k] == z[k]
      invariant Nat(z) + carry * Base(i + j) == Nat(row[..i + j]) + f * Nat(y[..j])
    {
      var p := Product(ai, b[j]);
      var sum: u64 := carry + p + r[i + j];
      MulLimb(z, row, y, ai, i, j, f, p, carry, Trunc32(sum), sum / 0x1_0000_0000);
      r[i + j] := Trunc32(sum);
      carry := sum / 0x1_0000_0000;
      z := z + [r[i + j]];
    }
    assert r[..i + len] == z && y[..len] == y && row[..i + len] == old(r[..i + len]);
  }
}
