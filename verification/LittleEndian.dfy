/** Little-endian byte strings as numbers. */
module LittleEndian {
  import opened Words

  /** The number a little-endian byte string stands for. */
  function LeNat(s: seq<u8>): (r: nat)
  {
    LeTo(s, |s|)
  }

  function LeTo(s: seq<u8>, n: nat): (r: nat)
    requires n <= |s|
  {
    if n == 0 then 0 else LeTo(s, n - 1) + s[n - 1] * Pow2(8 * (n - 1))
  }

  /** Word `i` of a byte string. */
  function WordAt(s: seq<u8>, i: nat): (w: u32)
    requires 4 * i + 4 <= |s|
  {
    Load32(s[4 * i], s[4 * i + 1], s[4 * i + 2], s[4 * i + 3])
  }

  function Words4(t0: int, t1: int, t2: int, t3: int): int
  {
    t0 + 0x1_0000_0000 * t1 + 0x1_0000_0000_0000_0000 * t2 + 0x1_0000_0000_0000_0000_0000_0000 * t3
  }

  lemma LeStep(s: seq<u8>, i: nat, p: nat)
    requires 4 * i + 4 <= |s| && p == Pow2(32 * i)
    ensures LeTo(s, 4 * i + 4) == LeTo(s, 4 * i) + p * WordAt(s, i)
  {
    Pow2Add(8, 32 * i);
    Pow2Add(16, 32 * i);
    Pow2Add(24, 32 * i);
    Pow2Values();
    assert LeTo(s, 4 * i + 1) == LeTo(s, 4 * i) + s[4 * i] * p;
    assert LeTo(s, 4 * i + 2) == LeTo(s, 4 * i + 1) + s[4 * i + 1] * (0x100 * p);
    assert LeTo(s, 4 * i + 3) == LeTo(s, 4 * i + 2) + s[4 * i + 2] * (0x1_0000 * p);
    assert LeTo(s, 4 * i + 4) == LeTo(s, 4 * i + 3) + s[4 * i + 3] * (0x100_0000 * p);
    FourTerms(p, s[4 * i], s[4 * i + 1], s[4 * i + 2], s[4 * i + 3]);
  }

  lemma FourTerms(p: int, a: int, b: int, c: int, d: int)
    ensures p * (a + 0x100 * b + 0x1_0000 * c + 0x100_0000 * d)
      == a * p + b * (0x100 * p) + c * (0x1_0000 * p) + d * (0x100_0000 * p)
  {
  }

  /** The number that the first `n` words stand for. */
  function WordsTo(s: seq<u8>, n: nat): (r: int)
    requires 4 * n <= |s|
  {
    if n == 0 then 0 else WordsTo(s, n - 1) + Pow2(32 * (n - 1)) * WordAt(s, n - 1)
  }

  lemma {:induction false} LeByWords(s: seq<u8>, n: nat)
    requires 4 * n <= |s|
    ensures LeTo(s, 4 * n) == WordsTo(s, n)
  {
    if n > 0 {
      LeByWords(s, n - 1);
      LeStep(s, n - 1, Pow2(32 * (n - 1)));
    }
  }

  lemma FourWords(s: seq<u8>)
    requires |s| == 16
    ensures WordsTo(s, 4) == Words4(WordAt(s, 0), WordAt(s, 1), WordAt(s, 2), WordAt(s, 3))
  {
    WordWeights();
    WordsStep(s, 0, 1);
    WordsStep(s, 1, 0x1_0000_0000);
    WordsStep(s, 2, 0x1_0000_0000_0000_0000);
    WordsStep(s, 3, 0x1_0000_0000_0000_0000_0000_0000);
  }

  lemma WordsStep(s: seq<u8>, n: nat, p: nat)
    requires 4 * n + 4 <= |s| && p == Pow2(32 * n)
    ensures WordsTo(s, n + 1) == WordsTo(s, n) + p * WordAt(s, n)
  {
  }

  /** Sixteen bytes as four words. */
  lemma LeOfBlock(s: seq<u8>)
    requires |s| == 16
    ensures LeNat(s) == Words4(WordAt(s, 0), WordAt(s, 1), WordAt(s, 2), WordAt(s, 3))
  {
    LeByWords(s, 4);
    FourWords(s);
  }

  lemma WordWeights()
    ensures Pow2(0) == 1 && Pow2(32) == 0x1_0000_0000 && Pow2(64) == 0x1_0000_0000_0000_0000
    ensures Pow2(96) == 0x1_0000_0000_0000_0000_0000_0000
    ensures Pow2(128) == 0x1_0000_0000_0000_0000_0000_0000_0000_0000
  {
    Pow2Values();
    Pow2Add(32, 32);
    Pow2Add(32, 64);
    Pow2Add(32, 96);
  }

  lemma {:induction false} LePrefix(s: seq<u8>, t: seq<u8>, n: nat)
    requires n <= |s| && n <= |t| && forall k :: 0 <= k < n ==> s[k] == t[k]
    ensures LeTo(s, n) == LeTo(t, n)
  {
    if n > 0 { LePrefix(s, t, n - 1); }
  }

  lemma {:induction false} LeZeros(s: seq<u8>, m: nat, n: nat)
    requires m <= n <= |s| && forall k :: m <= k < n ==> s[k] == 0
    ensures LeTo(s, n) == LeTo(s, m)
  {
    if m < n { LeZeros(s, m, n - 1); }
  }

  lemma {:induction false} LeBound(s: seq<u8>, n: nat)
    requires n <= |s|
    ensures LeTo(s, n) < Pow2(8 * n)
  {
    if n > 0 {
      LeBound(s, n - 1);
      Pow2Add(8, 8 * (n - 1));
      Pow2Values();
      var p := Pow2(8 * (n - 1));
      MulLe(s[n - 1], 0xFF, p, p);
    }
  }

  /** Splitting a byte string splits the number. */
  lemma {:induction false} LeSplit(s: seq<u8>, w: nat, n: nat)
    requires w <= n <= |s|
    ensures LeTo(s, n) == LeTo(s, w) + Pow2(8 * w) * LeTo(s[w..], n - w)
  {
    if n > w {
      LeSplit(s, w, n - 1);
      Pow2Add(8 * w, 8 * (n - 1 - w));
      var p, q, t, b := Pow2(8 * w), Pow2(8 * (n - 1 - w)), LeTo(s[w..], n - 1 - w), s[n - 1] as int;
      assert LeTo(s[w..], n - w) == t + b * q;
      Regroup(p, t, b, q);
    }
  }

  lemma Regroup(p: int, t: int, b: int, q: int)
    ensures p * (t + b * q) == p * t + b * (p * q)
  {
    assert p * (b * q) == b * (p * q);
  }

  /** Byte strings of one length that stand for the same number are the same string. */
  lemma {:induction false} LeInjective(s: seq<u8>, t: seq<u8>)
    requires |s| == |t| && LeNat(s) == LeNat(t)
    ensures s == t
  {
    if s != [] {
      var k := |s| - 1;
      var p := Pow2(8 * k);
      LeBound(s, k);
      LeBound(t, k);
      DivModUnique(LeNat(s), p, s[k], LeTo(s, k));
      DivModUnique(LeNat(t), p, t[k], LeTo(t, k));
      LePrefix(s, s[..k], k);
      LePrefix(t, t[..k], k);
      LeInjective(s[..k], t[..k]);
      assert s == s[..k] + [s[k]] && t == t[..k] + [t[k]];
    }
  }

  /** The `k` bytes of a number, from the low end. */
  function LeBytes(n: nat, k: nat): (s: seq<u8>)
    ensures |s| == k
  {
    if k == 0 then [] else [n % 0x100] + LeBytes(n / 0x100, k - 1)
  }

  lemma {:induction false} LeOfBytes(n: nat, k: nat)
    requires n < Pow2(8 * k)
    ensures LeNat(LeBytes(n, k)) == n
  {
    if k > 0 {
      var s, rest := LeBytes(n, k), LeBytes(n / 0x100, k - 1);
      NextByteWeight(8 * (k - 1));
      LeOfBytes(n / 0x100, k - 1);
      LeSplit(s, 1, k);
      assert s[1..] == rest;
      assert Pow2(8 * 1) == 0x100;
      assert LeTo(s, 1) == n % 0x100;
    }
  }

  lemma SplitAtByte(s: seq<u8>, w: nat)
    requires w < |s|
    ensures LeNat(s) == LeTo(s, w) + (s[w] + 0x100 * LeTo(s[w + 1..], |s| - w - 1)) * Pow2(8 * w)
  {
    LeSplit(s, w + 1, |s|);
    NextByteWeight(8 * w);
    ByteAbove(LeTo(s, w), Pow2(8 * w), s[w], LeTo(s[w + 1..], |s| - w - 1));
  }

  lemma ByteAbove(lo: int, p: int, b: int, hi: int)
    ensures lo + b * p + 0x100 * p * hi == lo + (b + 0x100 * hi) * p
  {
  }

  /** Bit `i` of the number is bit `i mod 8` of byte `i / 8`. */
  lemma BitOfByte(s: seq<u8>, i: nat)
    requires i / 8 < |s|
    ensures LeNat(s) / Pow2(i) % 2 == s[i / 8] / Pow2(i % 8) % 2
  {
    var w, t := i / 8, i % 8;
    SplitAtByte(s, w);
    LeBound(s, w);
    Pow2Add(8 * w, t);
    Pow2Add(t, 7 - t);
    assert Pow2(7) == 0x80;
    BitAbove(LeTo(s, w), s[w], LeTo(s[w + 1..], |s| - w - 1), Pow2(8 * w), Pow2(t), Pow2(7 - t));
  }

  lemma BitAbove(lo: nat, b: nat, hi: nat, p: nat, t: nat, c: nat)
    requires lo < p && t * c == 0x80 && t > 0
    ensures p * t > 0 && (lo + (b + 0x100 * hi) * p) / (p * t) % 2 == b / t % 2
  {
    var y := b + 0x100 * hi;
    DivDiv(lo + y * p, p, t);
    QuotientOf(lo, y, p);
    HalfProduct(t, c, hi);
    EvenShift(b, t, c * hi);
  }

  lemma HalfProduct(t: nat, c: nat, hi: nat)
    requires t * c == 0x80
    ensures 0x100 * hi == t * (2 * (c * hi))
  {
    assert t * (c * hi) == (t * c) * hi;
  }
}
