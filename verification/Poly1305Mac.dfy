/** Whole Poly1305 messages: the final reduction, the message loops, and the MAC they give. */
module Poly1305Mac {
  import opened Words
  import opened LittleEndian
  import opened Ring
  import opened Poly1305

  const TWO128: nat := 0x1_0000_0000_0000_0000_0000_0000_0000_0000

  /** The carry pass of `poly1305_finish` leaves every limb below 2^26: limb 1 can only receive
      the last carry when its own excess was carried all the way round, and then it is small. */
  method CarryPass(h: seq<u32>) returns (g: seq<u32>)
    requires LimbsOk(h)
    ensures |g| == 5 && forall i :: 0 <= i < 5 ==> g[i] < 0x400_0000
    ensures Cong(ValOf(g), ValOf(h), PRIME)
  {
    var h0, h1, h2, h3, h4 := h[0], h[1], h[2], h[3], h[4];
    var c;
    h1, c := CutLimb(h1);
    assert c <= 1 && (c == 1 ==> h1 < 0x40);
    h2, c := CutLimb(h2 + c);
    assert c <= 1 && (c == 1 ==> h1 < 0x40);
    h3, c := CutLimb(h3 + c);
    assert c <= 1 && (c == 1 ==> h1 < 0x40);
    h4, c := CutLimb(h4 + c);
    assert c <= 1 && (c == 1 ==> h1 < 0x40);
    ghost var top: int, w0: int, w1: int := c, h0, h1;
    h0, c := CutLimb(h0 + c * 5);
    assert c <= top;
    h1 := h1 + c;
    g := [h0, h1, h2, h3, h4];
    TopCarry(ValOf(h), w0, w1, h2, h3, h4, top, h0, h1, c);
  }

  lemma MaskWord(x: u32)
    ensures And(x, 0xFFFF_FFFF) == x && And(x, 0) == 0
  {
    WordRange();
    AndAllOnes(x, 32, 0xFFFF_FFFF);
  }

  /** `(h & ~mask) | (g & mask)` for a mask of all ones or all zeros. */
  method Select(h: u32, g: u32, mask: u32) returns (r: u32)
    requires mask == 0 || mask == 0xFFFF_FFFF
    ensures r == if mask == 0 then h else g
  {
    MaskWord(h);
    MaskWord(g);
    r := Or(And(h, 0xFFFF_FFFF - mask), And(g, mask));
  }

  /** The conditional subtraction of the prime, by way of `h + 5 - 2^130` and its sign. */
  method SubtractPrime(h: seq<u32>) returns (v: seq<u32>)
    requires |h| == 5 && forall i :: 0 <= i < 5 ==> h[i] < 0x400_0000
    ensures |v| == 5 && forall i :: 0 <= i < 5 ==> v[i] < 0x400_0000
    ensures ValOf(v) == ValOf(h) % PRIME
  {
    var g0, g1, g2, g3, c;
    g0, c := CutLimb(h[0] + 5);
    g1, c := CutLimb(h[1] + c);
    g2, c := CutLimb(h[2] + c);
    g3, c := CutLimb(h[3] + c);
    var g4 := Trunc32(h[4] as int + c as int - 0x400_0000);
    var mask := Trunc32(g4 as int / 0x8000_0000 - 1);
    ghost var t := h[4] as int + c as int - 0x400_0000;
    SignMask(t, g4, mask);
    var v0 := Select(h[0], g0, mask);
    var v1 := Select(h[1], g1, mask);
    var v2 := Select(h[2], g2, mask);
    var v3 := Select(h[3], g3, mask);
    var v4 := Select(h[4], g4, mask);
    v := [v0, v1, v2, v3, v4];
    if t >= 0 { ReducedOnce(h, v, g0, g1, g2, g3, t); } else { NotReduced(h, v, g0, g1, g2, g3, t); }
  }

  lemma SignMask(t: int, g: u32, mask: u32)
    requires -0x400_0000 <= t < 0x400_0000 && g == Trunc32(t) && mask == Trunc32(g as int / 0x8000_0000 - 1)
    ensures t >= 0 ==> g == t && mask == 0xFFFF_FFFF
    ensures t < 0 ==> mask == 0
  {
    if t >= 0 { DivModUnique(t, TWO32, 0, t); } else { DivModUnique(t, TWO32, -1, t + TWO32); }
  }

  lemma ReducedOnce(h: seq<u32>, v: seq<u32>, g0: int, g1: int, g2: int, g3: int, t: int)
    requires |h| == |v| == 5 && Val(g0, g1, g2, g3, t) == ValOf(h) - PRIME && t >= 0
    requires v[0] == g0 && v[1] == g1 && v[2] == g2 && v[3] == g3 && v[4] == t
    requires forall i :: 0 <= i < 5 ==> h[i] < 0x400_0000
    ensures ValOf(v) == ValOf(h) % PRIME
  {
    DivModUnique(ValOf(h), PRIME, 1, ValOf(v));
  }

  lemma NotReduced(h: seq<u32>, v: seq<u32>, g0: int, g1: int, g2: int, g3: int, t: int)
    requires |h| == |v| == 5 && Val(g0, g1, g2, g3, t) == ValOf(h) - PRIME && t < 0 && v == h
    requires 0 <= g0 < 0x400_0000 && 0 <= g1 < 0x400_0000 && 0 <= g2 < 0x400_0000 && 0 <= g3 < 0x400_0000
    ensures ValOf(v) == ValOf(h) % PRIME
  {
    DivModUnique(ValOf(h), PRIME, 0, ValOf(v));
  }

  /** Limbs back to four words: the low 128 bits. */
  method PackWords(v: seq<u32>) returns (w0: u32, w1: u32, w2: u32, w3: u32)
    requires |v| == 5 && forall i :: 0 <= i < 5 ==> v[i] < 0x400_0000
    ensures ValOf(v) == TWO128 * (v[4] / 0x100_0000) + Words4(w0, w1, w2, w3)
  {
    Pow2Values();
    w0 := Join(v[0], v[1], 26);
    w1 := Join(v[1] / 0x40, v[2], 20);
    w2 := Join(v[2] / 0x1000, v[3], 14);
    w3 := Join(v[3] / 0x4_0000, v[4], 8);
    PackedValue(v[0], v[1], v[2], v[3], v[4]);
  }

  lemma PackedValue(v0: nat, v1: nat, v2: nat, v3: nat, v4: nat)
    requires v0 < 0x400_0000 && v1 < 0x400_0000 && v2 < 0x400_0000 && v3 < 0x400_0000 && v4 < 0x400_0000
    ensures Val(v0, v1, v2, v3, v4) == TWO128 * (v4 / 0x100_0000)
      + Words4(v0 + 0x400_0000 * (v1 % 0x40), v1 / 0x40 + 0x10_0000 * (v2 % 0x1000),
               v2 / 0x1000 + 0x4000 * (v3 % 0x4_0000), v3 / 0x4_0000 + 0x100 * (v4 % 0x100_0000))
  {
  }

  /** The final addition mod 2^128, with a 64-bit running carry. */
  method AddPad(w0: u32, w1: u32, w2: u32, w3: u32, pad: seq<u32>)
    returns (t0: u32, t1: u32, t2: u32, t3: u32, carry: u32)
    requires |pad| == 4
    ensures Words4(w0, w1, w2, w3) + Words4(pad[0], pad[1], pad[2], pad[3])
      == TWO128 * carry + Words4(t0, t1, t2, t3)
  {
    var f: u64 := w0 + pad[0];
    t0, carry := Halves(f);
    f := w1 + pad[1] + carry;
    t1, carry := Halves(f);
    f := w2 + pad[2] + carry;
    t2, carry := Halves(f);
    f := w3 + pad[3] + carry;
    t3, carry := Halves(f);
  }

  /** `(uint32_t)f` and `f >> 32`. */
  method Halves(f: u64) returns (low: u32, high: u32)
    ensures f == low + TWO32 * high
  {
    low, high := Trunc32(f), f / 0x1_0000_0000;
  }

  function StoreWord(w: u32): (b: seq<u8>)
    ensures |b| == 4
  {
    [Byte(w, 0), Byte(w, 1), Byte(w, 2), Byte(w, 3)]
  }

  method StoreBlock(t0: u32, t1: u32, t2: u32, t3: u32) returns (tag: seq<u8>)
    ensures |tag| == 16 && LeNat(tag) == Words4(t0, t1, t2, t3)
  {
    tag := StoreWord(t0) + StoreWord(t1) + StoreWord(t2) + StoreWord(t3);
    StoredWords(t0, t1, t2, t3);
  }

  lemma StoredWords(t0: u32, t1: u32, t2: u32, t3: u32)
    ensures LeNat(StoreWord(t0) + StoreWord(t1) + StoreWord(t2) + StoreWord(t3)) == Words4(t0, t1, t2, t3)
  {
    BytesOfWord(t0);
    BytesOfWord(t1);
    BytesOfWord(t2);
    BytesOfWord(t3);
    LeOfBlock(StoreWord(t0) + StoreWord(t1) + StoreWord(t2) + StoreWord(t3));
  }

  /** `poly1305_finish`. */
  method Finish(st: State) returns (tag: seq<u8>)
    requires st.Valid()
    ensures |tag| == 16 && LeNat(tag) == (st.Acc() + st.S()) % TWO128
  {
    tag := FinishLimbs(st.h, st.pad);
  }

  method FinishLimbs(h: seq<u32>, pad: seq<u32>) returns (tag: seq<u8>)
    requires LimbsOk(h) && |pad| == 4
    ensures |tag| == 16
    ensures LeNat(tag) == (ValOf(h) % PRIME + Words4(pad[0], pad[1], pad[2], pad[3])) % TWO128
  {
    var v := ReduceFully(h);
    var t0, t1, t2, t3, q := TagWords(v, pad);
    tag := StoreBlock(t0, t1, t2, t3);
    WordsBelow(t0, t1, t2, t3);
    DivModUnique(ValOf(h) % PRIME + Words4(pad[0], pad[1], pad[2], pad[3]), TWO128, q, LeNat(tag));
  }

  method ReduceFully(h: seq<u32>) returns (v: seq<u32>)
    requires LimbsOk(h)
    ensures |v| == 5 && forall i :: 0 <= i < 5 ==> v[i] < 0x400_0000
    ensures ValOf(v) == ValOf(h) % PRIME
  {
    var g := CarryPass(h);
    v := SubtractPrime(g);
  }

  method TagWords(v: seq<u32>, pad: seq<u32>) returns (t0: u32, t1: u32, t2: u32, t3: u32, ghost q: int)
    requires |v| == 5 && |pad| == 4 && forall i :: 0 <= i < 5 ==> v[i] < 0x400_0000
    ensures ValOf(v) + Words4(pad[0], pad[1], pad[2], pad[3]) == TWO128 * q + Words4(t0, t1, t2, t3)
  {
    var w0, w1, w2, w3 := PackWords(v);
    var carry;
    t0, t1, t2, t3, carry := AddPad(w0, w1, w2, w3, pad);
    q := v[4] / 0x100_0000 + carry;
  }

  lemma WordsBelow(t0: u32, t1: u32, t2: u32, t3: u32)
    ensures 0 <= Words4(t0, t1, t2, t3) < TWO128
  {
  }

  /** The short block with its marker byte is the padded block of section 2.5. */
  lemma MarkedBlock(b: seq<u8>)
    requires |b| < 16
    ensures LeNat(b + [1] + Zeros(15 - |b|)) == Padded(b)
  {
    var f := b + [1] + Zeros(15 - |b|);
    var n := |b|;
    LeZeros(f, n + 1, 16);
    LePrefix(f, b, n);
    assert LeTo(f, n + 1) == LeTo(f, n) + f[n] * Pow2(8 * n);
  }

  /** Absorbs the first whole block of what is left of a message. */
  method AbsorbBlock(st: State, rest: seq<u8>)
    requires st.Valid() && |rest| >= 16
    modifies st
    ensures st.Valid() && st.R() == old(st.R()) && st.S() == old(st.S())
    ensures Accumulate(st.Acc(), rest[16..], st.R()) == Accumulate(old(st.Acc()), rest, st.R())
  {
    st.Block(rest[..16], 0x100_0000);
  }

  /** `poly1305_update`. */
  method Update(st: State, message: seq<u8>)
    requires st.Valid()
    modifies st
    ensures st.Valid() && st.R() == old(st.R()) && st.S() == old(st.S())
    ensures st.Acc() == Accumulate(old(st.Acc()), message, st.R())
  {
    var rest := message;
    ghost var acc, r, s := st.Acc(), st.R(), st.S();
    while |rest| >= 16
      invariant st.Valid() && st.R() == r && st.S() == s
      invariant Accumulate(st.Acc(), rest, r) == Accumulate(acc, message, r)
    {
      AbsorbBlock(st, rest);
      rest := rest[16..];
    }
    if |rest| > 0 {
      assert rest[..|rest|] == rest && rest[|rest|..] == [];
      MarkedBlock(rest);
      st.Block(rest + [1] + Zeros(15 - |rest|), 0);
    }
  }

  /** The MAC of RFC 8439 section 2.5 as a number: the key is the clamped multiplier and the addend. */
  ghost function MacNumber(key: seq<u8>, message: seq<u8>): (n: nat)
    requires |key| == 32
  {
    (Accumulate(0, message, And(LeNat(key[..16]), CLAMP)) + LeNat(key[16..])) % TWO128
  }

  lemma IsMacNumber(key: seq<u8>, message: seq<u8>, acc: nat, r: nat, s: nat, n: nat)
    requires |key| == 32 && r == And(LeNat(key[..16]), CLAMP) && s == LeNat(key[16..])
    requires acc == Accumulate(0, message, r) && n == (acc + s) % TWO128
    ensures n == MacNumber(key, message)
  {
  }

  method MacOf(st: State, message: seq<u8>) returns (tag: seq<u8>, ghost acc: nat)
    requires st.Valid()
    modifies st
    ensures acc == Accumulate(old(st.Acc()), message, old(st.R()))
    ensures |tag| == 16 && LeNat(tag) == (acc + old(st.S())) % TWO128
  {
    Update(st, message);
    acc := st.Acc();
    tag := Finish(st);
  }

  /** `zz9k_soft_poly1305`. */
  method Mac(key: seq<u8>, message: seq<u8>) returns (tag: seq<u8>)
    requires |key| == 32
    ensures |tag| == 16 && LeNat(tag) == MacNumber(key, message)
  {
    var st := Init(key);
    ghost var r, s := st.R(), st.S();
    ghost var acc;
    tag, acc := MacOf(st, message);
    IsMacNumber(key, message, acc, r, s, LeNat(tag));
  }

  function BlockCount(msg: seq<u8>): (n: nat)
  {
    (|msg| + 15) / 16
  }

  /** The polynomial of section 2.5: block i of q is multiplied by r to the q - i. */
  function BlockPolynomial(msg: seq<u8>, r: nat): (v: nat)
    decreases |msg|
  {
    if msg == [] then 0
    else
      var n := if |msg| < 16 then |msg| else 16;
      Padded(msg[..n]) * Pow(r, BlockCount(msg)) + BlockPolynomial(msg[n..], r)
  }

  /** The accumulator is that polynomial, plus the old accumulator at the top power, mod p. */
  lemma {:induction false} AccumulateIsPolynomial(acc: nat, msg: seq<u8>, r: nat)
    requires acc < PRIME
    ensures Accumulate(acc, msg, r) == (acc * Pow(r, BlockCount(msg)) + BlockPolynomial(msg, r)) % PRIME
    decreases |msg|
  {
    if msg == [] {
      DivModUnique(acc, PRIME, 0, acc);
    } else {
      var n := if |msg| < 16 then |msg| else 16;
      var b, rest, q := Padded(msg[..n]), msg[n..], BlockCount(msg);
      assert BlockCount(rest) == q - 1;
      AccumulateIsPolynomial(Step(acc, b, r), rest, r);
      HornerPower(acc, b, r, Pow(r, q - 1), BlockPolynomial(rest, r));
    }
  }

  lemma HornerPower(acc: nat, b: nat, r: nat, p: nat, t: nat)
    ensures (Step(acc, b, r) * p + t) % PRIME == (acc * (r * p) + (b * (r * p) + t)) % PRIME
  {
    CongReduced((acc + b) * r, PRIME);
    CongMul(Step(acc, b, r), (acc + b) * r, p, p, PRIME);
    CongAdd(Step(acc, b, r) * p, (acc + b) * r * p, t, t, PRIME);
    assert (acc + b) * r * p == acc * (r * p) + b * (r * p);
  }

  /** The tag is ((sum of padded blocks times powers of r) mod p, plus s) mod 2^128. */
  lemma MacIsPolynomial(key: seq<u8>, message: seq<u8>)
    requires |key| == 32
    ensures MacNumber(key, message)
      == (BlockPolynomial(message, And(LeNat(key[..16]), CLAMP)) % PRIME + LeNat(key[16..])) % TWO128
  {
    AccumulateIsPolynomial(0, message, And(LeNat(key[..16]), CLAMP));
  }

  /** `data` with `pad16` of RFC 8439 section 2.8 after it. */
  function Pad16(data: seq<u8>): (p: seq<u8>)
    ensures |p| % 16 == 0
  {
    data + Zeros((16 - |data| % 16) % 16)
  }

  /** Whole blocks are absorbed one part after the other. */
  lemma {:induction false} AccumulateParts(acc: nat, a: seq<u8>, b: seq<u8>, r: nat)
    requires |a| % 16 == 0
    ensures Accumulate(acc, a + b, r) == Accumulate(Accumulate(acc, a, r), b, r)
    decreases |a|
  {
    if a == [] {
      assert a + b == b;
    } else {
      assert (a + b)[..16] == a[..16] && (a + b)[16..] == a[16..] + b;
      AccumulateParts(Step(acc, Padded(a[..16]), r), a[16..], b, r);
    }
  }

  method AbsorbPadded(st: State, rest: seq<u8>)
    requires st.Valid() && |rest| >= 16
    modifies st
    ensures st.Valid() && st.R() == old(st.R()) && st.S() == old(st.S())
    ensures Accumulate(st.Acc(), Pad16(rest[16..]), st.R()) == Accumulate(old(st.Acc()), Pad16(rest), st.R())
  {
    PadFirst(rest);
    AccumulateFirst(st.Acc(), Pad16(rest), st.R());
    st.Block(rest[..16], 0x100_0000);
  }

  lemma PadFirst(rest: seq<u8>)
    requires |rest| >= 16
    ensures |Pad16(rest)| >= 16 && Pad16(rest)[..16] == rest[..16] && Pad16(rest)[16..] == Pad16(rest[16..])
  {
    var z := Zeros((16 - |rest| % 16) % 16);
    assert |rest[16..]| % 16 == |rest| % 16;
    assert (rest + z)[..16] == rest[..16] && (rest + z)[16..] == rest[16..] + z;
  }

  lemma AccumulateFirst(acc: nat, msg: seq<u8>, r: nat)
    requires |msg| >= 16
    ensures Accumulate(acc, msg, r) == Accumulate(Step(acc, Padded(msg[..16]), r), msg[16..], r)
  {
  }

  method AbsorbTail(st: State, rest: seq<u8>)
    requires st.Valid() && 0 < |rest| < 16
    modifies st
    ensures st.Valid() && st.R() == old(st.R()) && st.S() == old(st.S())
    ensures st.Acc() == Accumulate(old(st.Acc()), Pad16(rest), st.R())
  {
    var block := rest + Zeros(16 - |rest|);
    assert Pad16(rest) == block && block[..16] == block && block[16..] == [];
    st.Block(block, 0x100_0000);
  }

  /** `poly1305_aead_segment`: absorbs the segment as if padded to whole blocks. */
  method AeadSegment(st: State, data: seq<u8>)
    requires st.Valid()
    modifies st
    ensures st.Valid() && st.R() == old(st.R()) && st.S() == old(st.S())
    ensures st.Acc() == Accumulate(old(st.Acc()), Pad16(data), st.R())
  {
    var rest := data;
    ghost var acc, r, s := st.Acc(), st.R(), st.S();
    ghost var total := Accumulate(acc, Pad16(data), r);
    while |rest| >= 16
      invariant st.Valid() && st.R() == r && st.S() == s
      invariant acc == st.Acc() && Accumulate(acc, Pad16(rest), r) == total
    {
      AbsorbPadded(st, rest);
      rest, acc := rest[16..], st.Acc();
    }
    if |rest| > 0 {
      AbsorbTail(st, rest);
    } else {
      AccumulateNothing(acc, rest, r);
    }
  }

  lemma AccumulateNothing(acc: nat, rest: seq<u8>, r: nat)
    requires rest == []
    ensures Accumulate(acc, Pad16(rest), r) == acc
  {
  }

  /** The data the AEAD tag covers (section 2.8). */
  ghost function AeadData(aad: seq<u8>, ciphertext: seq<u8>): (d: seq<u8>)
    requires |aad| < 0x1_0000_0000 && |ciphertext| < 0x1_0000_0000
  {
    Pad16(aad) + Pad16(ciphertext) + LengthBlock(|aad|, |ciphertext|)
  }

  function LengthBlock(a: u32, c: u32): (b: seq<u8>)
    ensures |b| == 16
  {
    StoreWord(a) + StoreWord(0) + StoreWord(c) + StoreWord(0)
  }

  /** `chacha20_poly1305_tag` once the one-time key is drawn: the MAC of the AEAD data. */
  method AeadTag(otk: seq<u8>, aad: seq<u8>, ciphertext: seq<u8>) returns (tag: seq<u8>)
    requires |otk| == 32 && |aad| < 0x1_0000_0000 && |ciphertext| < 0x1_0000_0000
    ensures |tag| == 16 && LeNat(tag) == MacNumber(otk, AeadData(aad, ciphertext))
  {
    var st := Init(otk);
    ghost var r, s := st.R(), st.S();
    AeadAbsorb(st, aad, ciphertext);
    ghost var acc := st.Acc();
    tag := Finish(st);
    IsMacNumber(otk, AeadData(aad, ciphertext), acc, r, s, LeNat(tag));
  }

  method AeadAbsorb(st: State, aad: seq<u8>, ciphertext: seq<u8>)
    requires st.Valid() && |aad| < 0x1_0000_0000 && |ciphertext| < 0x1_0000_0000
    modifies st
    ensures st.Valid() && st.R() == old(st.R()) && st.S() == old(st.S())
    ensures st.Acc() == Accumulate(old(st.Acc()), AeadData(aad, ciphertext), st.R())
  {
    ghost var acc, r := st.Acc(), st.R();
    AeadSegment(st, aad);
    AeadSegment(st, ciphertext);
    var lengths := LengthBlock(|aad|, |ciphertext|);
    AbsorbOne(st, lengths);
    AccumulateThree(acc, Pad16(aad), Pad16(ciphertext), lengths, r);
  }

  method AbsorbOne(st: State, block: seq<u8>)
    requires st.Valid() && |block| == 16
    modifies st
    ensures st.Valid() && st.R() == old(st.R()) && st.S() == old(st.S())
    ensures st.Acc() == Accumulate(old(st.Acc()), block, st.R())
  {
    assert block[..16] == block && block[16..] == [];
    AbsorbBlock(st, block);
  }

  lemma AccumulateThree(acc: nat, a: seq<u8>, b: seq<u8>, c: seq<u8>, r: nat)
    requires |a| % 16 == 0 && |b| % 16 == 0
    ensures Accumulate(acc, a + b + c, r) == Accumulate(Accumulate(Accumulate(acc, a, r), b, r), c, r)
  {
    WholeBlocks(|a|, |b|);
    AccumulateParts(acc, a + b, c, r);
    assert Accumulate(acc, a + b, r) == Accumulate(Accumulate(acc, a, r), b, r) by {
      AccumulateParts(acc, a, b, r);
    }
  }

  lemma WholeBlocks(m: nat, n: nat)
    requires m % 16 == 0 && n % 16 == 0
    ensures (m + n) % 16 == 0
  {
  }

  /** The length block is the two lengths as 64-bit little-endian numbers. */
  lemma LengthBlockValue(a: u32, c: u32)
    ensures LeNat(LengthBlock(a, c)) == a + 0x1_0000_0000_0000_0000 * c as int
  {
    StoredWords(a, 0, c, 0);
  }
}
