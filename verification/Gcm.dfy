/** AES-GCM as the code runs it (sdk/tools/zz9k-crypto-soft.c), over any block cipher, against
    sections 6.4, 6.5, 7.1 and 7.2 of NIST SP 800-38D. */
module Gcm {
  import opened Words
  import opened Ghash

  /** The block cipher under each key. */
  type Cipher = (seq<bv8>, Block) -> Block

  function ZeroPad(s: seq<bv8>): (b: Block)
    requires |s| <= 16
  {
    seq(16, i requires 0 <= i < 16 => if i < |s| then s[i] else 0)
  }

  /** GHASH of section 6.4 over zero-padded blocks, from accumulator `y`. */
  function Hash(y: Block, h: Block, data: seq<bv8>): (r: Block)
    decreases |data|
  {
    if data == [] then y
    else
      var n := Least(16, |data|);
      Hash(GMul(XorBlock(y, ZeroPad(data[..n])), h), h, data[n..])
  }

  /** `data || 0^v`: padded to a whole number of blocks. */
  function Padded(data: seq<bv8>): (p: seq<bv8>)
    ensures |p| % 16 == 0
  {
    data + seq((16 - |data| % 16) % 16, _ => 0)
  }

  /** Hashing after whole blocks continues from their hash. */
  lemma {:induction false} HashAppend(y: Block, h: Block, a: seq<bv8>, b: seq<bv8>)
    requires |a| % 16 == 0
    ensures Hash(y, h, a + b) == Hash(Hash(y, h, a), h, b)
    decreases |a|
  {
    if a == [] {
      assert a + b == b;
    } else {
      assert (a + b)[..16] == a[..16] && (a + b)[16..] == a[16..] + b;
      HashAppend(GMul(XorBlock(y, ZeroPad(a[..16])), h), h, a[16..], b);
    }
  }

  /** The zero padding the code applies inside a block is the padding of the standard. */
  lemma {:induction false} HashPadded(y: Block, h: Block, a: seq<bv8>)
    ensures Hash(y, h, Padded(a)) == Hash(y, h, a)
    decreases |a|
  {
    if a == [] {
      assert Padded(a) == [];
    } else if |a| < 16 {
      PaddedShort(a);
    } else {
      PaddedLong(a);
      HashPadded(GMul(XorBlock(y, ZeroPad(a[..16])), h), h, a[16..]);
    }
  }

  lemma PaddedShort(a: seq<bv8>)
    requires 0 < |a| < 16
    ensures |Padded(a)| == 16 && ZeroPad(Padded(a)[..16]) == ZeroPad(a[..|a|]) && Padded(a)[16..] == [] == a[|a|..]
  {
    assert Padded(a) == ZeroPad(a) && a[..|a|] == a && Padded(a)[..16] == Padded(a);
    assert ZeroPad(Padded(a)) == ZeroPad(a);
  }

  lemma PaddedLong(a: seq<bv8>)
    requires |a| >= 16
    ensures |Padded(a)| >= 16 && Padded(a)[..16] == a[..16] && Padded(a)[16..] == Padded(a[16..])
  {
    var z := seq((16 - |a| % 16) % 16, _ => 0 as bv8);
    assert |a[16..]| % 16 == |a| % 16;
    assert (a + z)[..16] == a[..16] && (a + z)[16..] == a[16..] + z;
  }

  function Be32(v: u32): (b: seq<bv8>)
    ensures |b| == 4
  {
    [Byte(v, 3) as bv8, Byte(v, 2) as bv8, Byte(v, 1) as bv8, Byte(v, 0) as bv8]
  }

  /** `[len(A)]_64 || [len(C)]_64` in bits, for lengths of `a` and `c` bytes (section 7.1). */
  function LengthBlock(a: u32, c: u32): (b: Block)
  {
    Be32(a / 0x2000_0000) + Be32(Trunc32(8 * a as int)) + Be32(c / 0x2000_0000) + Be32(Trunc32(8 * c as int))
  }

  /** The length block of the code, whose products wrap at 32 bits. */
  function WrappedLengths(a: u32, c: u32): (b: Block)
  {
    Be32(0) + Be32(Trunc32(a as int * 8)) + Be32(0) + Be32(Trunc32(c as int * 8))
  }

  /** The code follows the standard exactly for lengths below 2^29 bytes. */
  lemma LengthsConform(a: u32, c: u32)
    ensures WrappedLengths(a, c) == LengthBlock(a, c) <==> a < 0x2000_0000 && c < 0x2000_0000
  {
    var w, l := WrappedLengths(a, c), LengthBlock(a, c);
    TopBitsByte(a);
    TopBitsByte(c);
    assert w[3] == 0 && w[11] == 0;
    assert l[3] == Byte(a / 0x2000_0000, 0) as bv8 && l[11] == Byte(c / 0x2000_0000, 0) as bv8;
    if a < 0x2000_0000 { assert a / 0x2000_0000 == 0; }
    if c < 0x2000_0000 { assert c / 0x2000_0000 == 0; }
  }

  lemma TopBitsByte(a: u32)
    ensures Byte(a / 0x2000_0000, 0) as bv8 == 0 <==> a < 0x2000_0000
  {
    var t := a / 0x2000_0000;
    assert t < 8 && Byte(t, 0) == t;
    SmallByte(t);
  }

  lemma SmallByte(t: int)
    requires 0 <= t < 8
    ensures t as bv8 == 0 <==> t == 0
  {
    match t
    case 0 => case 1 => case 2 => case 3 => case 4 => case 5 => case 6 => case _ =>
  }

  /** A 32-bit word from its high byte, and back. */
  function StoreBe(v: bv32): (b: seq<bv8>)
    ensures |b| == 4
  {
    [(v >> 24) as bv8, ((v >> 16) & 0xFF) as bv8, ((v >> 8) & 0xFF) as bv8, (v & 0xFF) as bv8]
  }

  function LoadBe(b: seq<bv8>): (v: bv32)
    requires |b| == 4
  {
    ((b[0] as bv32) << 24) | ((b[1] as bv32) << 16) | ((b[2] as bv32) << 8) | (b[3] as bv32)
  }

  lemma LoadStored(v: bv32)
    ensures LoadBe(StoreBe(v)) == v
  {
  }

  /** The counter of J0 stepped `k` times by inc32, which wraps. */
  function Counter(k: nat): (v: bv32)
  {
    if k == 0 then 1 else Counter(k - 1) + 1
  }

  /** The counter block with counter `v`; J0 has counter 1 (section 7.1, step 2). */
  function CounterBlock(nonce: seq<bv8>, v: bv32): (b: Block)
    requires |nonce| == 12
  {
    nonce + StoreBe(v)
  }

  /** GCTR of section 6.5 from inc32(J0): block `i` is masked with the counter stepped `i + 1` times. */
  function Gctr(E: Block -> Block, nonce: seq<bv8>, data: seq<bv8>): (r: seq<bv8>)
    requires |nonce| == 12
    ensures |r| == |data|
  {
    seq(|data|, k requires 0 <= k < |data| => data[k] ^ KeyByte(E, nonce, k))
  }

  function KeyByte(E: Block -> Block, nonce: seq<bv8>, k: nat): bv8
    requires |nonce| == 12
  {
    E(CounterBlock(nonce, Counter(k / 16 + 1)))[k % 16]
  }

  /** Step 6 of section 7.1. */
  function Tag(E: Block -> Block, nonce: seq<bv8>, aad: seq<bv8>, c: seq<bv8>, lengths: Block): (t: Block)
    requires |nonce| == 12
  {
    XorBlock(Hash(ZERO, E(ZERO), Padded(aad) + Padded(c) + lengths), E(CounterBlock(nonce, 1)))
  }

  /** Masking twice gives the data back. */
  lemma GctrTwice(E: Block -> Block, nonce: seq<bv8>, data: seq<bv8>)
    requires |nonce| == 12
    ensures Gctr(E, nonce, Gctr(E, nonce, data)) == data
  {
    forall k | 0 <= k < |data| ensures Gctr(E, nonce, Gctr(E, nonce, data))[k] == data[k] {
      XorTwice(data[k], KeyByte(E, nonce, k));
    }
  }

  lemma XorTwice(a: bv8, b: bv8)
    ensures (a ^ b) ^ b == a
  {
  }

  lemma HashParts(h: Block, aad: seq<bv8>, c: seq<bv8>, lengths: Block)
    ensures Hash(ZERO, h, Padded(aad) + Padded(c) + lengths)
      == GMul(XorBlock(Hash(Hash(ZERO, h, aad), h, c), lengths), h)
  {
    HashAppend(ZERO, h, Padded(aad) + Padded(c), lengths);
    HashAppend(ZERO, h, Padded(aad), Padded(c));
    HashPadded(ZERO, h, aad);
    var y := Hash(ZERO, h, aad);
    HashPadded(y, h, c);
    HashOne(Hash(y, h, c), h, lengths);
  }

  lemma HashOne(y: Block, h: Block, block: Block)
    ensures Hash(y, h, block) == GMul(XorBlock(y, block), h)
  {
    assert block[..16] == block && block[16..] == [] && ZeroPad(block) == block;
  }

  /** `zz9k_ghash_update`. */
  method GhashUpdate(y: array<bv8>, h: Block, data: array<bv8>, len: u32)
    requires y.Length == 16 && len <= data.Length && y != data
    modifies y
    ensures y[..] == Hash(old(y[..]), h, data[..len])
  {
    var off: u32 := 0;
    ghost var all := data[..len];
    while off < len
      invariant off <= len
      invariant Hash(y[..], h, all[off..]) == Hash(old(y[..]), h, all)
    {
      var n: u32 := Least(16, len - off);
      var block := LoadBlock(data, off, n);
      assert all[off..][..n] == all[off..off + n] == data[off..off + n] && all[off..][n..] == all[off + n..];
      XorInto(y, block);
      GhashMul(y, h);
      off := off + n;
    }
    assert all[off..] == [];
  }

  method LoadBlock(data: array<bv8>, off: nat, n: nat) returns (b: Block)
    requires n <= 16 && off + n <= data.Length
    ensures b == ZeroPad(data[off..off + n])
  {
    var block := new bv8[16];
    for i := 0 to 16
      invariant forall k :: 0 <= k < i ==> block[k] == if k < n then data[off + k] else 0
    {
      block[i] := if i < n then data[off + i] else 0;
    }
    b := block[..];
  }

  /** The CTR loop; `input` and `output` may be the same buffer. */
  method CtrPass(E: Block -> Block, nonce: seq<bv8>, input: array<bv8>, output: array<bv8>, length: u32)
    requires |nonce| == 12 && length <= input.Length && length <= output.Length
    modifies output
    ensures output[..length] == Gctr(E, nonce, old(input[..length]))
    ensures output[length..] == old(output[length..])
  {
    ghost var data, rest := input[..length], output[length..];
    ghost var masked := Gctr(E, nonce, data);
    var counter := CounterBlock(nonce, 1);
    var off: u32 := 0;
    while off < length
      invariant off <= length && (off < length ==> off % 16 == 0 && counter == CounterBlock(nonce, Counter(off / 16)))
      invariant output[..off] == masked[..off] && input[off..length] == data[off..]
      invariant output[length..] == rest
    {
      counter := Increment(nonce, counter, Counter(off / 16));
      var n := CtrBlock(E, nonce, input, output, off, length, counter, data);
      assert n == 16 ==> (off as int + n) / 16 == off / 16 + 1;
      off := off + n;
    }
    assert masked[..length] == masked;
  }

  /** One turn of the CTR loop after the counter has been stepped. */
  method CtrBlock(E: Block -> Block, nonce: seq<bv8>, input: array<bv8>, output: array<bv8>, off: u32, length: u32,
                  counter: Block, ghost data: seq<bv8>)
    returns (n: u32)
    requires |nonce| == 12 && off < length <= input.Length && length <= output.Length && off % 16 == 0
    requires counter == CounterBlock(nonce, Counter(off / 16 + 1))
    requires |data| == length && input[off..length] == data[off..]
    requires output[..off] == Gctr(E, nonce, data)[..off]
    modifies output
    ensures n == Least(16, length - off)
    ensures output[..off + n] == Gctr(E, nonce, data)[..off + n] && input[off + n..length] == data[off + n..]
    ensures output[length..] == old(output[length..])
  {
    n := Least(16, length - off);
    ghost var before, tail := output[..], input[off + n..];
    assert input[off..off + n] == input[off..length][..n] == data[off..off + n];
    assert tail[..length - off - n] == input[off..length][n..];
    assert output[length..] == output[off + n..][length - off - n..];
    MaskBlock(input, output, off, n, E(counter));
    assert output[length..] == output[off + n..][length - off - n..];
    assert input[off + n..length] == tail[..length - off - n];
    KeystreamBlock(E, nonce, data, off, n);
    GrowPrefix(before, output[..], off, n, Gctr(E, nonce, data));
  }

  /** One block of key stream applied from `off` on, byte by byte. */
  method MaskBlock(input: array<bv8>, output: array<bv8>, off: u32, n: u32, ks: Block)
    requires n <= 16 && off + n <= input.Length && off + n <= output.Length
    modifies output
    ensures output[..off] == old(output[..off]) && output[off + n..] == old(output[off + n..])
    ensures output[off..off + n] == XorWith(old(input[off..off + n]), ks)
    ensures input[off + n..] == old(input[off + n..])
  {
    for i := 0 to n
      invariant forall k :: 0 <= k < i ==> output[off + k] == old(input[off + k]) ^ ks[k]
      invariant forall k :: off + i <= k < input.Length ==> input[k] == old(input[k])
      invariant output[..off] == old(output[..off]) && output[off + n..] == old(output[off + n..])
    {
      output[off + i] := input[off + i] ^ ks[i];
    }
  }

  function XorWith(data: seq<bv8>, ks: Block): (r: seq<bv8>)
    requires |data| <= 16
  {
    seq(|data|, i requires 0 <= i < |data| => data[i] ^ ks[i])
  }

  lemma KeystreamBlock(E: Block -> Block, nonce: seq<bv8>, data: seq<bv8>, off: u32, n: u32)
    requires |nonce| == 12 && off % 16 == 0 && n <= 16 && off + n <= |data|
    ensures Gctr(E, nonce, data)[off..off + n] == XorWith(data[off..off + n], E(CounterBlock(nonce, Counter(off / 16 + 1))))
  {
    var m, x := Gctr(E, nonce, data), XorWith(data[off..off + n], E(CounterBlock(nonce, Counter(off / 16 + 1))));
    forall i | 0 <= i < n ensures m[off + i] == x[i] { KeyByteAt(E, nonce, off, i); }
  }

  lemma KeyByteAt(E: Block -> Block, nonce: seq<bv8>, off: nat, i: nat)
    requires |nonce| == 12 && off % 16 == 0 && i < 16
    ensures KeyByte(E, nonce, off + i) == E(CounterBlock(nonce, Counter(off / 16 + 1)))[i]
  {
    DivModUnique(off + i, 16, off / 16, i);
  }

  lemma GrowPrefix(before: seq<bv8>, after: seq<bv8>, off: nat, n: nat, masked: seq<bv8>)
    requires |before| == |after| && off + n <= |after| && off + n <= |masked|
    requires before[..off] == masked[..off] && after[..off] == before[..off]
    requires after[off..off + n] == masked[off..off + n]
    ensures after[..off + n] == masked[..off + n]
  {
    assert after[..off + n] == after[..off] + after[off..off + n];
    assert masked[..off + n] == masked[..off] + masked[off..off + n];
  }

  /** Reading the counter's last four bytes and writing them back one higher. */
  method Increment(nonce: seq<bv8>, counter: Block, ghost v: bv32) returns (next: Block)
    requires |nonce| == 12 && counter == CounterBlock(nonce, v)
    ensures next == CounterBlock(nonce, v + 1)
  {
    assert counter[..12] == nonce && counter[12..] == StoreBe(v);
    LoadStored(v);
    next := counter[..12] + StoreBe(LoadBe(counter[12..]) + 1);
  }

  /** `zz9k_aes_gcm_core`: `ct` is the ciphertext buffer, hashed before the CTR pass when it is the
      input and after it when it is the output, so input and output may be one buffer. */
  method Core(E: Block -> Block, nonce: seq<bv8>, aad: array<bv8>, aadLength: u32, input: array<bv8>, output: array<bv8>,
              length: u32, ct: array<bv8>, ghashFirst: bool)
    returns (tag: Block)
    requires |nonce| == 12 && aadLength <= aad.Length && length <= input.Length && length <= output.Length
    requires ct == if ghashFirst then input else output
    modifies output
    ensures output[..length] == Gctr(E, nonce, old(input[..length]))
    ensures output[length..] == old(output[length..])
    ensures tag == Tag(E, nonce, old(aad[..aadLength]),
      if ghashFirst then old(input[..length]) else Gctr(E, nonce, old(input[..length])), WrappedLengths(aadLength, length))
  {
    var h := E(ZERO);
    var y := new bv8[16];
    CopyBlock(y, ZERO);
    GhashUpdate(y, h, aad, aadLength);
    if ghashFirst {
      GhashUpdate(y, h, ct, length);
    }
    ghost var hashed := y[..];
    CtrPass(E, nonce, input, output, length);
    assert y[..] == hashed;
    if !ghashFirst {
      GhashUpdate(y, h, ct, length);
    }
    var lengths := WrappedLengths(aadLength, length);
    XorInto(y, lengths);
    GhashMul(y, h);
    HashParts(h, old(aad[..aadLength]),
      if ghashFirst then old(input[..length]) else Gctr(E, nonce, old(input[..length])), lengths);
    tag := XorBlock(y[..], E(CounterBlock(nonce, 1)));
  }

  function Keyed(cipher: Cipher, key: seq<bv8>): Block -> Block
  {
    b => cipher(key, b)
  }

  /** The key lengths `zz9k_aes_init` takes. */
  predicate KeyOk(key: seq<bv8>)
  {
    |key| == 16 || |key| == 32
  }

  datatype Sealed = BadKey | Sealed(ciphertext: seq<bv8>, tag: Block)

  datatype Opened = Rejected | Opened(plaintext: seq<bv8>)

  /** Authenticated encryption, section 7.1, with the length block of the code. */
  function Seal(cipher: Cipher, key: seq<bv8>, nonce: seq<bv8>, aad: seq<bv8>, plaintext: seq<bv8>): (r: Sealed)
    requires |nonce| == 12 && |aad| < TWO32 && |plaintext| < TWO32
  {
    if !KeyOk(key) then BadKey
    else
      var c := Gctr(Keyed(cipher, key), nonce, plaintext);
      Sealed(c, Tag(Keyed(cipher, key), nonce, aad, c, WrappedLengths(|aad|, |c|)))
  }

  /** Authenticated decryption, section 7.2. */
  function Open(cipher: Cipher, key: seq<bv8>, nonce: seq<bv8>, aad: seq<bv8>, ciphertext: seq<bv8>, tag: Block): (r: Opened)
    requires |nonce| == 12 && |aad| < TWO32 && |ciphertext| < TWO32
  {
    if KeyOk(key) && tag == Tag(Keyed(cipher, key), nonce, aad, ciphertext, WrappedLengths(|aad|, |ciphertext|))
    then Opened(Gctr(Keyed(cipher, key), nonce, ciphertext)) else Rejected
  }

  /** Decryption returns a plaintext exactly for the pairs that encryption makes of it. */
  lemma OpensExactlyWhatWasSealed(cipher: Cipher, key: seq<bv8>, nonce: seq<bv8>, aad: seq<bv8>,
                                  plaintext: seq<bv8>, ciphertext: seq<bv8>, tag: Block)
    requires |nonce| == 12 && |aad| < TWO32 && |plaintext| < TWO32 && |ciphertext| < TWO32
    ensures Open(cipher, key, nonce, aad, ciphertext, tag) == Opened(plaintext)
      <==> Seal(cipher, key, nonce, aad, plaintext) == Sealed(ciphertext, tag)
  {
    GctrTwice(Keyed(cipher, key), nonce, plaintext);
    GctrTwice(Keyed(cipher, key), nonce, ciphertext);
  }

  /** Below 2^29 bytes the tag is the standard's. */
  lemma SealConforms(cipher: Cipher, key: seq<bv8>, nonce: seq<bv8>, aad: seq<bv8>, plaintext: seq<bv8>)
    requires |nonce| == 12 && |aad| < 0x2000_0000 && |plaintext| < 0x2000_0000 && KeyOk(key)
    ensures var E := Keyed(cipher, key);
      var c := Gctr(E, nonce, plaintext);
      Seal(cipher, key, nonce, aad, plaintext) == Sealed(c, Tag(E, nonce, aad, c, LengthBlock(|aad|, |c|)))
  {
    LengthsConform(|aad|, |plaintext|);
  }

  /** `zz9k_soft_aes_gcm_encrypt`. */
  method Encrypt(cipher: Cipher, ciphertext: array<bv8>, plaintext: array<bv8>, length: u32,
                 aad: array<bv8>, aadLength: u32, key: seq<bv8>, nonce: seq<bv8>)
    returns (ok: int, tag: Block)
    requires |nonce| == 12 && aadLength <= aad.Length && length <= plaintext.Length && length <= ciphertext.Length
    modifies ciphertext
    ensures ok == (if KeyOk(key) then 1 else 0)
    ensures ok == 1 ==>
      Seal(cipher, key, nonce, old(aad[..aadLength]), old(plaintext[..length])) == Sealed(ciphertext[..length], tag)
    ensures ok == 0 ==> ciphertext[..] == old(ciphertext[..])
    ensures ciphertext[length..] == old(ciphertext[length..])
  {
    if !KeyOk(key) { return 0, ZERO; }
    tag := Core(Keyed(cipher, key), nonce, aad, aadLength, plaintext, ciphertext, length, ciphertext, false);
    ok := 1;
  }

  /** `zz9k_soft_aes_gcm_decrypt`: a tag that does not match leaves zeros. */
  method Decrypt(cipher: Cipher, plaintext: array<bv8>, ciphertext: array<bv8>, length: u32,
                 aad: array<bv8>, aadLength: u32, tag: Block, key: seq<bv8>, nonce: seq<bv8>)
    returns (ok: int)
    requires |nonce| == 12 && aadLength <= aad.Length && length <= plaintext.Length && length <= ciphertext.Length
    modifies plaintext
    ensures ok == 0 || ok == 1
    ensures Open(cipher, key, nonce, old(aad[..aadLength]), old(ciphertext[..length]), tag)
      == if ok == 1 then Opened(plaintext[..length]) else Rejected
    ensures ok == 0 && KeyOk(key) ==> forall i :: 0 <= i < length ==> plaintext[i] == 0
    ensures !KeyOk(key) ==> plaintext[..] == old(plaintext[..])
    ensures plaintext[length..] == old(plaintext[length..])
  {
    if !KeyOk(key) { return 0; }
    var expected := Core(Keyed(cipher, key), nonce, aad, aadLength, ciphertext, plaintext, length, ciphertext, true);
    var diff := Difference(expected, tag);
    if diff != 0 {
      Withhold(plaintext, length);
      return 0;
    }
    ok := 1;
  }

  method Difference(a: Block, b: Block) returns (diff: bv8)
    ensures diff == 0 <==> a == b
  {
    diff := 0;
    for i := 0 to 16
      invariant diff == 0 <==> forall k :: 0 <= k < i ==> a[k] == b[k]
    {
      OrZero(diff, a[i], b[i]);
      diff := diff | (a[i] ^ b[i]);
    }
  }

  lemma OrZero(d: bv8, a: bv8, b: bv8)
    ensures d | (a ^ b) == 0 <==> d == 0 && a == b
  {
  }

  method Withhold(plaintext: array<bv8>, length: u32)
    requires length <= plaintext.Length
    modifies plaintext
    ensures forall i :: 0 <= i < length ==> plaintext[i] == 0
    ensures plaintext[length..] == old(plaintext[length..])
  {
    for i := 0 to length
      invariant forall k :: 0 <= k < i ==> plaintext[k] == 0
      invariant plaintext[length..] == old(plaintext[length..])
    {
      plaintext[i] := 0;
    }
  }
}
