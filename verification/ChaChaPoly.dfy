/** The AEAD construction of section 2.8 of RFC 8439 as the code runs it
    (sdk/tools/zz9k-crypto-soft.c), over any block function in place of ChaCha20's. */
module ChaChaPoly {
  import opened Words
  import opened LittleEndian
  import opened Poly1305Mac

  type Key = s: seq<u8> | |s| == 32 witness Zeros(32)
  type Nonce = s: seq<u8> | |s| == 12 witness Zeros(12)
  type KeyBlock = s: seq<u8> | |s| == 64 witness Zeros(64)

  /** 64 bytes of key stream for a key, a nonce and a counter. */
  type BlockFunction = (Key, Nonce, u32) -> KeyBlock

  /** Bytes combined by exclusive or. */
  function XorByte(a: u8, b: u8): (r: u8)
  {
    XorInByte(a, b);
    Xor(a, b)
  }

  lemma XorInByte(a: u8, b: u8)
    ensures Xor(a, b) < 0x100
  {
    Pow2Values();
    XorFits(a, b, 8);
  }

  /** The key stream from block `counter` on; the counter wraps at 32 bits. */
  function StreamByte(f: BlockFunction, key: Key, nonce: Nonce, counter: u32, k: nat): (b: u8)
  {
    f(key, nonce, Trunc32(counter as int + k / 64))[k % 64]
  }

  /** `data` under the key stream. */
  function Masked(f: BlockFunction, key: Key, nonce: Nonce, counter: u32, data: seq<u8>): (r: seq<u8>)
    ensures |r| == |data|
  {
    seq(|data|, k requires 0 <= k < |data| => XorByte(data[k], StreamByte(f, key, nonce, counter, k)))
  }

  /** Masking twice gives the data back. */
  lemma MaskedTwice(f: BlockFunction, key: Key, nonce: Nonce, counter: u32, data: seq<u8>)
    ensures Masked(f, key, nonce, counter, Masked(f, key, nonce, counter, data)) == data
  {
    forall k | 0 <= k < |data| ensures Masked(f, key, nonce, counter, Masked(f, key, nonce, counter, data))[k] == data[k] {
      var b := StreamByte(f, key, nonce, counter, k);
      XorCommutes(data[k], b);
      XorCommutes(XorByte(data[k], b), b);
      XorCancels(b, data[k]);
    }
  }

  /** `zz9k_soft_chacha20_xor`; `input` and `output` may be the same buffer. */
  method XorStream(f: BlockFunction, output: array<u8>, input: array<u8>, length: u32, key: Key, nonce: Nonce, counter0: u32)
    requires length <= input.Length && length <= output.Length
    modifies output
    ensures output[..length] == Masked(f, key, nonce, counter0, old(input[..length]))
    ensures output[length..] == old(output[length..])
  {
    var offset: nat, counter := 0, counter0;
    ghost var data, rest := input[..length], output[length..];
    while offset < length
      invariant offset <= length && (offset < length ==> offset % 64 == 0 && counter == Trunc32(counter0 as int + offset / 64))
      invariant forall k :: 0 <= k < offset ==> output[k] == XorByte(data[k], StreamByte(f, key, nonce, counter0, k))
      invariant forall k :: offset <= k < length ==> input[k] == data[k]
      invariant output[length..] == rest
    {
      var chunk := length - offset;
      if chunk > 64 { chunk := 64; }
      var block := f(key, nonce, counter);
      for i := 0 to chunk
        invariant forall k :: 0 <= k < offset + i ==> output[k] == XorByte(data[k], StreamByte(f, key, nonce, counter0, k))
        invariant forall k :: offset + i <= k < length ==> input[k] == data[k]
        invariant output[length..] == rest
      {
        assert (offset + i) / 64 == offset / 64 && (offset + i) % 64 == i;
        output[offset + i] := XorByte(input[offset + i], block[i]);
      }
      WrapTwice(counter0 as int + offset / 64, 1);
      offset := offset + chunk;
      counter := Trunc32(counter as int + 1);
    }
  }

  /** The one-time key: the first half of block 0. */
  function OneTimeKey(f: BlockFunction, key: Key, nonce: Nonce): (k: seq<u8>)
    ensures |k| == 32
  {
    f(key, nonce, 0)[..32]
  }

  /** The tag of section 2.8 for this ciphertext: the 16 bytes of the MAC of the AEAD data. */
  ghost function Tag(f: BlockFunction, key: Key, nonce: Nonce, aad: seq<u8>, ciphertext: seq<u8>): (t: seq<u8>)
    requires |aad| < TWO32 && |ciphertext| < TWO32
    ensures |t| == 16
  {
    LeBytes(MacNumber(OneTimeKey(f, key, nonce), AeadData(aad, ciphertext)), 16)
  }

  /** What encryption makes of a plaintext, and what decryption makes of a ciphertext and a tag. */
  datatype Sealed = Sealed(ciphertext: seq<u8>, tag: seq<u8>)
  datatype Opened = Opened(plaintext: seq<u8>) | Rejected

  ghost function Seal(f: BlockFunction, key: Key, nonce: Nonce, aad: seq<u8>, plaintext: seq<u8>): (r: Sealed)
    requires |aad| < TWO32 && |plaintext| < TWO32
  {
    var c := Masked(f, key, nonce, 1, plaintext);
    Sealed(c, Tag(f, key, nonce, aad, c))
  }

  ghost function Open(f: BlockFunction, key: Key, nonce: Nonce, aad: seq<u8>, ciphertext: seq<u8>, tag: seq<u8>): (r: Opened)
    requires |aad| < TWO32 && |ciphertext| < TWO32
  {
    if tag == Tag(f, key, nonce, aad, ciphertext) then Opened(Masked(f, key, nonce, 1, ciphertext)) else Rejected
  }

  /** `zz9k_soft_chacha20_poly1305_tag`. */
  method TagOf(f: BlockFunction, key: Key, nonce: Nonce, aad: seq<u8>, ciphertext: seq<u8>) returns (tag: seq<u8>)
    requires |aad| < TWO32 && |ciphertext| < TWO32
    ensures tag == Tag(f, key, nonce, aad, ciphertext)
  {
    var zero, otk := new u8[32](_ => 0), new u8[64](_ => 0);
    XorStream(f, otk, zero, 32, key, nonce, 0);
    assert otk[..32] == OneTimeKey(f, key, nonce);
    tag := AeadTag(otk[..32], aad, ciphertext);
    TagBytes(MacNumber(OneTimeKey(f, key, nonce), AeadData(aad, ciphertext)), tag);
  }

  lemma TagBytes(n: nat, tag: seq<u8>)
    requires |tag| == 16 && LeNat(tag) == n < TWO128
    ensures tag == LeBytes(n, 16)
  {
    WordWeights();
    LeOfBytes(n, 16);
    LeInjective(tag, LeBytes(n, 16));
  }

  /** `zz9k_soft_chacha20_poly1305_encrypt`. */
  method Encrypt(f: BlockFunction, ciphertext: array<u8>, plaintext: array<u8>, length: u32, aad: seq<u8>, key: Key, nonce: Nonce)
    returns (tag: seq<u8>)
    requires |aad| < TWO32 && length <= plaintext.Length && length <= ciphertext.Length
    modifies ciphertext
    ensures Seal(f, key, nonce, aad, old(plaintext[..length])) == Sealed(ciphertext[..length], tag)
    ensures ciphertext[length..] == old(ciphertext[length..])
  {
    XorStream(f, ciphertext, plaintext, length, key, nonce, 1);
    tag := TagOf(f, key, nonce, aad, ciphertext[..length]);
  }

  /** `zz9k_soft_chacha20_poly1305_decrypt`: nothing is written unless the tag is right. */
  method Decrypt(f: BlockFunction, plaintext: array<u8>, ciphertext: array<u8>, length: u32, aad: seq<u8>, tag: seq<u8>,
                 key: Key, nonce: Nonce)
    returns (ok: int)
    requires |aad| < TWO32 && |tag| == 16 && length <= plaintext.Length && length <= ciphertext.Length
    modifies plaintext
    ensures ok == 0 || ok == 1
    ensures Open(f, key, nonce, aad, old(ciphertext[..length]), tag)
      == if ok == 1 then Opened(plaintext[..length]) else Rejected
    ensures ok == 0 ==> plaintext[..] == old(plaintext[..])
    ensures plaintext[length..] == old(plaintext[length..])
  {
    var expected := TagOf(f, key, nonce, aad, ciphertext[..length]);
    var diff := Difference(expected, tag);
    if diff != 0 { return 0; }
    XorStream(f, plaintext, ciphertext, length, key, nonce, 1);
    ok := 1;
  }

  method Difference(a: seq<u8>, b: seq<u8>) returns (diff: u32)
    requires |a| == |b| == 16
    ensures diff == 0 <==> a == b
  {
    diff := 0;
    for i := 0 to 16
      invariant diff < 0x100 && (diff == 0 <==> a[..i] == b[..i])
    {
      var x := XorByte(a[i], b[i]);
      XorZero(a[i], b[i]);
      Pow2Values();
      OrIsZero(diff, x, 8);
      assert a[..i + 1] == a[..i] + [a[i]] && b[..i + 1] == b[..i] + [b[i]];
      diff := Or(diff, x);
    }
    assert a[..16] == a && b[..16] == b;
  }

  lemma XorZero(a: nat, b: nat)
    ensures Xor(a, b) == 0 <==> a == b
  {
    XorSelf(a);
    XorCancels(a, b);
  }

  /** Decryption returns a plaintext exactly for the pairs that encryption makes of it. */
  lemma OpensExactlyWhatWasSealed(f: BlockFunction, key: Key, nonce: Nonce, aad: seq<u8>, plaintext: seq<u8>,
                                  ciphertext: seq<u8>, tag: seq<u8>)
    requires |aad| < TWO32 && |plaintext| < TWO32 && |ciphertext| < TWO32
    ensures Open(f, key, nonce, aad, ciphertext, tag) == Opened(plaintext)
      <==> Seal(f, key, nonce, aad, plaintext) == Sealed(ciphertext, tag)
  {
    MaskedTwice(f, key, nonce, 1, plaintext);
    MaskedTwice(f, key, nonce, 1, ciphertext);
  }
}
