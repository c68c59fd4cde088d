/** The buffered SHA-256 object of the packer (util/zzm_pack.c) over any compression function,
    against sections 5.1.1 and 6.2 of FIPS 180-4. */
module Sha256 {
  import opened Words

  type HashState = s: seq<u32> | |s| == 8 witness [0, 0, 0, 0, 0, 0, 0, 0]

  /** `sha256_transform`. */
  type Transform = (HashState, seq<u8>) -> HashState

  const INITIAL: HashState := [
    0x6a09e667, 0xbb67ae85, 0x3c6ef372, 0xa54ff53a, 0x510e527f, 0x9b05688c, 0x1f83d9ab, 0x5be0cd19]

  const TWO64: int := 0x1_0000_0000_0000_0000

  /** The blocks of 64 bytes, one after another. */
  function Fold(t: Transform, s: HashState, data: seq<u8>): (r: HashState)
    requires |data| % 64 == 0
    decreases |data|
  {
    if data == [] then s else Fold(t, t(s, data[..64]), data[64..])
  }

  lemma {:induction false} FoldAppend(t: Transform, s: HashState, a: seq<u8>, b: seq<u8>)
    requires |a| % 64 == 0 && |b| % 64 == 0
    ensures Fold(t, s, a + b) == Fold(t, Fold(t, s, a), b)
    decreases |a|
  {
    if a == [] {
      assert a + b == b;
    } else {
      assert (a + b)[..64] == a[..64] && (a + b)[64..] == a[64..] + b;
      FoldAppend(t, t(s, a[..64]), a[64..], b);
    }
  }

  lemma FoldOne(t: Transform, s: HashState, block: seq<u8>)
    requires |block| == 64
    ensures Fold(t, s, block) == t(s, block)
  {
    assert block[..64] == block && block[64..] == [];
  }

  /** Byte `i` of a 64-bit number, from the high end. */
  function Be64(v: u64): (b: seq<u8>)
    ensures |b| == 8
  {
    [v / 0x100_0000_0000_0000 % 0x100, v / 0x1_0000_0000_0000 % 0x100, v / 0x100_0000_0000 % 0x100, v / 0x1_0000_0000 % 0x100,
     v / 0x100_0000 % 0x100, v / 0x1_0000 % 0x100, v / 0x100 % 0x100, v % 0x100]
  }

  /** The number of zero bytes after the marker: the least that leaves room for the length. */
  function Filler(n: nat): (k: nat)
    ensures k < 64 && (n + 1 + k + 8) % 64 == 0
  {
    (119 - n % 64) % 64
  }

  /** The padded message of section 5.1.1 with the bytes of its length. */
  function PaddedWith(m: seq<u8>, length: seq<u8>): (p: seq<u8>)
    requires |length| == 8
    ensures |p| % 64 == 0
  {
    m + [0x80] + Zeros(Filler(|m|)) + length
  }

  /** The length is in bits, modulo 2^64. */
  function Padded(m: seq<u8>): (p: seq<u8>)
    ensures |p| % 64 == 0
  {
    PaddedWith(m, Be64(8 * |m| % TWO64))
  }

  /** The digest words of a whole message. */
  function Digest(t: Transform, m: seq<u8>): (r: HashState)
  {
    Fold(t, INITIAL, Padded(m))
  }

  lemma FoldTail(t: Transform, data: seq<u8>, n: nat, s: HashState)
    requires |data| == n + 64 && n % 64 == 0 && s == Fold(t, INITIAL, data[..n])
    ensures |data| % 64 == 0 && Fold(t, INITIAL, data) == t(s, data[n..])
  {
    FoldAppend(t, INITIAL, data[..n], data[n..]);
    FoldOne(t, s, data[n..]);
    assert data == data[..n] + data[n..];
  }

  lemma AddBits(x: nat, y: nat, r: nat)
    requires r == x % TWO64
    ensures (r + y) % TWO64 == (x + y) % TWO64
  {
    DivModUnique(x + y, TWO64, x / TWO64 + (r + y) / TWO64, (r + y) % TWO64);
  }

  /** The words from their high ends, which is how a digest is written out. */
  function BigEndian(s: HashState): (b: seq<u8>)
    ensures |b| == 32
  {
    seq(32, i requires 0 <= i < 32 => Byte(s[i / 4], 3 - i % 4))
  }

  lemma BigEndianWords(s: HashState, i: nat)
    requires i < 8
    ensures var b := BigEndian(s); Load32(b[4 * i + 3], b[4 * i + 2], b[4 * i + 1], b[4 * i]) == s[i]
  {
    BytesOfWord(s[i]);
    var b := BigEndian(s);
    assert b[4 * i] == Byte(s[i], 3) && b[4 * i + 1] == Byte(s[i], 2) && b[4 * i + 2] == Byte(s[i], 1) && b[4 * i + 3] == Byte(s[i], 0);
  }

  class Hasher {
    const t: Transform
    var state: HashState
    var bitCount: u64
    var block: array<u8>
    var used: nat
    ghost var fed: seq<u8>

    ghost predicate Valid()
      reads this, block
    {
      && block.Length == 64 && used < 64 && used <= |fed| && (|fed| - used) % 64 == 0
      && block[..used] == fed[|fed| - used..]
      && state == Fold(t, INITIAL, fed[..|fed| - used])
      && bitCount == 8 * (|fed| - used) % TWO64
    }

    /** `sha256_init`. */
    constructor (t: Transform)
      ensures Valid() && fed == [] && this.t == t && fresh(block)
    {
      this.t := t;
      state, bitCount, used, fed := INITIAL, 0, 0, [];
      block := new u8[64];
    }

    /** `sha256_update`: any number of bytes, in any number of calls. */
    method Update(data: seq<u8>)
      requires Valid()
      modifies this`state, this`bitCount, this`used, this`fed, block
      ensures Valid() && fed == old(fed) + data
    {
      var rest := data;
      assert old(fed) + data == fed + rest;
      while rest != []
        invariant Valid() && fed + rest == old(fed) + data
        decreases |rest|
      {
        var count := 64 - used;
        if count > |rest| { count := |rest|; }
        assert fed + rest == (fed + rest[..count]) + rest[count..];
        Buffer(rest[..count]);
        rest := rest[count..];
      }
      assert fed + [] == fed;
    }

    /** Copies bytes into the block and transforms it when it is full. */
    method Buffer(part: seq<u8>)
      requires Valid() && used + |part| <= 64
      modifies this`state, this`bitCount, this`used, this`fed, block
      ensures Valid() && fed == old(fed) + part
    {
      ghost var n := |fed| - used;
      GrowsBehind(fed, part, n);
      Store(used, part);
      used := used + |part|;
      fed := fed + part;
      assert |fed| - used == n;
      if used == 64 { Flush(n); }
    }

    static lemma GrowsBehind(s: seq<u8>, part: seq<u8>, n: nat)
      requires n <= |s|
      ensures (s + part)[n..] == s[n..] + part && (s + part)[..n] == s[..n]
    {
    }

    /** A full block goes through the transformation. */
    method Flush(ghost n: nat)
      requires block.Length == 64 && used == 64 && |fed| == n + 64 && n % 64 == 0
      requires block[..used] == fed[n..] && state == Fold(t, INITIAL, fed[..n])
      requires bitCount == 8 * n % TWO64
      modifies this`state, this`bitCount, this`used
      ensures Valid()
    {
      assert block[..] == block[..64];
      FoldTail(t, fed, n, state);
      AddBits(8 * n, 512, bitCount);
      state := t(state, block[..]);
      bitCount := (bitCount as int + 512) % TWO64;
      used := 0;
      assert fed[..|fed|] == fed;
    }

    method Store(at: nat, part: seq<u8>)
      requires at + |part| <= block.Length
      modifies block
      ensures block[..at + |part|] == old(block[..at]) + part
      ensures block[at + |part|..] == old(block[at + |part|..])
    {
      for i := 0 to |part|
        invariant block[..at + i] == old(block[..at]) + part[..i]
        invariant block[at + |part|..] == old(block[at + |part|..])
      {
        block[at + i] := part[i];
      }
    }

    /** The rest of the block becomes zeros and the block is transformed. */
    method Spill()
      requires block.Length == 64 && 56 < used <= 64
      modifies this`state, this`used, block
      ensures used == 0 && state == t(old(state), old(block[..used]) + Zeros(64 - old(used)))
    {
      Store(used, Zeros(64 - used));
      assert block[..] == block[..64];
      state := t(state, block[..]);
      used := 0;
    }

    /** Zeros up to the last eight bytes, the length, and the last transformation. */
    method Close(length: seq<u8>)
      requires block.Length == 64 && used <= 56 && |length| == 8
      modifies this`state, block
      ensures state == t(old(state), old(block[..used]) + Zeros(56 - used) + length)
    {
      Store(used, Zeros(56 - used));
      Store(56, length);
      assert block[..] == block[..64];
      state := t(state, block[..]);
    }

    /** `sha256_final`. */
    method Final() returns (digest: seq<u8>)
      requires Valid()
      modifies this`state, this`used, block
      ensures digest == BigEndian(Digest(t, fed))
    {
      var length := Length();
      LastBlocks(t, fed, |fed| - used, state, length);
      Conclude(length);
      digest := WriteOut();
    }

    /** The length in bits, from the count of whole blocks and the bytes in the last. */
    method Length() returns (length: seq<u8>)
      requires Valid()
      ensures length == Be64(8 * |fed| % TWO64)
    {
      var bits: u64 := (bitCount as int + 8 * used) % TWO64;
      AddBits(8 * (|fed| - used), 8 * used, bitCount);
      length := Be64(bits);
    }

    /** The marker, zeros, an extra block if the length no longer fits, the length. */
    method Conclude(length: seq<u8>)
      requires block.Length == 64 && used < 64 && |length| == 8
      modifies this`state, this`used, block
      ensures state == Ending(t, old(state), old(block[..used]), length)
    {
      Store(used, [0x80]);
      used := used + 1;
      if used > 56 {
        Spill();
        assert block[..used] == [];
      }
      Close(length);
    }

    /** The digest, word by word and each word from its high end. */
    method WriteOut() returns (digest: seq<u8>)
      ensures digest == BigEndian(state)
    {
      digest := [];
      for i := 0 to 8
        invariant |digest| == 4 * i && forall k :: 0 <= k < 4 * i ==> digest[k] == BigEndian(state)[k]
      {
        var v := state[i];
        digest := digest + [Byte(v, 3), Byte(v, 2), Byte(v, 1), Byte(v, 0)];
        forall k | 4 * i <= k < 4 * i + 4 ensures digest[k] == BigEndian(state)[k] { assert k / 4 == i; }
      }
    }
  }

  /** The state after the last blocks, when `tail` is what has not been transformed: one block if
      the tail has at most 55 bytes, two if it has more. */
  function Ending(t: Transform, s: HashState, tail: seq<u8>, length: seq<u8>): (r: HashState)
    requires |tail| < 64 && |length| == 8
  {
    if |tail| < 56 then t(s, tail + [0x80] + Zeros(55 - |tail|) + length)
    else t(t(s, tail + [0x80] + Zeros(63 - |tail|)), [] + Zeros(56) + length)
  }

  /** One block is left when the tail has at most 55 bytes, and two when it has more. */
  lemma LastBlocks(t: Transform, m: seq<u8>, n: nat, s: HashState, length: seq<u8>)
    requires n <= |m| < n + 64 && n % 64 == 0 && s == Fold(t, INITIAL, m[..n]) && |length| == 8
    ensures Fold(t, INITIAL, PaddedWith(m, length)) == Ending(t, s, m[n..], length)
  {
    var tail := m[n..];
    var last := tail + [0x80] + Zeros(Filler(|m|)) + length;
    FillerAfter(n, |tail|);
    SplitPadded(m, n, length);
    FoldAppend(t, INITIAL, m[..n], last);
    if |tail| < 56 {
      FoldOne(t, s, last);
    } else {
      TwoBlocks(t, s, tail, Filler(|m|), length);
      assert [] + Zeros(56) == Zeros(56);
    }
  }

  lemma FillerAfter(n: nat, rest: nat)
    requires n % 64 == 0 && rest < 64
    ensures Filler(n + rest) == if rest < 56 then 55 - rest else 119 - rest
  {
  }

  lemma SplitPadded(m: seq<u8>, n: nat, length: seq<u8>)
    requires n <= |m| && |length| == 8
    ensures PaddedWith(m, length) == m[..n] + (m[n..] + [0x80] + Zeros(Filler(|m|)) + length)
  {
    assert m == m[..n] + m[n..];
  }

  lemma TwoBlocks(t: Transform, s: HashState, tail: seq<u8>, filler: nat, length: seq<u8>)
    requires 56 <= |tail| < 64 && filler == 119 - |tail| && |length| == 8
    ensures Fold(t, s, tail + [0x80] + Zeros(filler) + length)
      == t(t(s, tail + [0x80] + Zeros(63 - |tail|)), Zeros(56) + length)
  {
    var a, b := tail + [0x80] + Zeros(63 - |tail|), Zeros(56) + length;
    assert tail + [0x80] + Zeros(filler) + length == a + b;
    FoldAppend(t, s, a, b);
    FoldOne(t, s, a);
    FoldOne(t, t(s, a), b);
  }
}
