/** The bitwise CRC-32 of the archive engine (sdk/tools/zz9k-archive.c). */
module Crc32 {
  import opened Words

  function BitStep(c: bv32): (r: bv32)
  {
    if c & 1 != 0 then (c >> 1) ^ 0xEDB8_8320 else c >> 1
  }

  function BitSteps(c: bv32, n: nat): (r: bv32)
  {
    if n == 0 then c else BitStep(BitSteps(c, n - 1))
  }

  function ByteStep(c: bv32, b: u8): (r: bv32)
  {
    BitSteps(c ^ (b as bv32), 8)
  }

  /** A register stepped over `data`. */
  function Register(step: (bv32, u8) -> bv32, c: bv32, data: seq<u8>): (r: bv32)
    decreases |data|
  {
    if data == [] then c else Register(step, step(c, data[0]), data[1..])
  }

  function Inverted(c: bv32): (r: bv32)
  {
    c ^ 0xFFFF_FFFF
  }

  /** The CRC of what had CRC `crc`, followed by `data`. */
  function Crc(crc: bv32, data: seq<u8>): (r: bv32)
  {
    Inverted(Register(ByteStep, Inverted(crc), data))
  }

  lemma {:induction false} RegisterAppend(step: (bv32, u8) -> bv32, c: bv32, a: seq<u8>, b: seq<u8>)
    ensures Register(step, c, a + b) == Register(step, Register(step, c, a), b)
    decreases |a|
  {
    if a == [] {
      assert a + b == b;
    } else {
      assert (a + b)[1..] == a[1..] + b;
      RegisterAppend(step, step(c, a[0]), a[1..], b);
    }
  }

  /** A CRC can be continued piece by piece. */
  lemma CrcContinues(crc: bv32, a: seq<u8>, b: seq<u8>)
    ensures Crc(Crc(crc, a), b) == Crc(crc, a + b)
  {
    RegisterAppend(ByteStep, Inverted(crc), a, b);
    InvertTwice(Register(ByteStep, Inverted(crc), a));
  }

  lemma InvertTwice(x: bv32)
    ensures Inverted(Inverted(x)) == x
  {
  }

  /** `zz9k_archive_crc32`. */
  method Compute(crc0: bv32, data: seq<u8>) returns (crc: bv32)
    ensures crc == Crc(crc0, data)
  {
    crc := Inverted(crc0);
    assert data[0..] == data;
    for i := 0 to |data|
      invariant Register(ByteStep, crc, data[i..]) == Register(ByteStep, Inverted(crc0), data)
    {
      assert data[i..][0] == data[i] && data[i..][1..] == data[i + 1..];
      crc := Shift8(crc, data[i]);
    }
    crc := Inverted(crc);
  }

  /** The inner loop over one byte's bits. */
  method Shift8(c: bv32, b: u8) returns (crc: bv32)
    ensures crc == ByteStep(c, b)
  {
    crc := c ^ (b as bv32);
    ghost var start := crc;
    for bit := 0 to 8
      invariant crc == BitSteps(start, bit)
    {
      crc := if crc & 1 != 0 then (crc >> 1) ^ 0xEDB8_8320 else crc >> 1;
    }
  }
}
