/** LHA member headers (sdk/tools/zz9k-archive.c): the tri-state parse of a window of the archive. */
module Lha {
  import opened Words
  import opened Names

  datatype Entry = Entry(name: seq<u8>, compression: u32, isDir: bool, crc: Option<u32>,
                         compressed: u32, uncompressed: u32, dataOffset: u32)

  /** INVALID and PARSED are final; NEEDS_WINDOW asks for more bytes. */
  datatype Verdict = Invalid | NeedsWindow | Parsed(entry: Entry)

  function Le16(h: seq<u8>, p: nat): (r: u32)
    requires p + 2 <= |h|
  {
    h[p] + 0x100 * h[p + 1] as int
  }

  function Le32(h: seq<u8>, p: nat): (r: u32)
    requires p + 4 <= |h|
  {
    Load32(h[p], h[p + 1], h[p + 2], h[p + 3])
  }

  /** The sum of bytes `from` to `end - 1`, in a byte. */
  function ByteSum8(h: seq<u8>, from: nat, end: nat): (r: u8)
    requires from <= end <= |h|
    decreases end
  {
    if from == end then 0 else Trunc8(ByteSum8(h, from, end - 1) as int + h[end - 1])
  }

  /** What `zz9k_archive_lha_header_checksum_valid` decides. */
  predicate ChecksumValid(h: seq<u8>)
  {
    |h| >= 24 && h[0] != 0 &&
    if h[20] == 2 then 26 <= Le16(h, 0) <= |h|
    else h[0] as int + 2 <= |h| && ByteSum8(h, 2, 2 + h[0] as int) == h[1]
  }

  /** The size of the base header that the first bytes announce, from the header's start. */
  function BaseBytes(h: seq<u8>): (n: nat)
    requires |h| >= 24
  {
    if h[20] == 2 then Le16(h, 0) else 2 + h[0] as int
  }

  function HeaderSize(h: seq<u8>): (n: nat)
    requires |h| >= 24
  {
    if h[20] == 2 then Le16(h, 0) else h[0]
  }

  function MinimalBase(level: u8): nat
  {
    if level == 0 then 22 else if level == 1 then 25 else 26
  }

  predicate MethodShaped(h: seq<u8>)
    requires |h| >= 24
  {
    h[2] == 0x2D && h[6] == 0x2D && h[3] == 0x6C && (h[4] == 0x68 || h[4] == 0x7A)
  }

  /** The chain of extended headers: directory, name, total length and where the chain ends. */
  datatype Chain = ChainInvalid | ChainNeedsWindow | Chain(dir: seq<u8>, name: seq<u8>, total: nat, end: nat)

  function TrimZeros(s: seq<u8>): (r: seq<u8>)
    ensures |r| <= |s|
  {
    if s != [] && s[|s| - 1] == 0 then TrimZeros(s[..|s| - 1]) else s
  }

  /** The name an extended header of type 1 or 2 carries, if it carries one. */
  function ChainName(data: seq<u8>, before: seq<u8>): (r: Option<seq<u8>>)
  {
    var t := TrimZeros(data);
    if t == [] then Some(before) else CopyLhaName(t)
  }

  /** One extended header's contribution: the new directory and name, or none if a name is bad. */
  function Extend(kind: u8, data: seq<u8>, dir: seq<u8>, name: seq<u8>): (r: Option<(seq<u8>, seq<u8>)>)
  {
    if kind == 1 then
      match ChainName(data, name) case None => None case Some(n) => Some((dir, n))
    else if kind == 2 then
      match ChainName(data, dir) case None => None case Some(d) => Some((d, name))
    else Some((dir, name))
  }

  /** Follows the chain in window `h` from `pos`, where the next header takes `size` bytes. */
  function Follow(h: seq<u8>, pos: nat, size: u32, dir: seq<u8>, name: seq<u8>, total: nat): (c: Chain)
    decreases |h| - pos
  {
    if size == 0 then Chain(dir, name, total, pos)
    else if pos > |h| || size > |h| - pos then ChainNeedsWindow
    else if size < 3 then ChainInvalid
    else
      match Extend(h[pos], h[pos + 1..pos + size - 2], dir, name)
      case None => ChainInvalid
      case Some(x) => Follow(h, pos + size, Le16(h, pos + size - 2), x.0, x.1, total + size)
  }

  /** The checks on a base header that is completely inside the window. */
  predicate BaseValid(h: seq<u8>)
    requires |h| >= 24 && BaseBytes(h) <= |h|
  {
    && h[20] <= 2 && HeaderSize(h) >= MinimalBase(h[20]) && ChecksumValid(h) && MethodShaped(h)
    && (h[20] != 2 ==> h[21] <= HeaderSize(h) - MinimalBase(h[20]))
  }

  /** The verdict of `zz9k_archive_lha_parse_header` on window `h` with `avail` bytes left. */
  function Parse(h: seq<u8>, avail: u32): (v: Verdict)
  {
    if |h| < 24 then NeedsWindow
    else if h[0] == 0 || h[20] > 2 then Invalid
    else if BaseBytes(h) > |h| then NeedsWindow
    else if !BaseValid(h) then Invalid
    else Conclude(h, avail, Extensions(h))
  }

  /** The checks after the chain: sizes against the archive, then the name. */
  function Conclude(h: seq<u8>, avail: u32, chain: Chain): (v: Verdict)
    requires |h| >= 24 && BaseBytes(h) <= |h| && BaseValid(h)
  {
    match chain
    case ChainInvalid => Invalid
    case ChainNeedsWindow => NeedsWindow
    case Chain(dir, name, total, end) =>
      if h[20] == 1 && Le32(h, 7) < total then Invalid
      else
        var compressed := if h[20] == 1 then Le32(h, 7) - total else Le32(h, 7);
        if end > avail || compressed > avail - end then Invalid
        else match EntryName(h, dir, name)
          case None => Invalid
          case Some(n) => Parsed(Entry(n, MethodCode(h), MethodCode(h) == LHD || EndsWithSlash(n),
                                       Some(Le16(h, CrcOffset(h))), compressed, Le32(h, 11), end))
  }

  /** Where the chain starts, and its outcome; level 0 has none. */
  function Extensions(h: seq<u8>): (c: Chain)
    requires |h| >= 24 && BaseBytes(h) <= |h| && h[20] <= 2
    requires h[20] == 2 ==> BaseBytes(h) >= 26
    requires h[20] == 1 ==> BaseBytes(h) >= 27 + h[21] as int
  {
    if h[20] == 0 then Chain([], [], 0, BaseBytes(h))
    else if h[20] == 1 then Follow(h, BaseBytes(h), Le16(h, 25 + h[21] as int), [], [], 0)
    else Follow(h, 26, Le16(h, 24), [], [], 0)
  }

  function CrcOffset(h: seq<u8>): nat
    requires |h| >= 24
  {
    if h[20] == 2 then 21 else 22 + h[21] as int
  }

  const LHD: u32 := 11

  function MethodCode(h: seq<u8>): (r: u32)
    requires |h| >= 24
  {
    var m := h[2..7];
    if m == [0x2D, 0x6C, 0x68, 0x30, 0x2D] || m == [0x2D, 0x6C, 0x7A, 0x34, 0x2D] then 0
    else if m == [0x2D, 0x6C, 0x68, 0x64, 0x2D] then LHD
    else if m == [0x2D, 0x6C, 0x68, 0x31, 0x2D] then 1
    else if m == [0x2D, 0x6C, 0x68, 0x35, 0x2D] then 5
    else if m == [0x2D, 0x6C, 0x68, 0x36, 0x2D] then 6
    else if m == [0x2D, 0x6C, 0x68, 0x37, 0x2D] then 7
    else 0xFFFF_FFFF
  }

  const UNNAMED: seq<u8> := [0x75, 0x6E, 0x6E, 0x61, 0x6D, 0x65, 0x64]

  function BaseName(h: seq<u8>): (r: Option<seq<u8>>)
    requires |h| >= 24 && BaseBytes(h) <= |h|
    requires h[20] != 2 ==> BaseBytes(h) >= 24 + h[21] as int
  {
    if h[20] == 2 || h[21] == 0 then Some(UNNAMED) else CopyLhaName(h[22..22 + h[21] as int])
  }

  /** The entry's name from the base header's name and the chain's directory and name. */
  function FullName(base: seq<u8>, isDir: bool, dir: seq<u8>, name: seq<u8>): (r: Option<seq<u8>>)
  {
    var joined := if name != [] then JoinDirName(dir, name) else if dir != [] then JoinDirName(dir, base) else Some(base);
    match joined
    case None => None
    case Some(n) =>
      if !isDir then Some(n)
      else
        var d := if dir != [] && name == [] then dir else n;
        if EndsWithSlash(d) then Some(d) else if |d| + 1 >= MAX_NAME then None else Some(d + [SLASH])
  }

  function EntryName(h: seq<u8>, dir: seq<u8>, name: seq<u8>): (r: Option<seq<u8>>)
    requires |h| >= 24 && BaseBytes(h) <= |h|
    requires h[20] != 2 ==> BaseBytes(h) >= 24 + h[21] as int
  {
    match BaseName(h)
    case None => None
    case Some(base) => FullName(base, MethodCode(h) == LHD, dir, name)
  }

  lemma {:induction false} SumStable(a: seq<u8>, b: seq<u8>, from: nat, end: nat)
    requires a <= b && from <= end <= |a|
    ensures ByteSum8(a, from, end) == ByteSum8(b, from, end)
    decreases end
  {
    if from < end { SumStable(a, b, from, end - 1); }
  }

  lemma {:induction false} FollowStable(a: seq<u8>, b: seq<u8>, pos: nat, size: u32, dir: seq<u8>, name: seq<u8>, total: nat)
    requires a <= b && !Follow(a, pos, size, dir, name, total).ChainNeedsWindow?
    ensures Follow(b, pos, size, dir, name, total) == Follow(a, pos, size, dir, name, total)
    decreases |a| - pos
  {
    if size >= 3 {
      assert a[pos + 1..pos + size - 2] == b[pos + 1..pos + size - 2];
      match Extend(a[pos], a[pos + 1..pos + size - 2], dir, name)
      case None =>
      case Some(x) => FollowStable(a, b, pos + size, Le16(a, pos + size - 2), x.0, x.1, total + size);
    }
  }

  lemma BaseStable(a: seq<u8>, b: seq<u8>)
    requires a <= b && |a| >= 24 && BaseBytes(a) <= |a|
    ensures BaseValid(a) == BaseValid(b)
  {
    if a[20] != 2 { SumStable(a, b, 2, 2 + a[0] as int); }
  }

  lemma MethodStable(a: seq<u8>, b: seq<u8>)
    requires a <= b && |a| >= 24
    ensures MethodCode(a) == MethodCode(b)
  {
    assert a[2..7] == b[2..7];
  }

  lemma NameStable(a: seq<u8>, b: seq<u8>, dir: seq<u8>, name: seq<u8>)
    requires a <= b && |a| >= 24 && BaseBytes(a) <= |a|
    requires a[20] != 2 ==> BaseBytes(a) >= 24 + a[21] as int
    ensures EntryName(a, dir, name) == EntryName(b, dir, name)
  {
    MethodStable(a, b);
    if a[20] != 2 { assert a[22..22 + a[21] as int] == b[22..22 + a[21] as int]; }
    assert BaseName(a) == BaseName(b);
  }

  lemma ConcludeStable(a: seq<u8>, b: seq<u8>, avail: u32, chain: Chain)
    requires a <= b && |a| >= 24 && BaseBytes(a) <= |a| && BaseValid(a) && BaseValid(b)
    ensures Conclude(a, avail, chain) == Conclude(b, avail, chain)
  {
    MethodStable(a, b);
    FieldsStable(a, b);
    match chain
    case Chain(dir, name, _, _) => NameStable(a, b, dir, name);
    case _ =>
  }

  lemma FieldsStable(a: seq<u8>, b: seq<u8>)
    requires a <= b && |a| >= 24 && BaseBytes(a) <= |a| && BaseValid(a)
    ensures a[20] == b[20] && Le32(a, 7) == Le32(b, 7) && Le32(a, 11) == Le32(b, 11)
    ensures CrcOffset(a) == CrcOffset(b) && CrcOffset(a) + 2 <= |a| && Le16(a, CrcOffset(a)) == Le16(b, CrcOffset(b))
  {
  }

  /** A verdict other than NEEDS_WINDOW never changes when the window grows. */
  lemma VerdictStable(a: seq<u8>, b: seq<u8>, avail: u32)
    requires a <= b && !Parse(a, avail).NeedsWindow?
    ensures Parse(b, avail) == Parse(a, avail)
  {
    if a[0] != 0 && a[20] <= 2 {
      BaseStable(a, b);
      if BaseValid(a) {
        ExtensionsStable(a, b);
        ConcludeStable(a, b, avail, Extensions(a));
      }
    }
  }

  lemma ExtensionsStable(a: seq<u8>, b: seq<u8>)
    requires a <= b && |a| >= 24 && BaseBytes(a) <= |a| && a[20] <= 2
    requires a[20] == 2 ==> BaseBytes(a) >= 26
    requires a[20] == 1 ==> BaseBytes(a) >= 27 + a[21] as int
    requires !Extensions(a).ChainNeedsWindow?
    ensures Extensions(a) == Extensions(b)
  {
    if a[20] == 1 {
      FollowStable(a, b, BaseBytes(a), Le16(a, 25 + a[21] as int), [], [], 0);
    } else if a[20] == 2 {
      FollowStable(a, b, 26, Le16(a, 24), [], [], 0);
    }
  }

  /** The chain moves forward by exactly the sizes it adds up, and stays inside the window. */
  lemma {:induction false} FollowEnd(h: seq<u8>, pos: nat, size: u32, dir: seq<u8>, name: seq<u8>, total: nat)
    requires pos <= |h|
    ensures var c := Follow(h, pos, size, dir, name, total);
      c.Chain? ==> pos <= c.end <= |h| && c.end - pos == c.total - total
    decreases |h| - pos
  {
    if 3 <= size <= |h| - pos {
      match Extend(h[pos], h[pos + 1..pos + size - 2], dir, name)
      case None =>
      case Some(x) => FollowEnd(h, pos + size, Le16(h, pos + size - 2), x.0, x.1, total + size);
    }
  }

  /** An accepted header lies inside the window and its data inside the archive. */
  lemma ParsedFits(h: seq<u8>, avail: u32)
    requires Parse(h, avail).Parsed?
    ensures var e := Parse(h, avail).entry;
      0 < e.dataOffset <= |h| && e.dataOffset <= avail && e.compressed <= avail - e.dataOffset
  {
    if h[20] == 1 {
      FollowEnd(h, BaseBytes(h), Le16(h, 25 + h[21] as int), [], [], 0);
    } else if h[20] == 2 {
      FollowEnd(h, 26, Le16(h, 24), [], [], 0);
    }
  }

  /** The checksum loop of `zz9k_archive_lha_header_checksum_valid`. */
  method HeaderChecksum(h: seq<u8>) returns (ok: bool)
    ensures ok == ChecksumValid(h)
  {
    if |h| < 24 || h[0] == 0 { return false; }
    if h[20] == 2 {
      var size := Le16(h, 0);
      return size >= 26 && size <= |h|;
    }
    if h[0] as int + 2 > |h| { return false; }
    var end := 2 + h[0] as int;
    var checksum: u8 := 0;
    for i := 2 to end
      invariant checksum == ByteSum8(h, 2, i)
    {
      checksum := Trunc8(checksum as int + h[i]);
    }
    ok := checksum == h[1];
  }

  /** The loop over extended headers. */
  method ReadChain(h: seq<u8>, start: nat, first: u32) returns (c: Chain)
    requires start <= |h|
    ensures c == Follow(h, start, first, [], [], 0)
  {
    var pos: nat, size: u32, total: nat := start, first, 0;
    var dir, name: seq<u8> := [], [];
    while size != 0
      invariant pos <= |h|
      invariant Follow(h, pos, size, dir, name, total) == Follow(h, start, first, [], [], 0)
      decreases |h| - pos + if size == 0 then 0 else 1
    {
      if size > |h| - pos { return ChainNeedsWindow; }
      if size < 3 { return ChainInvalid; }
      total := total + size;
      var next := Le16(h, pos + size - 2);
      match Extend(h[pos], h[pos + 1..pos + size - 2], dir, name) {
        case None => return ChainInvalid;
        case Some(x) => dir, name := x.0, x.1;
      }
      pos := pos + size;
      size := next;
    }
    c := Chain(dir, name, total, pos);
  }

  /** `zz9k_archive_lha_parse_header`. */
  method ParseHeader(h: seq<u8>, avail: u32) returns (v: Verdict)
    ensures v == Parse(h, avail)
  {
    if |h| < 24 { return NeedsWindow; }
    if h[0] == 0 || h[20] > 2 { return Invalid; }
    if BaseBytes(h) > |h| { return NeedsWindow; }
    var sum := HeaderChecksum(h);
    if HeaderSize(h) < MinimalBase(h[20]) || !sum || !MethodShaped(h) { return Invalid; }
    if h[20] != 2 && h[21] > HeaderSize(h) - MinimalBase(h[20]) { return Invalid; }
    var chain := Chain([], [], 0, BaseBytes(h));
    if h[20] == 1 {
      chain := ReadChain(h, BaseBytes(h), Le16(h, 25 + h[21] as int));
    } else if h[20] == 2 {
      chain := ReadChain(h, 26, Le16(h, 24));
    }
    v := Conclude(h, avail, chain);
  }
}
