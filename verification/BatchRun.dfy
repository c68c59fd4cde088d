/** One chunk of a batch (sdk/tools/zz9k-archive.c): filling the blob from the archive, in one read
    or member by member, and draining the output region. */
module BatchRun {
  import opened Words
  import opened BatchPlan
  import Lha
  import LhaWalk

  /** The members lie inside the archive and each starts after the one before it ends. */
  ghost predicate Increasing(m: seq<Member>, length: nat)
  {
    && (forall i :: 0 <= i < |m| ==> m[i].dataOffset + m[i].packed as int <= length)
    && forall i, j :: 0 <= i < j < |m| ==> m[i].dataOffset + m[i].packed as int <= m[j].dataOffset
  }

  /** The bytes of a member in the archive. */
  function DataOf(archive: seq<u8>, e: Member): (d: seq<u8>)
    requires e.dataOffset + e.packed as int <= |archive|
  {
    archive[e.dataOffset..e.dataOffset + e.packed as int]
  }

  /** The blob of members `a` to `b - 1`: their bytes one after another. */
  function BlobOf(archive: seq<u8>, m: seq<Member>, a: nat, b: nat): (d: seq<u8>)
    requires a <= b <= |m| && forall i :: 0 <= i < |m| ==> m[i].dataOffset + m[i].packed as int <= |archive|
    ensures |d| == Packed(m, a, b)
    decreases b
  {
    if a == b then [] else BlobOf(archive, m, a, b - 1) + DataOf(archive, m[b - 1])
  }

  const SLACK: int := 0x4_0000

  /** Where the archive is, and whether the read of the span, the read of member `i` of the chunk,
      and the copy of its bytes to the arena work. */
  datatype Source = Source(fileBacked: bool, spanRead: bool, memberRead: nat -> bool, copyOk: nat -> bool)

  /** From the start of the chunk's first member to the end of its last. */
  function SpanOf(m: seq<Member>, c: Chunk): (n: int)
    requires c.count > 0 && c.first + c.count <= |m|
  {
    m[c.first + c.count - 1].dataOffset as int + m[c.first + c.count - 1].packed - m[c.first].dataOffset as int
  }

  /** The chunk comes out of one read: the archive is a file, the span is little more than the
      members, and the read works. */
  predicate InOneRead(m: seq<Member>, c: Chunk, s: Source)
    requires c.count > 0 && c.first + c.count <= |m|
  {
    s.fileBacked && s.spanRead && 0 <= SpanOf(m, c) - c.blobLength as int <= SLACK
  }

  /** Member `i` of the chunk can be had, in the one read, from memory, without reading, or by a
      read of its own, and can be copied to the arena. */
  predicate Obtained(m: seq<Member>, c: Chunk, s: Source, i: nat)
    requires i < c.count && c.first + c.count <= |m|
  {
    (InOneRead(m, c, s) || !s.fileBacked || m[c.first + i].packed == 0 || s.memberRead(i)) && s.copyOk(i)
  }

  method Obtain(m: seq<Member>, c: Chunk, s: Source, i: nat, spanned: bool) returns (ok: bool)
    requires i < c.count && c.first + c.count <= |m| && spanned == InOneRead(m, c, s)
    ensures ok <==> Obtained(m, c, s, i)
  {
    if !spanned && s.fileBacked && m[c.first + i].packed != 0 && !s.memberRead(i) { return false; }
    ok := s.copyOk(i);
  }

  /** Filling the blob region: one span read when the members lie close together, else a read for
      each.  Both give the same blob. */
  method FillBlob(archive: seq<u8>, m: seq<Member>, c: Chunk, arena: array<u8>, blobOffset: nat, s: Source)
    returns (ok: bool)
    requires |archive| < TWO32 && Increasing(m, |archive|) && c.count > 0 && c.first + c.count <= |m|
    requires c.blobLength == Packed(m, c.first, c.first + c.count) && blobOffset + c.blobLength <= arena.Length
    modifies arena
    ensures ok <==> forall i :: 0 <= i < c.count ==> Obtained(m, c, s, i)
    ensures ok ==> arena[blobOffset..blobOffset + c.blobLength] == BlobOf(archive, m, c.first, c.first + c.count)
    ensures arena[..blobOffset] == old(arena[..blobOffset])
    ensures arena[blobOffset + c.blobLength..] == old(arena[blobOffset + c.blobLength..])
  {
    var spanned, buffer := ReadSpan(archive, m, c, s);
    ghost var low, high := arena[..blobOffset], arena[blobOffset + c.blobLength..];
    var blob: u32 := 0;
    for i := 0 to c.count
      invariant forall k :: 0 <= k < i ==> Obtained(m, c, s, k)
      invariant blob == Packed(m, c.first, c.first + i) <= c.blobLength
      invariant arena[blobOffset..blobOffset + blob] == BlobOf(archive, m, c.first, c.first + i)
      invariant arena[..blobOffset] == low && arena[blobOffset + c.blobLength..] == high
    {
      ok := Obtain(m, c, s, i, spanned);
      if !ok { return; }
      blob := AddMember(archive, m, c, i, spanned, buffer, arena, blobOffset, blob);
    }
    ok := true;
  }

  /** One turn of the fill loop. */
  method AddMember(archive: seq<u8>, m: seq<Member>, c: Chunk, i: nat, spanned: bool, buffer: seq<u8>,
                   arena: array<u8>, blobOffset: nat, blob: u32)
    returns (next: u32)
    requires |archive| < TWO32 && Increasing(m, |archive|) && c.first + c.count <= |m| && i < c.count
    requires spanned ==> Spans(archive, m, c, buffer)
    requires c.blobLength == Packed(m, c.first, c.first + c.count) && blobOffset + c.blobLength <= arena.Length
    requires blob == Packed(m, c.first, c.first + i) <= c.blobLength
    requires arena[blobOffset..blobOffset + blob] == BlobOf(archive, m, c.first, c.first + i)
    modifies arena
    ensures next == Packed(m, c.first, c.first + i + 1) <= c.blobLength
    ensures arena[blobOffset..blobOffset + next] == BlobOf(archive, m, c.first, c.first + i + 1)
    ensures arena[..blobOffset] == old(arena[..blobOffset])
    ensures arena[blobOffset + c.blobLength..] == old(arena[blobOffset + c.blobLength..])
  {
    var bytes := NextBytes(archive, m, c, i, spanned, buffer);
    next := Place(arena, blobOffset, blob, c.blobLength, bytes);
  }

  /** The bytes that member `i` adds to the blob. */
  method NextBytes(archive: seq<u8>, m: seq<Member>, c: Chunk, i: nat, spanned: bool, buffer: seq<u8>) returns (bytes: seq<u8>)
    requires |archive| < TWO32 && Increasing(m, |archive|) && c.first + c.count <= |m| && i < c.count
    requires spanned ==> Spans(archive, m, c, buffer)
    ensures Packed(m, c.first, c.first + i + 1) == Packed(m, c.first, c.first + i) + |bytes|
      <= Packed(m, c.first, c.first + c.count)
    ensures BlobOf(archive, m, c.first, c.first + i + 1) == BlobOf(archive, m, c.first, c.first + i) + bytes
  {
    PackedMonotone(m, c.first, c.first + i + 1, c.first + c.count);
    bytes := Fetch(archive, m, c, i, spanned, buffer);
    BlobStep(archive, m, c.first, c.first + i, bytes);
  }

  lemma BlobStep(archive: seq<u8>, m: seq<Member>, a: nat, b: nat, bytes: seq<u8>)
    requires a <= b < |m| && forall i :: 0 <= i < |m| ==> m[i].dataOffset + m[i].packed as int <= |archive|
    requires bytes == DataOf(archive, m[b])
    ensures |bytes| == m[b].packed && Packed(m, a, b + 1) == Packed(m, a, b) + m[b].packed
    ensures BlobOf(archive, m, a, b + 1) == BlobOf(archive, m, a, b) + bytes
  {
  }

  /** The archive from the chunk's first member to its last, if that is not much more than the members. */
  method ReadSpan(archive: seq<u8>, m: seq<Member>, c: Chunk, s: Source) returns (spanned: bool, buffer: seq<u8>)
    requires |archive| < TWO32 && Increasing(m, |archive|) && c.count > 0 && c.first + c.count <= |m|
    ensures spanned <==> InOneRead(m, c, s)
    ensures spanned ==> Spans(archive, m, c, buffer)
  {
    var spanStart: int := m[c.first].dataOffset;
    var spanEnd: int := m[c.first + c.count - 1].dataOffset as int + m[c.first + c.count - 1].packed;
    SpanOrder(m, |archive|, c.first, c.first + c.count - 1);
    var span: u32 := spanEnd - spanStart;
    spanned := s.fileBacked && span >= c.blobLength && span - c.blobLength as int <= SLACK && s.spanRead;
    buffer := if spanned then archive[spanStart..spanEnd] else [];
  }

  ghost predicate Spans(archive: seq<u8>, m: seq<Member>, c: Chunk, buffer: seq<u8>)
  {
    && c.count > 0 && c.first + c.count <= |m|
    && m[c.first].dataOffset <= m[c.first + c.count - 1].dataOffset as int + m[c.first + c.count - 1].packed <= |archive|
    && buffer == archive[m[c.first].dataOffset..m[c.first + c.count - 1].dataOffset as int + m[c.first + c.count - 1].packed]
  }

  /** A member's bytes, out of the span or read on their own. */
  method Fetch(archive: seq<u8>, m: seq<Member>, c: Chunk, i: nat, spanned: bool, buffer: seq<u8>) returns (bytes: seq<u8>)
    requires |archive| < TWO32 && Increasing(m, |archive|) && c.first + c.count <= |m| && i < c.count
    requires spanned ==> Spans(archive, m, c, buffer)
    ensures bytes == DataOf(archive, m[c.first + i])
  {
    var e := m[c.first + i];
    if spanned {
      SpanOrder(m, |archive|, c.first, c.first + i);
      SpanOrder(m, |archive|, c.first + i, c.first + c.count - 1);
      var start: int := m[c.first].dataOffset;
      bytes := buffer[e.dataOffset as int - start..e.dataOffset as int - start + e.packed];
      SliceOfSlice(archive, start, m[c.first + c.count - 1].dataOffset as int + m[c.first + c.count - 1].packed,
                   e.dataOffset, e.dataOffset as int + e.packed);
    } else {
      bytes := archive[e.dataOffset..e.dataOffset as int + e.packed];
    }
  }

  lemma SliceOfSlice(s: seq<u8>, a: int, b: int, x: int, y: int)
    requires 0 <= a <= x <= y <= b <= |s|
    ensures s[a..b][x - a..y - a] == s[x..y]
  {
    var t := s[a..b];
    assert |t[x - a..y - a]| == y - x;
    forall k | 0 <= k < y - x ensures t[x - a..y - a][k] == s[x..y][k] {
      assert t[x - a + k] == s[x + k];
    }
  }

  lemma SpanOrder(m: seq<Member>, length: nat, i: nat, j: nat)
    requires Increasing(m, length) && i <= j < |m|
    ensures m[i].dataOffset <= m[j].dataOffset && m[i].dataOffset + m[i].packed as int <= m[j].dataOffset + m[j].packed as int
  {
  }

  /** Copies `bytes` into the region of `size` bytes that starts at `start`, at offset `at`. */
  method Place(arena: array<u8>, start: nat, at: nat, size: u32, bytes: seq<u8>) returns (next: u32)
    requires at + |bytes| <= size && start + size <= arena.Length
    modifies arena
    ensures next == at + |bytes| && arena[start..start + next] == old(arena[start..start + at]) + bytes
    ensures arena[..start] == old(arena[..start])
    ensures arena[start + size..] == old(arena[start + size..])
  {
    for k := 0 to |bytes|
      invariant forall j :: 0 <= j < k ==> arena[start + at + j] == bytes[j]
      invariant forall j :: 0 <= j < start + at || start + at + k <= j < arena.Length ==> arena[j] == old(arena[j])
    {
      arena[start + at + k] := bytes[k];
    }
    next := at + |bytes|;
    PlacedSlices(old(arena[..]), arena[..], start, at, size, bytes);
  }

  lemma PlacedSlices(was: seq<u8>, now: seq<u8>, start: nat, at: nat, size: nat, bytes: seq<u8>)
    requires |was| == |now| && at + |bytes| <= size && start + size <= |now|
    requires forall j :: 0 <= j < |bytes| ==> now[start + at + j] == bytes[j]
    requires forall j :: 0 <= j < start + at || start + at + |bytes| <= j < |now| ==> now[j] == was[j]
    ensures now[start..start + at + |bytes|] == was[start..start + at] + bytes
    ensures now[..start] == was[..start] && now[start + size..] == was[start + size..]
  {
  }

  /** Each descriptor's source range holds its member's bytes. */
  lemma {:induction false} BlobAt(archive: seq<u8>, m: seq<Member>, c: Chunk, n: nat, i: nat)
    requires forall k :: 0 <= k < |m| ==> m[k].dataOffset + m[k].packed as int <= |archive|
    requires c.first + c.count <= |m| && i < n <= c.count && Packed(m, c.first, c.first + c.count) < TWO32
    ensures Packed(m, c.first, c.first + i) + m[c.first + i].packed <= Packed(m, c.first, c.first + n)
    ensures var d := DescOf(m, c, i);
      BlobOf(archive, m, c.first, c.first + n)[d.srcOffset..d.srcOffset as int + d.srcLength] == DataOf(archive, m[c.first + i])
  {
    if i < n - 1 {
      BlobAt(archive, m, c, n - 1, i);
    }
  }

  /** The drain loop recomputes the table's destination offsets. */
  method DrainOffsets(m: seq<Member>, c: Chunk, t: seq<Desc>) returns (at: seq<u32>)
    requires TableOf(m, c, t, c.count)
    ensures |at| == c.count && forall i :: 0 <= i < c.count ==> at[i] == t[i].dstOffset
  {
    at := [];
    var cursor: u32 := 0;
    for i := 0 to c.count
      invariant cursor == Trunc32(Unpacked(m, c.first, c.first + i))
      invariant |at| == i && forall k :: 0 <= k < i ==> at[k] == t[k].dstOffset
    {
      at := at + [cursor];
      WrapTwice(Unpacked(m, c.first, c.first + i), m[c.first + i].unpacked);
      cursor := Trunc32(cursor as int + m[c.first + i].unpacked);
    }
  }

  function MemberOf(e: Lha.Entry): (m: Member)
  {
    Member(e.dataOffset, e.compressed, e.uncompressed)
  }

  function MembersOf(e: seq<Lha.Entry>): (m: seq<Member>)
    ensures |m| == |e|
  {
    seq(|e|, i requires 0 <= i < |e| => MemberOf(e[i]))
  }

  lemma ConsIncreases(x: Member, rest: seq<Member>, length: nat)
    requires Increasing(rest, length) && x.dataOffset + x.packed as int <= length
    requires forall j :: 0 <= j < |rest| ==> x.dataOffset + x.packed as int <= rest[j].dataOffset
    ensures Increasing([x] + rest, length)
  {
    var m := [x] + rest;
    forall i, j | 0 <= i < j < |m| ensures m[i].dataOffset + m[i].packed as int <= m[j].dataOffset {
      assert m[j] == rest[j - 1];
      if i > 0 { assert m[i] == rest[i - 1]; }
    }
  }

  /** The members that the LHA walk lists come in increasing order. */
  lemma {:induction false} ListedIncrease(data: seq<u8>, pos: nat)
    requires pos <= |data| < TWO32
    ensures Increasing(MembersOf(LhaWalk.ListFrom(data, pos).entries), |data|)
    ensures forall i :: 0 <= i < |LhaWalk.ListFrom(data, pos).entries| ==> pos < LhaWalk.ListFrom(data, pos).entries[i].dataOffset
    decreases |data| - pos
  {
    if LhaWalk.ListFrom(data, pos).entries != [] {
      ListedCons(data, pos);
      var e := LhaWalk.Here(data, pos).entry;
      var next := LhaWalk.After(data, pos, e);
      ListedIncrease(data, next);
      var x, rest := LhaWalk.Placed(e, pos), LhaWalk.ListFrom(data, next).entries;
      forall j | 0 <= j < |rest| ensures x.dataOffset + x.compressed as int <= MembersOf(rest)[j].dataOffset { }
      ConsIncreases(MemberOf(x), MembersOf(rest), |data|);
      MembersCons(x, rest);
    }
  }

  lemma ListedCons(data: seq<u8>, pos: nat)
    requires pos <= |data| < TWO32 && LhaWalk.ListFrom(data, pos).entries != []
    ensures LhaWalk.Here(data, pos).Parsed?
    ensures var e := LhaWalk.Here(data, pos).entry;
      LhaWalk.ListFrom(data, pos).entries
        == [LhaWalk.Placed(e, pos)] + LhaWalk.ListFrom(data, LhaWalk.After(data, pos, e)).entries
  {
  }

  lemma MembersCons(x: Lha.Entry, rest: seq<Lha.Entry>)
    ensures MembersOf([x] + rest) == [MemberOf(x)] + MembersOf(rest)
  {
  }

  /** And so does every selection of them in order. */
  lemma SelectionIncreases(m: seq<Member>, length: nat, pick: seq<nat>, chosen: seq<Member>)
    requires Increasing(m, length) && |chosen| == |pick|
    requires forall i :: 0 <= i < |pick| ==> pick[i] < |m| && chosen[i] == m[pick[i]]
    requires forall i, j :: 0 <= i < j < |pick| ==> pick[i] < pick[j]
    ensures Increasing(chosen, length)
  {
  }
}
