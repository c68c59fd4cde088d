/** Feeding a compressed file to the decoder and reading its output back
    (sdk/tools/zz9k-archive.c).  The decoder may answer anything at all. */
module FeedLoop {
  import opened Words

  /** The answer to the `k`-th read: a status, the output window, how much of it is claimed to be
      filled, and the two flags. */
  datatype Answer = Answer(ok: bool, window: nat -> u8, written: u32, streamEnd: bool, needInput: bool)

  /** A decoder and its surroundings: each read's answer; whether the piece at an offset can be
      copied out of the prefix, read from the file and fed; and whether the output of the `k`-th
      read can be copied and consumed. */
  datatype World = World(answer: nat -> Answer, loadOk: nat -> bool, readOk: nat -> bool, feedOk: nat -> bool,
                         copyOk: nat -> bool, takeOk: nat -> bool)

  datatype Feed = Feed(bytes: seq<u8>, eof: bool)

  function FedBytes(fed: seq<Feed>): (b: seq<u8>)
  {
    if fed == [] then [] else FedBytes(fed[..|fed| - 1]) + fed[|fed| - 1].bytes
  }

  /** What has been fed is the stream's beginning, no feed is empty, and the end mark is on the
      feed that completes the stream and on no other. */
  ghost predicate InOrder(fed: seq<Feed>, stream: seq<u8>)
  {
    && FedBytes(fed) <= stream
    && forall i :: 0 <= i < |fed| ==> fed[i].bytes != [] && (fed[i].eof <==> FedBytes(fed[..i + 1]) == stream)
  }

  /** What a read contributes: as much of its window as it claims to have written. */
  function Chunk(a: Answer): (c: seq<u8>)
    ensures |c| == a.written
  {
    seq(a.written, i requires 0 <= i => a.window(i))
  }

  /** The output of the first `n` reads. */
  function Output(w: World, n: nat): (o: seq<u8>)
  {
    if n == 0 then [] else Output(w, n - 1) + Chunk(w.answer(n - 1))
  }

  /** The stream: the prefix and then `length` bytes of the file from `start` on.  Positions past
      the end of a file that is too short are never fed, because reading them fails. */
  function Stream(prefix: seq<u8>, file: seq<u8>, start: nat, length: u32): (r: seq<u8>)
    ensures |r| == |prefix| + length
  {
    prefix + seq(length, i requires 0 <= i < length => if start + i < |file| then file[start + i] else 0)
  }

  /** The file position that goes with an offset in the stream. */
  function FilePos(prefix: seq<u8>, start: nat, offset: nat): (p: nat)
  {
    start + if offset > |prefix| then offset - |prefix| else 0
  }

  /** A piece of the stream can be had: the prefix part copied, the file part read, and the file
      reaching far enough. */
  predicate PieceFine(w: World, file: seq<u8>, prefix: seq<u8>, start: nat, off: nat, n: nat)
  {
    && (off < |prefix| ==> w.loadOk(off))
    && (off + n > |prefix| ==> w.readOk(off) && start + (off + n - |prefix|) <= |file|)
  }

  /** `zz9k_archive_copy_feed_file_input_chunk`: the next bytes of prefix and file, in order. */
  method CopyChunk(w: World, buffer: array<u8>, file: seq<u8>, filePos: nat, prefix: seq<u8>, fileLength: u32,
                   inputOffset: u32, maxLength: u32, ghost start: nat)
    returns (ok: bool, copied: u32, newPos: nat)
    requires filePos == FilePos(prefix, start, inputOffset)
    modifies buffer
    ensures var total := |prefix| + fileLength;
      ok <==> (maxLength > 0 && inputOffset as int < total < TWO32
               && Least(total - inputOffset as int, maxLength) <= buffer.Length
               && PieceFine(w, file, prefix, start, inputOffset, Least(total - inputOffset as int, maxLength)))
    ensures ok ==> copied == Least(|prefix| + fileLength - inputOffset as int, maxLength) && copied <= buffer.Length
    ensures ok ==> buffer[..copied] == Stream(prefix, file, start, fileLength)[inputOffset..inputOffset as int + copied]
    ensures ok ==> newPos == FilePos(prefix, start, inputOffset as int + copied)
  {
    newPos := filePos;
    if maxLength == 0 || |prefix| > 0xFFFF_FFFF - fileLength as int { return false, 0, newPos; }
    var total: u32 := |prefix| + fileLength;
    if inputOffset >= total { return false, 0, newPos; }
    var remaining: u32 := total - inputOffset;
    if remaining > maxLength { remaining := maxLength; }
    if remaining > buffer.Length { return false, 0, newPos; }
    var first: u32 := if inputOffset >= |prefix| then 0 else Least(|prefix| - inputOffset as int, remaining);
    var rest: u32 := remaining - first;
    ok, newPos := LoadPiece(w, buffer, file, filePos, prefix, inputOffset, first, rest);
    if !ok { return false, 0, newPos; }
    StreamPiece(prefix, file, start, fileLength, inputOffset, first, rest);
    copied := remaining;
  }

  /** `first` bytes out of the prefix and then `rest` bytes out of the file. */
  method LoadPiece(w: World, buffer: array<u8>, file: seq<u8>, filePos: nat, prefix: seq<u8>, off: nat, first: nat, rest: nat)
    returns (ok: bool, newPos: nat)
    requires first + rest <= buffer.Length && (first > 0 ==> off + first <= |prefix|)
    modifies buffer
    ensures ok <==> (first > 0 ==> w.loadOk(off)) && (rest > 0 ==> w.readOk(off) && filePos + rest <= |file|)
    ensures ok ==> (buffer[..first + rest]
      == (if first > 0 then prefix[off..off + first] else []) + if rest > 0 then file[filePos..filePos + rest] else [])
    ensures newPos == if ok then filePos + rest else filePos
  {
    ok, newPos := false, filePos;
    if first != 0 {
      if !w.loadOk(off) { return; }
      Store(buffer, 0, prefix[off..off + first]);
    }
    ghost var head := buffer[..first];
    if rest != 0 {
      if !w.readOk(off) || filePos + rest > |file| { return; }
      Store(buffer, first, file[filePos..filePos + rest]);
      newPos := filePos + rest;
    }
    assert buffer[..first + rest] == head + buffer[first..first + rest];
    ok := true;
  }

  lemma StreamPiece(prefix: seq<u8>, file: seq<u8>, start: nat, length: u32, off: nat, first: nat, rest: nat)
    requires off + first + rest <= |prefix| + length && (first > 0 ==> off + first <= |prefix|)
    requires rest > 0 ==> off + first >= |prefix| && start + (off + first - |prefix|) + rest <= |file|
    ensures Stream(prefix, file, start, length)[off..off + first + rest]
      == (if first > 0 then prefix[off..off + first] else [])
        + if rest > 0 then file[start + (off + first - |prefix|)..start + (off + first - |prefix|) + rest] else []
  {
    var s, cut := Stream(prefix, file, start, length), off + first;
    SplitSlice(s, off, cut, cut + rest);
    FirstPart(prefix, file, start, length, off, first);
    RestPart(prefix, file, start, length, cut, rest);
  }

  lemma FirstPart(prefix: seq<u8>, file: seq<u8>, start: nat, length: u32, off: nat, first: nat)
    requires off + first <= |prefix| + length && (first > 0 ==> off + first <= |prefix|)
    ensures Stream(prefix, file, start, length)[off..off + first] == if first > 0 then prefix[off..off + first] else []
  {
    if first > 0 { PrefixPart(prefix, file, start, length, off, off + first); }
  }

  lemma RestPart(prefix: seq<u8>, file: seq<u8>, start: nat, length: u32, cut: nat, rest: nat)
    requires cut + rest <= |prefix| + length
    requires rest > 0 ==> cut >= |prefix| && start + (cut - |prefix|) + rest <= |file|
    ensures Stream(prefix, file, start, length)[cut..cut + rest]
      == if rest > 0 then file[start + (cut - |prefix|)..start + (cut - |prefix|) + rest] else []
  {
    if rest > 0 { FilePart(prefix, file, start, length, cut - |prefix|, rest); }
  }

  lemma SplitSlice(s: seq<u8>, a: nat, b: nat, c: nat)
    requires a <= b <= c <= |s|
    ensures s[a..c] == s[a..b] + s[b..c]
  {
  }

  lemma PrefixPart(prefix: seq<u8>, file: seq<u8>, start: nat, length: u32, a: nat, b: nat)
    requires a <= b <= |prefix|
    ensures Stream(prefix, file, start, length)[a..b] == prefix[a..b]
  {
  }

  lemma FilePart(prefix: seq<u8>, file: seq<u8>, start: nat, length: u32, a: nat, n: nat)
    requires a + n <= length && start + a + n <= |file|
    ensures Stream(prefix, file, start, length)[|prefix| + a..|prefix| + a + n] == file[start + a..start + a + n]
  {
    var s, x := Stream(prefix, file, start, length), |prefix| + a;
    var t, u := s[x..x + n], file[start + a..start + a + n];
    forall k | 0 <= k < n ensures t[k] == u[k] {
      assert t[k] == s[x + k] && u[k] == file[start + a + k];
    }
  }

  method Store(buffer: array<u8>, at: nat, bytes: seq<u8>)
    requires at + |bytes| <= buffer.Length
    modifies buffer
    ensures buffer[at..at + |bytes|] == bytes && buffer[..at] == old(buffer[..at])
  {
    for i := 0 to |bytes|
      invariant buffer[at..at + i] == bytes[..i] && buffer[..at] == old(buffer[..at])
    {
      buffer[at + i] := bytes[i];
    }
  }

  lemma InOrderGrows(fed: seq<Feed>, stream: seq<u8>, off: nat, b: seq<u8>)
    requires off + |b| <= |stream| && |b| > 0 && b == stream[off..off + |b|]
    requires InOrder(fed, stream) && FedBytes(fed) == stream[..off]
    ensures var more := fed + [Feed(b, off + |b| == |stream|)];
      InOrder(more, stream) && FedBytes(more) == stream[..off + |b|]
  {
    var more := fed + [Feed(b, off + |b| == |stream|)];
    assert more[..|fed|] == fed;
    assert FedBytes(more) == stream[..off + |b|];
    forall i | 0 <= i < |more| ensures more[i].bytes != [] && (more[i].eof <==> FedBytes(more[..i + 1]) == stream) {
      if i < |fed| { assert more[..i + 1] == fed[..i + 1]; } else { assert more[..i + 1] == more; }
    }
  }

  /** A job for the loop: the prefix and the part of the file it decodes, the most output it may
      give, and the size of its two buffers. */
  datatype Job = Job(w: World, file: seq<u8>, prefix: seq<u8>, start: nat, length: u32, limit: u32, buffer: u32)

  function Total(job: Job): (n: nat)
  {
    |job.prefix| + job.length
  }

  function StreamOf(job: Job): (s: seq<u8>)
    ensures |s| == Total(job)
  {
    Stream(job.prefix, job.file, job.start, job.length)
  }

  /** Feed `j` starts `j` full buffers into the stream. */
  function FeedOffset(job: Job, j: nat): (off: nat)
  {
    j * job.buffer
  }

  /** Feed `j` starts inside the stream, its piece can be had, and the decoder takes it. */
  predicate FeedFine(job: Job, j: nat)
  {
    var off := FeedOffset(job, j);
    && 0 < job.buffer && off < Total(job)
    && PieceFine(job.w, job.file, job.prefix, job.start, off, Least(Total(job) - off, job.buffer)) && job.w.feedOk(off)
  }

  /** Read `k` succeeds within its buffer and the output limit, and its output is taken. */
  predicate ReadFine(job: Job, k: nat)
  {
    var a := job.w.answer(k);
    && a.ok && a.written <= job.buffer && |Output(job.w, k + 1)| <= job.limit
    && (a.written != 0 ==> job.w.copyOk(k) && job.w.takeOk(k))
  }

  /** The decoder is not done after read `k`, and either wrote something or asks for input. */
  predicate GoesOn(w: World, k: nat)
  {
    var a := w.answer(k);
    !a.streamEnd && (a.needInput || a.written != 0)
  }

  /** How many feeds come before read `k`: the first one, and one for every request. */
  function Feeds(w: World, k: nat): (n: nat)
    ensures n >= 1
  {
    if k == 0 then 1 else Feeds(w, k - 1) + if w.answer(k - 1).needInput then 1 else 0
  }

  lemma {:induction false} FeedsMonotone(w: World, j: nat, k: nat)
    requires j <= k
    ensures Feeds(w, j) <= Feeds(w, k)
    decreases k
  {
    if j < k { FeedsMonotone(w, j, k - 1); }
  }

  /** The first `k` reads are fine and go on, and the first `feeds` feeds are fine. */
  ghost predicate FineSoFar(job: Job, k: nat, feeds: nat)
  {
    && (forall i :: 0 <= i < k ==> ReadFine(job, i) && GoesOn(job.w, i))
    && forall j :: 0 <= j < feeds ==> FeedFine(job, j)
  }

  /** Decoding ends well with read `n`: that read reports the end, it and all reads before it are
      fine, those before it go on, and so many feeds as they ask for are fine. */
  ghost predicate EndsWith(job: Job, n: nat)
  {
    job.w.answer(n).streamEnd && ReadFine(job, n) && FineSoFar(job, n, Feeds(job.w, n))
  }

  ghost predicate EndsWell(job: Job)
  {
    exists n: nat :: EndsWith(job, n)
  }

  /** The job is one the loop takes on at all. */
  predicate Startable(job: Job)
  {
    0 < Total(job) < TWO32 && job.limit > 0 && job.start <= 0x7FFF_FFFF
  }

  /** A read that is not fine, or a feed before it, or no progress after it, and decoding does not
      end well. */
  lemma NeverEndsWell(job: Job, k: nat, feeds: nat)
    requires FineSoFar(job, k, 0)
    requires !ReadFine(job, k) || !(job.w.answer(k).streamEnd || GoesOn(job.w, k))
      || (feeds < Feeds(job.w, k) && !FeedFine(job, feeds))
    ensures !EndsWell(job)
  {
    forall n: nat ensures !EndsWith(job, n) {
      if EndsWith(job, n) { EndsLater(job, k, n); }
    }
  }

  /** If decoding ends well then not before read `k`, when all reads before that go on. */
  lemma EndsLater(job: Job, k: nat, n: nat)
    requires FineSoFar(job, k, 0) && EndsWith(job, n)
    ensures n >= k && ReadFine(job, k) && (job.w.answer(k).streamEnd || GoesOn(job.w, k))
    ensures forall j :: 0 <= j < Feeds(job.w, k) ==> FeedFine(job, j)
  {
    if n >= k { FeedsMonotone(job.w, k, n); }
  }

  /** `zz9k_archive_decompress_feed_file_parts_core`: feeds and reads until the decoder reports the
      end of the stream.  It ends for every decoder, because each turn uses up input, or output
      space, or the right to read without feeding. */
  method Decompress(job: Job) returns (ok: bool, out: seq<u8>, ghost fed: seq<Feed>, ghost readCount: nat)
    ensures ok <==> Startable(job) && EndsWell(job)
    ensures ok ==> readCount > 0 && EndsWith(job, readCount - 1) && |fed| == Feeds(job.w, readCount - 1)
    ensures InOrder(fed, StreamOf(job))
    ensures out == Output(job.w, readCount) && |out| <= job.limit
    ensures forall k :: 0 <= k < readCount - 1 ==> GoesOn(job.w, k)
  {
    out, fed, readCount := [], [], 0;
    ok := false;
    if |job.prefix| > 0xFFFF_FFFF - job.length as int { return; }
    var total: u32 := |job.prefix| + job.length;
    if total == 0 || job.limit == 0 || job.start > 0x7FFF_FFFF { return; }
    ok, out, fed, readCount := Run(job);
  }

  /** Where the loop stands before read `k`. */
  ghost predicate Going(job: Job, k: nat, needInput: bool, offset: nat, filePos: nat, fed: seq<Feed>)
  {
    && Fed(job, offset, filePos, fed) && FineSoFar(job, k, |fed|)
    && |fed| == if needInput then Feeds(job.w, k) - 1 else Feeds(job.w, k)
  }

  lemma AfterRead(job: Job, k: nat, offset: nat, filePos: nat, fed: seq<Feed>)
    requires Going(job, k, false, offset, filePos, fed) && ReadFine(job, k)
    ensures if job.w.answer(k).streamEnd then EndsWith(job, k)
      else GoesOn(job.w, k) ==> Going(job, k + 1, job.w.answer(k).needInput, offset, filePos, fed)
  {
  }

  /** The feed that the decoder asks for before read `k`. */
  method Supply(job: Job, input: array<u8>, ghost k: nat, offset: u32, filePos: nat, ghost fed: seq<Feed>)
    returns (fine: bool, newOffset: u32, newPos: nat, ghost grown: seq<Feed>)
    requires Startable(job) && input.Length == job.buffer && Going(job, k, true, offset, filePos, fed)
    modifies input
    ensures InOrder(grown, StreamOf(job))
    ensures fine ==> newOffset > offset && Going(job, k, false, newOffset, newPos, grown)
    ensures !fine ==> !EndsWell(job)
  {
    fine, newOffset, newPos, grown := FeedMore(job, input, offset, filePos, fed);
    if !fine { NeverEndsWell(job, k, |fed|); }
  }

  /** The loop. */
  method Run(job: Job) returns (ok: bool, out: seq<u8>, ghost fed: seq<Feed>, ghost readCount: nat)
    requires Startable(job)
    ensures ok <==> EndsWell(job)
    ensures ok ==> readCount > 0 && EndsWith(job, readCount - 1) && |fed| == Feeds(job.w, readCount - 1)
    ensures InOrder(fed, StreamOf(job))
    ensures out == Output(job.w, readCount) && |out| <= job.limit
    ensures forall k :: 0 <= k < readCount - 1 ==> GoesOn(job.w, k)
  {
    ok, out, fed, readCount := false, [], [], 0;
    var input := new u8[job.buffer];
    var offset: u32, filePos: nat, needInput, k := 0, job.start, true, 0;
    while true
      invariant Going(job, k, needInput, offset, filePos, fed)
      invariant out == Output(job.w, readCount) && |out| <= job.limit && k == readCount
      decreases Total(job) - offset as int, job.limit - |out|, if needInput then 0 else 1
    {
      var fine;
      if needInput {
        fine, offset, filePos, fed := Supply(job, input, k, offset, filePos, fed);
        if !fine { return; }
        needInput := false;
      }
      fine, out := ReadMore(job, k, out);
      if !fine {
        NeverEndsWell(job, k, 0);
        return;
      }
      AfterRead(job, k, offset, filePos, fed);
      k := k + 1;
      readCount := k;
      if job.w.answer(k - 1).streamEnd {
        ok := true;
        return;
      }
      if job.w.answer(k - 1).needInput { needInput := true; }
    }
  }

  /** The checks on the answer to read `k`, and the copying and consuming of its output. */
  method ReadMore(job: Job, k: nat, out: seq<u8>) returns (fine: bool, more: seq<u8>)
    requires out == Output(job.w, k) && |out| <= job.limit
    ensures fine <==> ReadFine(job, k) && (job.w.answer(k).streamEnd || GoesOn(job.w, k))
    ensures more == (if fine then Output(job.w, k + 1) else out) && |more| <= job.limit
    ensures |more| == |out| + if fine then job.w.answer(k).written else 0
  {
    var a := job.w.answer(k);
    fine, more := false, out;
    assert Output(job.w, k + 1) == out + Chunk(a);
    if !a.ok || a.written > job.buffer || a.written > job.limit - |out| { return; }
    if a.written != 0 {
      if !job.w.copyOk(k) || !job.w.takeOk(k) { return; }
      more := out + Chunk(a);
    }
    fine := a.streamEnd || a.needInput || a.written != 0;
  }

  /** The feeds so far are the stream up to `offset`, which is that many full buffers on, or the
      stream's end. */
  ghost predicate Fed(job: Job, offset: nat, filePos: nat, fed: seq<Feed>)
  {
    && offset == Least(FeedOffset(job, |fed|), Total(job)) && filePos == FilePos(job.prefix, job.start, offset)
    && InOrder(fed, StreamOf(job)) && FedBytes(fed) == StreamOf(job)[..offset]
  }

  /** The piece at `offset` as a feed, with the end mark if it is the last. */
  function FeedAt(job: Job, offset: nat): (f: Feed)
    requires offset <= Total(job)
  {
    var n := Least(Total(job) - offset, job.buffer);
    Feed(StreamOf(job)[offset..offset + n], offset + n == Total(job))
  }

  /** One feed.  A decoder that refuses it has been handed the piece all the same. */
  method FeedMore(job: Job, input: array<u8>, offset: u32, filePos: nat, ghost fed: seq<Feed>)
    returns (ok: bool, newOffset: u32, newPos: nat, ghost grown: seq<Feed>)
    requires Total(job) < TWO32 && input.Length == job.buffer && Fed(job, offset, filePos, fed)
    modifies input
    ensures ok <==> FeedFine(job, |fed|)
    ensures grown == fed + (if |grown| > |fed| then [FeedAt(job, offset)] else []) && InOrder(grown, StreamOf(job))
    ensures ok ==> |grown| > |fed| && newOffset > offset && Fed(job, newOffset, newPos, grown)
  {
    ok, newOffset, newPos, grown := false, offset, filePos, fed;
    var total: u32 := |job.prefix| + job.length;
    FullBuffers(job, offset, |fed|);
    if offset >= total { return; }
    var feedLen: u32 := total - offset;
    if feedLen > input.Length { feedLen := input.Length; }
    var copied;
    ok, copied, newPos := CopyChunk(job.w, input, job.file, filePos, job.prefix, job.length, offset, feedLen, job.start);
    if !ok { return; }
    var eof := offset as int + copied == total;
    FedGrows(job, offset, filePos, fed, newPos);
    grown := fed + [Feed(input[..copied], eof)];
    if !job.w.feedOk(offset) { return false, newOffset, newPos, grown; }
    newOffset := offset as int + copied;
  }

  lemma FedGrows(job: Job, offset: nat, filePos: nat, fed: seq<Feed>, newPos: nat)
    requires Fed(job, offset, filePos, fed) && offset < Total(job) && job.buffer > 0
    requires newPos == FilePos(job.prefix, job.start, offset + Least(Total(job) - offset, job.buffer))
    ensures var more := fed + [FeedAt(job, offset)];
      InOrder(more, StreamOf(job)) && Fed(job, offset + Least(Total(job) - offset, job.buffer), newPos, more)
  {
    var n := Least(Total(job) - offset, job.buffer);
    var s := StreamOf(job);
    InOrderGrows(fed, s, offset, s[offset..offset + n]);
    assert FeedAt(job, offset) == Feed(s[offset..offset + n], offset + n == |s|);
    FullBuffers(job, offset, |fed|);
  }

  lemma FullBuffers(job: Job, offset: nat, feeds: nat)
    requires offset == Least(FeedOffset(job, feeds), Total(job))
    ensures offset < Total(job) ==> offset == FeedOffset(job, feeds)
    ensures offset < Total(job) ==>
      Least(FeedOffset(job, feeds + 1), Total(job)) == offset + Least(Total(job) - offset, job.buffer)
    ensures offset == Total(job) ==> !FeedFine(job, feeds)
  {
    assert (feeds + 1) * job.buffer == feeds * job.buffer + job.buffer;
  }
}
