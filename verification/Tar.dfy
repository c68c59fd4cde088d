/** The push-style tar stream (sdk/tools/zz9k-archive.c): header, payload and padding states fed
    by chunks of any size.  Header and PAX parsing, and what happens to an entry outside the
    stream, are parameters. */
module Tar {
  import opened Words
  import opened Names
  import opened TarNames

  const BLOCK: nat := 512
  const MAX_PAX: u32 := 65536

  /** A C string that fits the name buffer. */
  type CName = s: seq<u8> | NoZero(s) && |s| <= LIMIT witness []

  datatype Kind = Plain | LongName | Pax

  datatype Header = Header(name: seq<u8>, size: u32, kind: Kind, skip: bool, isDir: bool)

  datatype PaxInfo = PaxInfo(path: Option<CName>, pathSkip: bool, size: Option<u32>)

  /** What the extractor does with an entry that is not skipped.  An entry is refused before it is
      counted, and may fail to be opened after it is. */
  datatype Action = Filtered | Refused | Listed | Unopened | Extracted

  /** The surroundings: the two parsers, the verdict on each entry, and whether the staged output
      of the `k`-th entry can be moved into place. */
  datatype World = World(parseHeader: seq<u8> -> Option<Header>, parsePax: seq<u8> -> Option<PaxInfo>,
                         decide: (Header, nat) -> Action, commit: nat -> bool)

  datatype Event = Counted(header: Header) | Written(name: seq<u8>, bytes: seq<u8>)

  datatype State = State(header: seq<u8>, entry: Header, file: Option<seq<u8>>, collected: Collected, ended: bool,
                         pax: seq<u8>, pendingSize: Option<u32>, nameSkip: bool, remaining: nat, padding: nat,
                         count: nat, log: seq<Event>, ok: bool, done: bool)

  const START: State := State([], Header([], 0, Plain, true, false), None, Collected([], false), false,
                              [], None, false, 0, 0, 0, [], true, false)

  predicate Inv(s: State)
  {
    && NameOk(s.collected) && (s.ok ==> |s.header| < BLOCK)
    && (s.ok && s.remaining == 0 ==> s.file == None && !s.collected.overflow)
    && (s.ok && s.collected.overflow ==> s.entry.kind == LongName)
  }

  predicate Live(s: State)
  {
    s.ok && !s.done
  }

  /** `zz9k_archive_tar_normalize_name`. */
  function DropAllDots(s: seq<u8>): (r: seq<u8>)
    ensures |r| <= |s| && forall x :: x in r ==> x in s
  {
    if |s| >= 2 && s[0] == DOT && s[1] == SLASH then DropAllDots(s[2..]) else s
  }

  lemma {:induction false} CollapseKeeps(s: seq<u8>)
    ensures forall x :: x in Collapse(s) ==> x in s
    decreases |s|
  {
    if s == [] {
    } else if |s| >= 2 && s[0] == SLASH && s[1] == SLASH {
      CollapseKeeps([SLASH] + s[2..]);
    } else if |s| >= 3 && s[0] == SLASH && s[1] == DOT && s[2] == SLASH {
      CollapseKeeps([SLASH] + s[3..]);
    } else {
      CollapseKeeps(s[1..]);
    }
  }

  lemma {:induction false} DotsKeep(s: seq<u8>)
    ensures forall x :: x in DropDots(s) ==> x in s
  {
    if |s| > 2 && s[0] == DOT && s[1] == SLASH { DotsKeep(s[2..]); }
  }

  function Normalize(name: CName): (r: (CName, bool))
  {
    var d := DropAllDots(name);
    var n := Strip(d);
    DotsKeep(d);
    CollapseKeeps(DropDots(d));
    assert forall i :: 0 <= i < |n| ==> n[i] in name;
    if n == [] || n == [DOT] then ([], true) else (n, false)
  }

  /** The end of a PAX record's payload. */
  function ApplyPax(s: State, p: PaxInfo): (r: State)
    requires NameOk(s.collected) && !s.collected.overflow
    ensures NameOk(r.collected) && !r.collected.overflow && r.file == s.file && r.header == s.header
    ensures r.remaining == s.remaining && r.padding == s.padding && r.ok == s.ok && r.done == s.done
  {
    var t := match p.path
      case None => s
      case Some(path) =>
        if p.pathSkip then s.(collected := Collected([], s.collected.overflow), nameSkip := true)
        else s.(collected := Collected(path, s.collected.overflow), nameSkip := false);
    match p.size
    case None => t
    case Some(n) => t.(pendingSize := Some(n))
  }

  /** `zz9k_archive_tar_stream_close_file`: a complete member replaces its destination. */
  function CloseFile(w: World, s: State): (r: State)
    ensures r.file == None && r.collected == s.collected && r.header == s.header && r.remaining == s.remaining
    ensures r.padding == s.padding && r.done == s.done && (r.ok ==> s.ok)
  {
    match s.file
    case None => s
    case Some(bytes) =>
      if w.commit(s.count) then s.(file := None, log := s.log + [Written(s.entry.name, bytes)])
      else s.(file := None, ok := false)
  }

  /** What happens when the last payload byte has arrived. */
  function EndOfPayload(w: World, s: State): (r: State)
    requires NameOk(s.collected) && |s.header| < BLOCK && s.remaining == 0
    requires s.entry.kind != LongName ==> !s.collected.overflow
    ensures Inv(r) && r.header == s.header && r.remaining == 0 && r.padding == s.padding && r.done == s.done
    ensures Sound(s.collected) ==> Sound(r.collected)
  {
    if s.entry.kind == LongName then
      if s.collected.overflow then s.(ok := false)
      else
        var n := Normalize(s.collected.name);
        CloseFile(w, s.(collected := Collected(n.0, false), nameSkip := n.1))
    else if s.entry.kind == Pax then
      match w.parsePax(s.pax)
      case None => s.(ok := false)
      case Some(p) => CloseFile(w, ApplyPax(s, p))
    else CloseFile(w, s)
  }

  /** The size and name that pending records give to an ordinary entry. */
  function WithPending(s: State, h: Header): (r: State)
  {
    if h.kind != Plain then s.(entry := h)
    else
      var size := match s.pendingSize case None => h.size case Some(n) => n;
      var named :=
        if s.nameSkip then h.(skip := true, size := size)
        else if s.collected.name != [] then h.(name := s.collected.name, size := size)
        else h.(size := size);
      s.(entry := named, pendingSize := None, nameSkip := false, collected := Collected([], s.collected.overflow))
  }

  /** The entry is counted and listed or opened, unless it is skipped, filtered or refused. */
  function Admit(w: World, u: State): (r: State)
    requires u.file == None && u.entry.size == u.remaining
    ensures r.collected == u.collected && r.header == u.header && r.entry == u.entry && r.remaining == u.remaining
    ensures r.padding == u.padding && r.done == u.done && (r.ok ==> u.ok) && (r.remaining == 0 ==> r.file == None)
  {
    if u.entry.skip || u.entry.kind != Plain then u
    else match w.decide(u.entry, u.count)
      case Filtered => u
      case Refused => u.(ok := false)
      case Listed => u.(count := u.count + 1, log := u.log + [Counted(u.entry)])
      case Unopened => u.(count := u.count + 1, log := u.log + [Counted(u.entry)], ok := false)
      case Extracted =>
        var v := u.(count := u.count + 1, log := u.log + [Counted(u.entry)]);
        if u.entry.isDir || u.entry.size == 0 then v.(log := v.log + [Written(u.entry.name, [])])
        else v.(file := Some([]))
  }

  /** The header that starts an entry's payload and padding. */
  function BeginPayload(s: State, h: Header): (r: State)
    requires NameOk(s.collected) && !s.collected.overflow
    ensures NameOk(r.collected) && !r.collected.overflow && r.header == [] && r.file == s.file
    ensures r.remaining == r.entry.size && (r.remaining + r.padding) % BLOCK == 0 && r.ok == s.ok && r.done == s.done
  {
    var t := WithPending(s, h);
    t.(header := [], remaining := t.entry.size, pax := [], ended := false,
       padding := (BLOCK - t.entry.size % BLOCK) % BLOCK)
  }

  /** `zz9k_archive_tar_stream_start_entry`. */
  function StartEntry(w: World, s: State): (r: State)
    requires NameOk(s.collected) && !s.collected.overflow && s.file == None && s.remaining == 0
    ensures Inv(r) && (Live(r) ==> r.header == [] && (r.remaining + r.padding) % BLOCK == 0)
    ensures !r.collected.overflow
  {
    if forall i :: 0 <= i < |s.header| ==> s.header[i] == 0 then s.(done := true, header := [])
    else match w.parseHeader(s.header)
      case None => s.(ok := false)
      case Some(h) =>
        var u := BeginPayload(s, h);
        if u.entry.kind == Pax && u.entry.size > MAX_PAX then u.(ok := false) else Admit(w, u)
  }

  /** The payload bytes `d`, with the long name read byte by byte. */
  function TakePayload(s: State, d: seq<u8>): (r: State)
    requires NameOk(s.collected) && |d| <= s.remaining
    ensures NameOk(r.collected) && r.header == s.header && r.remaining == s.remaining - |d|
    ensures Sound(s.collected) ==> Sound(r.collected)
    ensures r.entry == s.entry && r.ok == s.ok && r.done == s.done
    ensures s.entry.kind != LongName ==> r.collected == s.collected
  {
    var t := s.(remaining := s.remaining - |d|);
    if s.entry.kind == LongName then
      var n := Scan(s.collected, s.ended, d);
      t.(collected := n.0, ended := n.1)
    else if s.entry.kind == Pax then t.(pax := s.pax + d)
    else match s.file
      case None => t
      case Some(f) => t.(file := Some(f + d))
  }

  function CloseIfComplete(w: World, s: State): (r: State)
    requires NameOk(s.collected) && |s.header| < BLOCK
    requires s.entry.kind != LongName ==> !s.collected.overflow
    ensures Inv(r) && (Sound(s.collected) ==> Sound(r.collected))
  {
    if s.remaining == 0 then EndOfPayload(w, s) else s
  }

  function TakeHeader(w: World, s: State, d: seq<u8>): (r: State)
    requires Inv(s) && Live(s) && s.remaining == 0 && |s.header| + |d| <= BLOCK
    ensures Inv(r) && !r.collected.overflow
  {
    var t := s.(header := s.header + d);
    if |t.header| == BLOCK then StartEntry(w, t) else t
  }

  /** One byte of the stream. */
  function Byte1(w: World, s: State, c: u8): (r: State)
    requires Inv(s)
    ensures Inv(r) && (Sound(s.collected) ==> Sound(r.collected))
  {
    if !Live(s) then s
    else if s.remaining > 0 then CloseIfComplete(w, TakePayload(s, [c]))
    else if s.padding > 0 then s.(padding := s.padding - 1)
    else TakeHeader(w, s, [c])
  }

  /** The stream as a machine that is fed byte by byte. */
  function Fold(w: World, s: State, data: seq<u8>): (r: State)
    requires Inv(s)
    ensures Inv(r) && (Sound(s.collected) ==> Sound(r.collected))
    decreases |data|
  {
    if data == [] then s else Fold(w, Byte1(w, s, data[0]), data[1..])
  }

  /** Only zeros follow the name inside every long-name record, unless the name is too long. */
  predicate NamesPadded(w: World, s: State, data: seq<u8>)
    requires Inv(s)
    decreases |data|
  {
    data == [] ||
    ((Live(s) && s.remaining > 0 && s.entry.kind == LongName && s.ended && !s.collected.overflow ==> data[0] == 0)
     && NamesPadded(w, Byte1(w, s, data[0]), data[1..]))
  }

  /** Feeding `a` and then `b` is feeding `a + b`. */
  lemma {:induction false} FoldAppend(w: World, s: State, a: seq<u8>, b: seq<u8>)
    requires Inv(s)
    ensures Fold(w, s, a + b) == Fold(w, Fold(w, s, a), b)
    ensures NamesPadded(w, s, a + b) <==> NamesPadded(w, s, a) && NamesPadded(w, Fold(w, s, a), b)
    decreases |a|
  {
    if a == [] {
      assert a + b == b;
    } else {
      assert (a + b)[0] == a[0] && (a + b)[1..] == a[1..] + b;
      FoldAppend(w, Byte1(w, s, a[0]), a[1..], b);
    }
  }

  lemma PayloadSplits(s: State, c: u8, d: seq<u8>)
    requires NameOk(s.collected) && 1 + |d| <= s.remaining
    ensures TakePayload(s, [c] + d) == TakePayload(TakePayload(s, [c]), d)
  {
    if s.entry.kind == LongName {
      ScanAppend(s.collected, s.ended, [c], d);
    } else if s.entry.kind == Pax {
      assert s.pax + ([c] + d) == s.pax + [c] + d;
    } else if s.file.Some? {
      assert s.file.value + ([c] + d) == s.file.value + [c] + d;
    }
  }

  /** A stretch of payload at once is its bytes one after another. */
  lemma {:induction false} PayloadAtOnce(w: World, s: State, d: seq<u8>)
    requires Inv(s) && Live(s) && 0 < |d| <= s.remaining
    ensures Fold(w, s, d) == CloseIfComplete(w, TakePayload(s, d))
    decreases |d|
  {
    assert d == [d[0]] + d[1..];
    if |d| > 1 {
      PayloadSplits(s, d[0], d[1..]);
      assert Byte1(w, s, d[0]) == TakePayload(s, [d[0]]);
      PayloadAtOnce(w, TakePayload(s, [d[0]]), d[1..]);
    } else {
      assert d == [d[0]];
    }
  }

  lemma {:induction false} PaddingAtOnce(w: World, s: State, d: seq<u8>)
    requires Inv(s) && Live(s) && s.remaining == 0 && |d| <= s.padding
    ensures Fold(w, s, d) == s.(padding := s.padding - |d|)
    decreases |d|
  {
    if d != [] { PaddingAtOnce(w, s.(padding := s.padding - 1), d[1..]); }
  }

  lemma {:induction false} HeaderAtOnce(w: World, s: State, d: seq<u8>)
    requires Inv(s) && Live(s) && s.remaining == 0 && s.padding == 0 && 0 < |d| <= BLOCK - |s.header|
    ensures Fold(w, s, d) == TakeHeader(w, s, d)
    decreases |d|
  {
    if |d| > 1 {
      HeaderAtOnce(w, s.(header := s.header + [d[0]]), d[1..]);
      assert s.header + [d[0]] + d[1..] == s.header + d;
    } else {
      assert d == [d[0]];
    }
  }

  lemma {:induction false} StoppedAtOnce(w: World, s: State, d: seq<u8>)
    requires Inv(s) && !Live(s)
    ensures Fold(w, s, d) == s
    decreases |d|
  {
    if d != [] { StoppedAtOnce(w, s, d[1..]); }
  }

  /** Inside a padded stream each stretch of a long-name record is padded. */
  lemma {:induction false} StretchIsPadded(w: World, s: State, d: seq<u8>)
    requires Inv(s) && Sound(s.collected) && Live(s) && |d| <= s.remaining && s.entry.kind == LongName
    requires NamesPadded(w, s, d)
    ensures Padded(s.collected, s.ended, d)
    decreases |d|
  {
    CStringFacts(d);
    if |d| > 1 {
      StretchIsPadded(w, Byte1(w, s, d[0]), d[1..]);
      ScanIs(s.collected, s.ended, [d[0]]);
      CStringFacts([d[0]]);
    }
  }

  /** The payload bytes `d` as the code takes them: a long name grows by a whole stretch at once. */
  function AppendPayload(s: State, d: seq<u8>): (r: State)
    requires NameOk(s.collected) && |d| <= s.remaining
    ensures NameOk(r.collected) && r.header == s.header && r.entry == s.entry
    ensures s.entry.kind != LongName ==> r.collected == s.collected
  {
    AppendOk(s.collected, d);
    var t := TakePayload(s, d);
    if s.entry.kind == LongName then t.(collected := Append(s.collected, d)) else t
  }

  /** How many of `n` bytes the present stretch of payload, padding or header takes. */
  function Part(s: State, n: nat): (p: nat)
    requires Inv(s) && s.ok && n > 0
    ensures 0 < p <= n
  {
    var want := if s.remaining > 0 then s.remaining else if s.padding > 0 then s.padding else BLOCK - |s.header|;
    if want < n then want else n
  }

  /** One turn of the loop of `zz9k_archive_tar_stream_consume`. */
  function Turn(w: World, s: State, d: seq<u8>): (r: State)
    requires Inv(s) && Live(s) && d != [] && |d| == Part(s, |d|)
    ensures Inv(r)
  {
    if s.remaining > 0 then CloseIfComplete(w, AppendPayload(s, d))
    else if s.padding > 0 then s.(padding := s.padding - |d|)
    else TakeHeader(w, s, d)
  }

  /** What `zz9k_archive_tar_stream_consume` does with one chunk. */
  function Chunk(w: World, s: State, data: seq<u8>): (r: State)
    requires Inv(s)
    ensures Inv(r)
    decreases |data|
  {
    if data == [] || !Live(s) then s
    else
      var p := Part(s, |data|);
      Chunk(w, Turn(w, s, data[..p]), data[p..])
  }

  lemma ChunkStep(w: World, s: State, data: seq<u8>, p: nat)
    requires Inv(s) && Live(s) && data != [] && p == Part(s, |data|)
    ensures |data[..p]| == Part(s, |data[..p]|)
    ensures Chunk(w, s, data) == Chunk(w, Turn(w, s, data[..p]), data[p..])
  {
  }

  lemma TurnIsFold(w: World, s: State, d: seq<u8>)
    requires Inv(s) && Sound(s.collected) && Live(s) && d != [] && |d| == Part(s, |d|) && NamesPadded(w, s, d)
    ensures Turn(w, s, d) == Fold(w, s, d)
  {
    if s.remaining > 0 {
      PayloadAtOnce(w, s, d);
      if s.entry.kind == LongName {
        StretchIsPadded(w, s, d);
        AppendIsScan(s.collected, s.ended, d);
      }
    } else if s.padding > 0 {
      PaddingAtOnce(w, s, d);
    } else {
      HeaderAtOnce(w, s, d);
    }
  }

  /** On a stream with padded long names a chunk does what its bytes do one at a time. */
  lemma {:induction false} ChunkIsFold(w: World, s: State, data: seq<u8>)
    requires Inv(s) && Sound(s.collected) && NamesPadded(w, s, data)
    ensures Chunk(w, s, data) == Fold(w, s, data)
    decreases |data|
  {
    if !Live(s) {
      StoppedAtOnce(w, s, data);
    } else if data != [] {
      var p := Part(s, |data|);
      assert data == data[..p] + data[p..];
      FoldAppend(w, s, data[..p], data[p..]);
      TurnIsFold(w, s, data[..p]);
      ChunkIsFold(w, Turn(w, s, data[..p]), data[p..]);
    }
  }

  /** Consuming `a` and then `b` leaves the stream as consuming `a + b` does. */
  lemma ChunkingDoesNotMatter(w: World, s: State, a: seq<u8>, b: seq<u8>)
    requires Inv(s) && Sound(s.collected) && NamesPadded(w, s, a + b)
    ensures Chunk(w, Chunk(w, s, a), b) == Chunk(w, s, a + b)
  {
    FoldAppend(w, s, a, b);
    ChunkIsFold(w, s, a);
    ChunkIsFold(w, Fold(w, s, a), b);
    ChunkIsFold(w, s, a + b);
  }

  /** How far into a block the stream is. */
  function Phase(s: State): int
  {
    (|s.header| - s.remaining - s.padding) % BLOCK
  }

  lemma ByteAdvances(w: World, s: State, c: u8)
    requires Inv(s) && Live(s) && Live(Byte1(w, s, c))
    ensures Phase(Byte1(w, s, c)) == (Phase(s) + 1) % BLOCK
  {
    var r := Byte1(w, s, c);
    NextPhase(|s.header| - s.remaining - s.padding);
    if s.remaining == 0 && s.padding == 0 && |s.header| + 1 == BLOCK {
      WholeBlocks(r.remaining + r.padding);
    }
  }

  lemma NextPhase(x: int)
    ensures (x + 1) % BLOCK == (x % BLOCK + 1) % BLOCK
  {
    SumPhase(x, 1, x % BLOCK);
  }

  lemma SumPhase(x: int, n: int, p: int)
    requires p == x % BLOCK
    ensures (x + n) % BLOCK == (p + n) % BLOCK
  {
    var q, q', r := x / BLOCK, (p + n) / BLOCK, (p + n) % BLOCK;
    DivModUnique(x + n, BLOCK, q + q', r);
  }

  lemma WholeBlocks(x: int)
    requires x % BLOCK == 0
    ensures (0 - x) % BLOCK == 0
  {
    DivModUnique(0 - x, BLOCK, -(x / BLOCK), 0);
  }

  /** A stream that is neither rejected nor ended is as far into a block as its bytes say. */
  lemma {:induction false} StaysInPhase(w: World, s: State, data: seq<u8>)
    requires Inv(s) && Live(Fold(w, s, data))
    ensures Phase(Fold(w, s, data)) == (Phase(s) + |data|) % BLOCK
    decreases |data|
  {
    if !Live(s) {
      StoppedAtOnce(w, s, data);
    } else if data != [] {
      var t := Byte1(w, s, data[0]);
      if !Live(t) { StoppedAtOnce(w, t, data[1..]); }
      ByteAdvances(w, s, data[0]);
      StaysInPhase(w, t, data[1..]);
      SumPhase(Phase(s) + 1, |data| - 1, Phase(t));
    }
  }

  /** Between entries: nothing open, nothing outstanding, no partial header. */
  predicate AtBoundary(s: State)
  {
    s.file == None && s.remaining == 0 && s.padding == 0 && s.header == []
  }

  /** A stream that finishes without its end mark has been fed whole blocks only. */
  lemma FinishedOnWholeBlocks(w: World, data: seq<u8>)
    requires Live(Fold(w, START, data)) && AtBoundary(Fold(w, START, data))
    ensures |data| % BLOCK == 0
  {
    StaysInPhase(w, START, data);
  }
}
