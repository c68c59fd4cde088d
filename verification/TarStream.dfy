/** The tar stream object that is pushed chunks of bytes (sdk/tools/zz9k-archive.c). */
module TarStreams {
  import opened Words
  import opened Names
  import opened TarNames
  import opened Tar

  class TarStream {
    var header: seq<u8>
    var entry: Header
    var file: Option<seq<u8>>
    var pendingName: seq<u8>
    var overflow: bool
    var pax: seq<u8>
    var pendingSize: Option<u32>
    var nameSkip: bool
    var remaining: nat
    var padding: nat
    var count: nat
    var log: seq<Event>
    var ok: bool
    var done: bool
    ghost var ended: bool

    ghost function View(): (s: State)
      reads this
    {
      State(header, entry, file, Collected(pendingName, overflow), ended, pax, pendingSize, nameSkip,
            remaining, padding, count, log, ok, done)
    }

    ghost predicate Valid()
      reads this
    {
      Inv(View())
    }

    /** `zz9k_archive_tar_stream_init`. */
    constructor ()
      ensures Valid() && View() == START
    {
      header, entry, file, pendingName, overflow, pax := [], Header([], 0, Plain, true, false), None, [], false, [];
      pendingSize, nameSkip, remaining, padding, count, log := None, false, 0, 0, 0, [];
      ok, done, ended := true, false, false;
    }

    /** Appends to the pending name as far as it fits; a nonzero byte that does not fit is an overflow. */
    method AppendName(d: seq<u8>)
      requires NameOk(Collected(pendingName, overflow))
      modifies this`pendingName, this`overflow
      ensures Collected(pendingName, overflow) == Append(Collected(old(pendingName), old(overflow)), d)
    {
      var space := LIMIT - |pendingName|;
      var copy := |d|;
      if copy > space {
        copy := space;
        if d[space] != 0 { overflow := true; }
      }
      pendingName := CString(pendingName + d[..copy]);
      assert copy == |d| ==> d[..copy] == d;
    }

    method CloseOutput(w: World)
      modifies this`file, this`log, this`ok
      ensures View() == CloseFile(w, old(View()))
    {
      if file == None { return; }
      if w.commit(count) {
        log := log + [Written(entry.name, file.value)];
      } else {
        ok := false;
      }
      file := None;
    }

    method TakePax(p: PaxInfo)
      requires NameOk(View().collected) && !overflow
      modifies this`pendingName, this`nameSkip, this`pendingSize
      ensures View() == ApplyPax(old(View()), p)
    {
      if p.path.Some? {
        pendingName, nameSkip := if p.pathSkip then [] else p.path.value, p.pathSkip;
      }
      if p.size.Some? { pendingSize := p.size; }
    }

    method FinishPayload(w: World)
      requires NameOk(View().collected) && |header| < BLOCK && remaining == 0 && (entry.kind != LongName ==> !overflow)
      modifies this
      ensures View() == EndOfPayload(w, old(View()))
    {
      if entry.kind == LongName {
        if overflow {
          ok := false;
          return;
        }
        var n := Normalize(pendingName);
        pendingName, nameSkip := n.0, n.1;
      } else if entry.kind == Pax {
        var p := w.parsePax(pax);
        if p == None {
          ok := false;
          return;
        }
        TakePax(p.value);
      }
      CloseOutput(w);
    }

    method TakePart(w: World, d: seq<u8>)
      requires Valid() && Live(View()) && 0 < |d| <= remaining
      modifies this
      ensures Valid() && View() == CloseIfComplete(w, AppendPayload(old(View()), d))
    {
      AppendPart(d);
      if remaining == 0 { FinishPayload(w); }
    }

    method AppendLongName(d: seq<u8>)
      requires NameOk(View().collected)
      modifies this`pendingName, this`overflow, this`ended
      ensures View() == old(View()).(collected := Append(old(View()).collected, d),
                                     ended := Scan(old(View()).collected, old(ended), d).1)
    {
      ghost var scanned := Scan(View().collected, ended, d);
      AppendName(d);
      ended := scanned.1;
    }

    /** The payload bytes `d`: part of a long name, of a PAX record or of a file. */
    method AppendPart(d: seq<u8>)
      requires Valid() && Live(View()) && 0 < |d| <= remaining
      modifies this`pendingName, this`overflow, this`ended, this`pax, this`file, this`remaining
      ensures View() == AppendPayload(old(View()), d)
    {
      if entry.kind == LongName {
        AppendLongName(d);
      } else if entry.kind == Pax {
        pax := pax + d;
      } else if file.Some? {
        file := Some(file.value + d);
      }
      remaining := remaining - |d|;
    }

    /** The header's entry, with the name and size that records before it left pending. */
    method UsePending(h: Header)
      modifies this
      ensures View() == WithPending(old(View()), h)
    {
      entry := h;
      if h.kind != Plain { return; }
      if nameSkip {
        entry := entry.(skip := true);
        nameSkip := false;
      } else if pendingName != [] {
        entry := entry.(name := pendingName);
      }
      pendingName := [];
      if pendingSize.Some? {
        entry := entry.(size := pendingSize.value);
        pendingSize := None;
      }
    }

    method Begin(h: Header)
      requires NameOk(View().collected) && !overflow
      modifies this
      ensures View() == BeginPayload(old(View()), h)
    {
      UsePending(h);
      remaining, pax, ended := entry.size, [], false;
      padding := (BLOCK - entry.size % BLOCK) % BLOCK;
      header := [];
    }

    /** `zz9k_archive_tar_stream_start_entry`. */
    method Start(w: World)
      requires NameOk(View().collected) && !overflow && file == None && remaining == 0
      modifies this
      ensures View() == StartEntry(w, old(View()))
    {
      if forall i :: 0 <= i < |header| ==> header[i] == 0 {
        done, header := true, [];
        return;
      }
      var h := w.parseHeader(header);
      if h == None {
        ok := false;
        return;
      }
      Begin(h.value);
      if entry.kind == Pax && entry.size > MAX_PAX {
        ok := false;
        return;
      }
      Decide(w);
    }

    method Decide(w: World)
      requires file == None && entry.size == remaining
      modifies this`file, this`count, this`log, this`ok
      ensures View() == Admit(w, old(View()))
    {
      if entry.skip || entry.kind != Plain { return; }
      match w.decide(entry, count) {
        case Filtered =>
        case Refused => ok := false;
        case Listed => count, log := count + 1, log + [Counted(entry)];
        case Unopened => count, log, ok := count + 1, log + [Counted(entry)], false;
        case Extracted =>
          count, log := count + 1, log + [Counted(entry)];
          if entry.isDir || entry.size == 0 {
            log := log + [Written(entry.name, [])];
          } else {
            file := Some([]);
          }
      }
    }

    /** `zz9k_archive_tar_stream_consume`. */
    method Consume(w: World, data: seq<u8>) returns (r: int)
      requires Valid()
      modifies this
      ensures Valid() && View() == Chunk(w, old(View()), data)
      ensures r == if ok then 1 else 0
    {
      if !ok { return 0; }
      var pos: nat := 0;
      assert data[0..] == data;
      while pos < |data|
        invariant pos <= |data| && Valid() && ok
        invariant Chunk(w, View(), data[pos..]) == Chunk(w, old(View()), data)
      {
        if done { return 1; }
        ghost var s := View();
        var next := Round(w, data, pos);
        TurnOnChunk(w, s, View(), data, pos, next);
        pos := next;
        if !ok { return 0; }
      }
      r := 1;
    }

    /** One turn of the loop over the chunk. */
    method Round(w: World, data: seq<u8>, pos: nat) returns (next: nat)
      requires Valid() && Live(View()) && pos < |data|
      modifies this
      ensures Valid() && pos < next <= |data| && next - pos == Part(old(View()), |data| - pos)
      ensures next - pos == Part(old(View()), next - pos) && View() == Turn(w, old(View()), data[pos..next])
    {
      var part := NextPart(|data| - pos);
      PartAlone(View(), |data| - pos, part);
      next := pos + part;
      Stretch(w, data[pos..next]);
    }

    static lemma PartAlone(s: State, n: nat, part: nat)
      requires Inv(s) && s.ok && n > 0 && part == Part(s, n)
      ensures part > 0 && Part(s, part) == part
    {
    }

    static lemma TurnOnChunk(w: World, s: State, t: State, data: seq<u8>, pos: nat, next: nat)
      requires Inv(s) && Live(s) && pos < next <= |data| && next - pos == Part(s, |data| - pos)
      requires next - pos == Part(s, next - pos) && t == Turn(w, s, data[pos..next])
      ensures Chunk(w, t, data[next..]) == Chunk(w, s, data[pos..])
    {
      var rest := data[pos..];
      ChunkStep(w, s, rest, next - pos);
      assert rest[..next - pos] == data[pos..next] && rest[next - pos..] == data[next..];
    }

    method NextPart(n: nat) returns (part: nat)
      requires Valid() && ok && n > 0
      ensures part == Part(View(), n)
    {
      part := if remaining > 0 then remaining else if padding > 0 then padding else BLOCK - |header|;
      if part > n { part := n; }
    }

    method Stretch(w: World, d: seq<u8>)
      requires Valid() && Live(View()) && d != [] && |d| == Part(View(), |d|)
      modifies this
      ensures Valid() && View() == Turn(w, old(View()), d)
    {
      if remaining > 0 {
        TakePart(w, d);
      } else if padding > 0 {
        padding := padding - |d|;
      } else {
        header := header + d;
        if |header| == BLOCK { Start(w); }
      }
    }

    /** `zz9k_archive_tar_stream_finish`: 1 on an entry boundary; else an output that was left in the
        middle is given up, without being moved into place. */
    method Finish() returns (r: int)
      modifies this`file, this`pax
      ensures r == 1 <==> old(ok && AtBoundary(View()))
      ensures r == 0 || r == 1
      ensures View() == if r == 1 || !ok then old(View()) else old(View()).(file := None, pax := [])
    {
      if !ok { return 0; }
      if file.Some? || remaining != 0 || padding != 0 || |header| != 0 {
        Cleanup();
        return 0;
      }
      r := 1;
    }

    /** `zz9k_archive_tar_stream_cleanup`. */
    method Cleanup()
      modifies this`file, this`pax
      ensures View() == old(View()).(file := None, pax := [])
    {
      file, pax := None, [];
    }
  }
}
