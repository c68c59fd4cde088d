/** Splitting a decoded 7z folder into its entries (sdk/tools/zz9k-archive.c). */
module SplitWriters {
  import opened Words
  import opened Names
  import opened Crc32

  datatype Entry = Entry(size: u32, crc: Option<bv32>, matches: bool, decodedOffset: u32)

  /** The surroundings: whether output is written at all, whether the file of entry `k` can be
      opened and closed, and how many bytes it takes before a write to it fails. */
  datatype World = World(writes: bool, open: nat -> bool, close: nat -> bool, room: nat -> nat)

  /** Where entry `k` starts in the decoded stream. */
  function Start(e: seq<Entry>, k: nat): (o: nat)
    requires k <= |e|
  {
    if k == 0 then 0 else Start(e, k - 1) + e[k - 1].size
  }

  lemma {:induction false} StartMonotone(e: seq<Entry>, j: nat, k: nat)
    requires j <= k <= |e|
    ensures Start(e, j) <= Start(e, k)
    decreases k
  {
    if j < k { StartMonotone(e, j, k - 1); }
  }

  function Total(e: seq<Entry>): (n: nat)
  {
    Start(e, |e|)
  }

  predicate HasFile(w: World, e: seq<Entry>, k: nat)
    requires k < |e|
  {
    w.writes && e[k].matches
  }

  predicate OpenOk(w: World, e: seq<Entry>, k: nat)
    requires k < |e|
  {
    HasFile(w, e, k) ==> w.open(k)
  }

  /** `n` bytes of entry `k` can be written. */
  predicate RoomOk(w: World, e: seq<Entry>, k: nat, n: nat)
    requires k < |e|
  {
    HasFile(w, e, k) ==> n <= w.room(k)
  }

  /** The entry's part of the stream. */
  function Slice(e: seq<Entry>, k: nat, s: seq<u8>): (p: seq<u8>)
    requires k < |e| && Start(e, k + 1) <= |s|
  {
    s[Start(e, k)..Start(e, k + 1)]
  }

  predicate CrcOk(e: Entry, part: seq<u8>)
  {
    e.matches && e.crc.Some? ==> Crc(0, part) == e.crc.value
  }

  /** Entry `k` comes out right when the stream starts with `s`. */
  predicate Good(w: World, e: seq<Entry>, k: nat, s: seq<u8>)
    requires k < |e| && Start(e, k + 1) <= |s|
  {
    OpenOk(w, e, k) && (HasFile(w, e, k) ==> w.close(k)) && RoomOk(w, e, k, e[k].size) && CrcOk(e[k], Slice(e, k, s))
  }

  /** Nothing is wrong with a stream that starts with `s`: it is not too long, every entry it
      reaches can be opened and written as far as it goes, and every entry it completes is good. */
  predicate Accepts(w: World, e: seq<Entry>, s: seq<u8>)
  {
    && |s| <= Total(e)
    && forall k :: 0 <= k < |e| ==> Fine(w, e, k, s)
  }

  predicate Fine(w: World, e: seq<Entry>, k: nat, s: seq<u8>)
    requires k < |e|
  {
    && (Start(e, k) < |s| ==> OpenOk(w, e, k) && RoomOk(w, e, k, Least(|s| - Start(e, k), e[k].size)))
    && (Start(e, k + 1) <= |s| ==> Good(w, e, k, s))
  }

  /** Entry `k` is finished, and `out` is what was written of it. */
  predicate Done(w: World, e: seq<Entry>, k: nat, s: seq<u8>, out: Option<seq<u8>>)
    requires k < |e|
  {
    && Start(e, k + 1) <= |s| && Good(w, e, k, s)
    && out == if HasFile(w, e, k) then Some(Slice(e, k, s)) else None
  }

  lemma DoneStable(w: World, e: seq<Entry>, k: nat, s: seq<u8>, d: seq<u8>, out: Option<seq<u8>>)
    requires k < |e| && Done(w, e, k, s, out)
    ensures Done(w, e, k, s + d, out)
  {
    SliceStable(e, k, s, d);
  }

  lemma SliceStable(e: seq<Entry>, k: nat, s: seq<u8>, d: seq<u8>)
    requires k < |e| && Start(e, k + 1) <= |s|
    ensures Slice(e, k, s + d) == Slice(e, k, s)
  {
  }

  lemma BadEntry(w: World, e: seq<Entry>, k: nat, s: seq<u8>)
    requires k < |e| && Start(e, k + 1) <= |s| && !Good(w, e, k, s)
    ensures !Accepts(w, e, s)
  {
    assert !Fine(w, e, k, s);
  }

  lemma BadOpen(w: World, e: seq<Entry>, k: nat, s: seq<u8>)
    requires k < |e| && Start(e, k) < |s| && !OpenOk(w, e, k)
    ensures !Accepts(w, e, s)
  {
    assert !Fine(w, e, k, s);
  }

  lemma BadRoom(w: World, e: seq<Entry>, k: nat, s: seq<u8>, n: nat)
    requires k < |e| && Start(e, k) < |s| && n <= |s| - Start(e, k) && n <= e[k].size && !RoomOk(w, e, k, n)
    ensures !Accepts(w, e, s)
  {
    assert !Fine(w, e, k, s);
  }

  lemma BadPrefix(w: World, e: seq<Entry>, k: nat, s: seq<u8>, t: seq<u8>)
    requires k < |e| && Start(e, k + 1) <= |s| && s <= t && !Good(w, e, k, s)
    ensures !Accepts(w, e, t)
  {
    SliceStable(e, k, s, t[|s|..]);
    assert s + t[|s|..] == t;
    BadEntry(w, e, k, t);
  }

  /** The first entries are finished, and `outs` is what was written of them. */
  predicate AllDone(w: World, e: seq<Entry>, s: seq<u8>, outs: seq<Option<seq<u8>>>)
  {
    |outs| <= |e| && forall k :: 0 <= k < |outs| ==> Done(w, e, k, s, outs[k])
  }

  lemma AllDoneStable(w: World, e: seq<Entry>, s: seq<u8>, d: seq<u8>, outs: seq<Option<seq<u8>>>)
    requires AllDone(w, e, s, outs)
    ensures AllDone(w, e, s + d, outs)
  {
    forall k | 0 <= k < |outs| ensures Done(w, e, k, s + d, outs[k]) {
      DoneStable(w, e, k, s, d, outs[k]);
    }
  }

  lemma OneMoreDone(w: World, e: seq<Entry>, s: seq<u8>, outs: seq<Option<seq<u8>>>, out: Option<seq<u8>>)
    requires AllDone(w, e, s, outs) && |outs| < |e| && Done(w, e, |outs|, s, out)
    ensures AllDone(w, e, s, outs + [out])
  {
  }

  /** Where a writer may stand that has been fed `fed`: before entry `cur`, or inside it. */
  predicate Going(w: World, e: seq<Entry>, cur: nat, written: nat, crc: bv32, started: bool, file: Option<seq<u8>>,
                  outs: seq<Option<seq<u8>>>, fed: seq<u8>)
  {
    && cur <= |e| && Start(e, cur) + written == |fed| && |outs| == cur && AllDone(w, e, fed, outs)
    && if started then Inside(w, e, cur, written, crc, file, fed[Start(e, cur)..]) else written == 0 && file == None
  }

  /** `part` of entry `k` has been taken. */
  predicate Inside(w: World, e: seq<Entry>, k: nat, written: nat, crc: bv32, file: Option<seq<u8>>, part: seq<u8>)
  {
    && k < |e| && written <= e[k].size && OpenOk(w, e, k) && RoomOk(w, e, k, written)
    && crc == Crc(0, part) && file == if HasFile(w, e, k) then Some(part) else None
  }

  lemma PartTaken(w: World, e: seq<Entry>, cur: nat, written: nat, crc: bv32, file: Option<seq<u8>>,
                  outs: seq<Option<seq<u8>>>, fed: seq<u8>, d: seq<u8>, crc': bv32, file': Option<seq<u8>>)
    requires Going(w, e, cur, written, crc, true, file, outs, fed)
    requires written + |d| <= e[cur].size && RoomOk(w, e, cur, written + |d|)
    requires crc' == Crc(crc, d) && file' == if file.Some? then Some(file.value + d) else None
    ensures Going(w, e, cur, written + |d|, crc', true, file', outs, fed + d)
  {
    var o := Start(e, cur);
    CrcContinues(0, fed[o..], d);
    assert (fed + d)[o..] == fed[o..] + d;
    AllDoneStable(w, e, fed, d, outs);
  }

  lemma EntryFinished(w: World, e: seq<Entry>, cur: nat, written: nat, crc: bv32, file: Option<seq<u8>>,
                      outs: seq<Option<seq<u8>>>, fed: seq<u8>)
    requires Going(w, e, cur, written, crc, true, file, outs, fed) && written == e[cur].size
    requires Start(e, cur + 1) <= |fed| && Good(w, e, cur, fed)
    ensures Going(w, e, cur + 1, 0, 0, false, None, outs + [file], fed)
  {
    assert Slice(e, cur, fed) == fed[Start(e, cur)..];
    OneMoreDone(w, e, fed, outs, file);
  }

  class SplitWriter {
    const w: World
    const entries: seq<Entry>
    var current: nat
    var entryWritten: nat
    var entryCrc: bv32
    var started: bool
    var file: Option<seq<u8>>
    var outputs: seq<Option<seq<u8>>>
    ghost var fed: seq<u8>

    ghost predicate Valid()
      reads this
    {
      Going(w, entries, current, entryWritten, entryCrc, started, file, outputs, fed)
    }

    /** All that the stream completes has been finished. */
    ghost predicate Settled()
      reads this
    {
      current < |entries| ==> entryWritten < entries[current].size
    }

    constructor (w: World, entries: seq<Entry>)
      ensures Valid() && fed == [] && this.w == w && this.entries == entries
    {
      this.w, this.entries := w, entries;
      current, entryWritten, entryCrc, started, file, outputs, fed := 0, 0, 0, false, None, [], [];
    }

    /** `zz9k_archive_7z_split_writer_start_entry`. */
    method StartEntry() returns (ok: bool)
      requires Valid() && current < |entries|
      modifies this`entryWritten, this`entryCrc, this`started, this`file
      ensures ok <==> OpenOk(w, entries, current)
      ensures ok ==> Valid() && started && entryWritten == old(entryWritten)
    {
      if started { return true; }
      entryWritten, entryCrc := 0, 0;
      assert fed[Start(entries, current)..] == [];
      if w.writes && entries[current].matches {
        if !w.open(current) { return false; }
        file := Some([]);
      }
      started := true;
      ok := true;
    }

    /** The checks on a complete entry: its CRC and the closing of its file. */
    method CheckEntry() returns (ok: bool)
      requires Valid() && started && entryWritten == entries[current].size
      ensures ok <==> Good(w, entries, current, fed)
    {
      var entry := entries[current];
      assert Slice(entries, current, fed) == fed[Start(entries, current)..];
      ok := !(entry.matches && entry.crc.Some? && entryCrc != entry.crc.value);
      if file.Some? && !w.close(current) { ok := false; }
    }

    /** `zz9k_archive_7z_split_writer_finish_entry`. */
    method FinishEntry() returns (ok: bool)
      requires Valid() && started && entryWritten == entries[current].size
      modifies this`current, this`entryWritten, this`entryCrc, this`started, this`file, this`outputs
      ensures ok <==> Good(w, entries, old(current), fed)
      ensures ok ==> Valid() && current == old(current) + 1 && !started
    {
      ok := CheckEntry();
      if ok { EntryFinished(w, entries, current, entryWritten, entryCrc, file, outputs, fed); }
      outputs := outputs + [file];
      file := None;
      current := current + 1;
      entryWritten, entryCrc, started := 0, 0, false;
    }

    /** `zz9k_archive_7z_split_writer_advance_empty`. */
    method AdvanceEmpty() returns (ok: bool)
      requires Valid() && (started ==> entryWritten < entries[current].size)
      modifies this`current, this`entryWritten, this`entryCrc, this`started, this`file, this`outputs
      ensures ok ==> Valid() && Settled()
      ensures !ok ==> !Accepts(w, entries, fed)
    {
      while current < |entries| && entries[current].size == 0
        invariant Valid() && (started ==> entryWritten < entries[current].size)
        decreases |entries| - current
      {
        ghost var k := current;
        assert Start(entries, k + 1) == |fed|;
        ok := StartEntry();
        if !ok {
          assert !Good(w, entries, k, fed);
          BadEntry(w, entries, k, fed);
          return;
        }
        ok := FinishEntry();
        if !ok {
          BadEntry(w, entries, k, fed);
          return;
        }
      }
      ok := true;
    }

    /** The bytes `d` of the current entry: into its CRC and into its file. */
    method TakePart(d: seq<u8>) returns (ok: bool)
      requires Valid() && started && entryWritten + |d| <= entries[current].size
      modifies this`entryWritten, this`entryCrc, this`file, this`fed
      ensures ok <==> RoomOk(w, entries, current, old(entryWritten) + |d|)
      ensures ok ==> Valid() && fed == old(fed) + d && entryWritten == old(entryWritten) + |d|
    {
      ghost var crc, open := entryCrc, file;
      entryCrc := Compute(entryCrc, d);
      ok := file.Some? ==> entryWritten + |d| <= w.room(current);
      if !ok { return; }
      if file.Some? { file := Some(file.value + d); }
      PartTaken(w, entries, current, entryWritten, crc, open, outputs, fed, d, entryCrc, file);
      entryWritten := entryWritten + |d|;
      fed := fed + d;
    }

    /** `zz9k_archive_7z_split_writer_chunk`. */
    method Chunk(data: seq<u8>) returns (ok: bool)
      requires Valid() && (started ==> entryWritten < entries[current].size)
      modifies this
      ensures ok <==> Accepts(w, entries, old(fed) + data)
      ensures ok ==> Valid() && Settled() && fed == old(fed) + data
    {
      ghost var all := fed + data;
      ok := AdvanceEmpty();
      if !ok {
        if Accepts(w, entries, all) { PrefixAccepted(w, entries, fed, all); }
        return;
      }
      var pos := 0;
      while pos < |data|
        invariant pos <= |data| && Valid() && fed == old(fed) + data[..pos]
        invariant started ==> entryWritten < entries[current].size
        decreases |data| - pos, |entries| - current
      {
        assert fed <= all;
        var n;
        ok, n := Feed(data[pos..], all);
        if !ok { return; }
        assert data[..pos] + data[pos..][..n] == data[..pos + n];
        pos := pos + n;
      }
      assert fed == all;
      ok := AdvanceEmpty();
      if ok { SettledAccepts(); }
    }

    /** One turn of the loop over a chunk, of which `rest` is left. */
    method Feed(rest: seq<u8>, ghost all: seq<u8>) returns (ok: bool, n: nat)
      requires Valid() && (started ==> entryWritten < entries[current].size)
      requires rest != [] && fed + rest == all
      modifies this
      ensures !ok ==> !Accepts(w, entries, all)
      ensures ok ==> n <= |rest| && Valid() && fed == old(fed) + rest[..n]
      ensures ok ==> (started ==> entryWritten < entries[current].size) && (n > 0 || current > old(current))
    {
      n := 0;
      if current >= |entries| { return false, 0; }
      ghost var k := current;
      ok := StartEntry();
      if !ok {
        BadOpen(w, entries, k, all);
        return;
      }
      n := entries[current].size - entryWritten;
      if n > |rest| { n := |rest|; }
      ghost var written := entryWritten + n;
      ok := TakePart(rest[..n]);
      if !ok {
        BadRoom(w, entries, k, all, written);
        return;
      }
      ok := FinishIfFull(all);
    }

    method FinishIfFull(ghost all: seq<u8>) returns (ok: bool)
      requires Valid() && started && fed <= all
      modifies this`current, this`entryWritten, this`entryCrc, this`started, this`file, this`outputs
      ensures !ok ==> !Accepts(w, entries, all)
      ensures ok ==> Valid() && (started ==> entryWritten < entries[current].size)
      ensures ok ==> current == old(current) + if old(entryWritten) == entries[old(current)].size then 1 else 0
    {
      ok := true;
      if entryWritten == entries[current].size {
        ghost var k := current;
        ok := FinishEntry();
        if !ok { BadPrefix(w, entries, k, fed, all); }
      }
    }

    lemma SettledAccepts()
      requires Valid() && Settled()
      ensures Accepts(w, entries, fed)
      ensures current == |entries| <==> |fed| == Total(entries)
    {
      StartMonotone(entries, current, |entries|);
      if current < |entries| { StartMonotone(entries, current + 1, |entries|); }
      forall k | 0 <= k < |entries| ensures Fine(w, entries, k, fed) {
        if k < current { assert Done(w, entries, k, fed, outputs[k]); }
        if k >= current { StartMonotone(entries, current + 1, k + 1); }
        if k > current { StartMonotone(entries, current + 1, k); }
      }
    }

    /** `zz9k_archive_7z_split_writer_finish`. */
    method Finish() returns (ok: bool)
      requires Valid() && (started ==> entryWritten < entries[current].size)
      modifies this`current, this`entryWritten, this`entryCrc, this`started, this`file, this`outputs
      ensures ok <==> Accepts(w, entries, fed) && |fed| == Total(entries)
      ensures ok ==> |outputs| == |entries| && forall k :: 0 <= k < |entries| ==> Done(w, entries, k, fed, outputs[k])
    {
      ok := AdvanceEmpty();
      if !ok { return; }
      SettledAccepts();
      ok := current == |entries|;
    }
  }

  /** What is wrong with a stream is wrong with every longer one. */
  lemma PrefixAccepted(w: World, e: seq<Entry>, s: seq<u8>, t: seq<u8>)
    requires s <= t && Accepts(w, e, t)
    ensures Accepts(w, e, s)
  {
    assert t == s + t[|s|..];
    forall k | 0 <= k < |e| ensures Fine(w, e, k, s) {
      assert Fine(w, e, k, t);
      if Start(e, k + 1) <= |s| { SliceStable(e, k, s, t[|s|..]); }
    }
  }
}
