/** The two walks over the members of an LHA archive (sdk/tools/zz9k-archive.c): over the whole
    archive in memory, and through a small window that is refilled, recentred and enlarged. */
module LhaWalk {
  import opened Words
  import opened Names
  import opened Lha

  /** The members listed, and whether the walk reached a proper end. */
  datatype Listing = Listing(entries: seq<Entry>, complete: bool)

  function Placed(e: Entry, pos: nat): (r: Entry)
    requires pos + e.dataOffset < TWO32
  {
    e.(dataOffset := pos + e.dataOffset)
  }

  /** Where the member after `e` starts. */
  function After(data: seq<u8>, pos: nat, e: Entry): (n: nat)
  {
    pos + e.dataOffset + e.compressed
  }

  function Here(data: seq<u8>, pos: nat): (v: Verdict)
    requires pos <= |data| < TWO32
    ensures v.Parsed? ==> 0 < v.entry.dataOffset && After(data, pos, v.entry) <= |data|
  {
    var v := Parse(data[pos..], |data| - pos);
    if v.Parsed? then ParsedFits(data[pos..], |data| - pos); v else v
  }

  /** The listing of the archive from `pos` on. */
  function ListFrom(data: seq<u8>, pos: nat): (l: Listing)
    requires pos <= |data| < TWO32
    decreases |data| - pos
  {
    if pos == |data| || data[pos] == 0 || |data| - pos < 24 then Listing([], true)
    else match Here(data, pos)
      case Parsed(e) =>
        var rest := ListFrom(data, After(data, pos, e));
        Listing([Placed(e, pos)] + rest.entries, rest.complete)
      case _ => Listing([], false)
  }

  /** The walk so far and the walk to come make up the whole listing. */
  ghost predicate Progress(data: seq<u8>, pos: nat, seen: seq<Entry>)
    requires pos <= |data| < TWO32
  {
    && seen + ListFrom(data, pos).entries == ListFrom(data, 0).entries
    && ListFrom(data, pos).complete == ListFrom(data, 0).complete
  }

  lemma Advance(data: seq<u8>, pos: nat, seen: seq<Entry>, e: Entry)
    requires pos < |data| < TWO32 && Progress(data, pos, seen)
    requires data[pos] != 0 && |data| - pos >= 24 && Here(data, pos) == Parsed(e)
    ensures Progress(data, After(data, pos, e), seen + [Placed(e, pos)])
  {
    var rest := ListFrom(data, After(data, pos, e)).entries;
    assert seen + ([Placed(e, pos)] + rest) == (seen + [Placed(e, pos)]) + rest;
  }

  function Cut<T>(s: seq<T>, n: nat): (r: seq<T>)
  {
    if |s| < n then s else s[..n]
  }

  lemma CutGrows<T>(s: seq<T>, x: T, n: nat)
    ensures Cut(s + [x], n) == if |s| < n then Cut(s, n) + [x] else Cut(s, n)
  {
  }

  method ParseAt(data: seq<u8>, pos: nat) returns (v: Verdict)
    requires pos <= |data| < TWO32
    ensures v == Here(data, pos)
  {
    v := ParseHeader(data[pos..], |data| - pos);
  }

  /** `zz9k_archive_lha_list`: as many entries as the table takes, and the full count. */
  method ListInMemory(data: seq<u8>, maxEntries: u32) returns (ok: bool, count: nat, table: seq<Entry>)
    requires |data| < TWO32
    ensures ok == ListFrom(data, 0).complete
    ensures count == if ok then |ListFrom(data, 0).entries| else 0
    ensures ok ==> table == Cut(ListFrom(data, 0).entries, maxEntries)
  {
    var pos: nat, used := 0, 0;
    ghost var seen: seq<Entry> := [];
    table := [];
    while pos < |data|
      invariant pos <= |data| && used == |seen| && Progress(data, pos, seen) && table == Cut(seen, maxEntries)
      decreases |data| - pos
    {
      if data[pos] == 0 || |data| - pos < 24 { break; }
      var v := ParseAt(data, pos);
      if !v.Parsed? { return false, 0, table; }
      Advance(data, pos, seen, v.entry);
      var entry := Placed(v.entry, pos);
      if used < maxEntries { table := table + [entry]; }
      CutGrows(seen, entry, maxEntries);
      seen := seen + [entry];
      used := used + 1;
      pos := After(data, pos, v.entry);
    }
    assert ListFrom(data, pos) == Listing([], true);
    ok, count := true, used;
  }

  const CHUNK: u32 := 0x1000
  const TOP: u32 := 0x4000_0000  // the largest window that can still be multiplied by four

  /** The window: its capacity, the file offset of its first byte, and how many bytes it holds. */
  datatype Span = Span(capacity: u32, base: nat, valid: nat)

  function Filled(capacity: u32, pos: nat, avail: nat): (w: Span)
  {
    Span(capacity, pos, if avail < capacity then avail else capacity)
  }

  /** `window_allocated * 4U` in 32 bits, clamped to the archive remainder, if that is an increase. */
  function Grown(capacity: u32, avail: nat): (a: u32)
    requires avail < TWO32
  {
    var g := Trunc32(capacity as int * 4);
    var c: nat := if g > avail then avail else g;
    if c > capacity then c else capacity
  }

  /** The capacities that growth by four goes through. */
  predicate Rung(a: nat)
  {
    a in {0x1000, 0x4000, 0x1_0000, 0x4_0000, 0x10_0000, 0x40_0000, 0x100_0000, 0x400_0000, 0x1000_0000, 0x4000_0000}
  }

  /** A capacity the window may have with `avail` bytes of archive left. */
  predicate Fits(a: nat, avail: nat)
  {
    Rung(a) || (avail <= a && a <= TOP)
  }

  lemma GrownFits(a: u32, avail: nat)
    requires Fits(a, avail) && 0 < avail < TWO32
    ensures a > 0 && Fits(Grown(a, avail), avail)
  {
    if a < TOP { DivModUnique(a as int * 4, TWO32, 0, a as int * 4); }
  }

  /** The window covers `pos` and is as full as the file allows. */
  predicate SpanOk(file: seq<u8>, pos: nat, w: Span)
  {
    && pos < |file| < TWO32
    && w.base <= pos && pos < w.base + w.valid
    && w == Filled(w.capacity, w.base, |file| - w.base)
    && Fits(w.capacity, |file| - pos)
  }

  /** One turn of the loop that looks for a verdict on the member at `pos`. */
  datatype Turn = Stop | Again(w: Span)

  function TurnOf(file: seq<u8>, pos: nat, w: Span): (t: Turn)
    requires SpanOk(file, pos, w)
    ensures t.Again? ==> SpanOk(file, pos, t.w)
  {
    var avail := |file| - pos;
    GrownFits(w.capacity, avail);
    if !Parse(file[pos..w.base + w.valid], avail).NeedsWindow? then Stop
    else if w.base != pos then Again(Filled(w.capacity, pos, avail))
    else if w.valid >= avail then Stop
    else Again(Filled(Grown(w.capacity, avail), pos, avail))
  }

  function Turns(file: seq<u8>, pos: nat, w: Span, n: nat): (t: Turn)
    requires SpanOk(file, pos, w)
    decreases n
  {
    if n == 0 then Again(w)
    else match TurnOf(file, pos, w)
      case Stop => Stop
      case Again(w') => Turns(file, pos, w', n - 1)
  }

  ghost predicate Halts(file: seq<u8>, pos: nat, w: Span)
    requires SpanOk(file, pos, w)
  {
    exists n :: Turns(file, pos, w, n).Stop?
  }

  /** A header that is still incomplete in a window of 2^30 bytes, with more archive to come. */
  predicate Stalled(file: seq<u8>, pos: nat)
    requires pos < |file| < TWO32
  {
    |file| - pos > TOP && Parse(file[pos..pos + TOP], |file| - pos).NeedsWindow?
  }

  /** Turns still possible: one to recentre, and the room left to grow. */
  function Room(file: seq<u8>, pos: nat, w: Span): (r: nat)
    requires SpanOk(file, pos, w)
  {
    var avail := |file| - pos;
    (if w.base == pos then 0 else 1) + if w.capacity < avail then 2 * (avail - w.capacity) else 0
  }

  /** Every turn uses up room, except on a stalled header in the largest window. */
  lemma TurnUsesRoom(file: seq<u8>, pos: nat, w: Span)
    requires SpanOk(file, pos, w) && TurnOf(file, pos, w).Again?
    ensures Room(file, pos, TurnOf(file, pos, w).w) < Room(file, pos, w)
      || (Stalled(file, pos) && w.capacity == TOP && w.base == pos)
  {
    var w' := TurnOf(file, pos, w).w;
    if w.base == pos && w.capacity < TOP {
      assert w.capacity < w'.capacity;
    }
  }

  lemma {:induction false} HaltsUnlessStalled(file: seq<u8>, pos: nat, w: Span) returns (n: nat)
    requires SpanOk(file, pos, w) && !Stalled(file, pos)
    ensures Turns(file, pos, w, n).Stop?
    decreases Room(file, pos, w)
  {
    var t := TurnOf(file, pos, w);
    if t.Stop? {
      StopsAtOnce(file, pos, w);
      n := 1;
    } else {
      RoomShrinks(file, pos, w, t.w);
      n := HaltsUnlessStalled(file, pos, t.w);
      OneTurnMore(file, pos, w, n);
      n := n + 1;
    }
  }

  lemma RoomShrinks(file: seq<u8>, pos: nat, w: Span, w': Span)
    requires SpanOk(file, pos, w) && TurnOf(file, pos, w) == Again(w') && !Stalled(file, pos)
    ensures SpanOk(file, pos, w') && Room(file, pos, w') < Room(file, pos, w)
  {
    TurnUsesRoom(file, pos, w);
  }

  lemma StopsAtOnce(file: seq<u8>, pos: nat, w: Span)
    requires SpanOk(file, pos, w) && TurnOf(file, pos, w).Stop?
    ensures Turns(file, pos, w, 1).Stop?
  {
  }

  lemma OneTurnMore(file: seq<u8>, pos: nat, w: Span, n: nat)
    requires SpanOk(file, pos, w) && TurnOf(file, pos, w).Again?
    ensures Turns(file, pos, w, n + 1) == Turns(file, pos, TurnOf(file, pos, w).w, n)
  {
  }

  lemma {:induction false} StalledForever(file: seq<u8>, pos: nat, w: Span, n: nat)
    requires SpanOk(file, pos, w) && Stalled(file, pos)
    ensures !Turns(file, pos, w, n).Stop?
    decreases n
  {
    if n > 0 {
      var avail := |file| - pos;
      var a, b := file[pos..w.base + w.valid], file[pos..pos + TOP];
      assert a <= b;
      if !Parse(a, avail).NeedsWindow? { VerdictStable(a, b, avail); }
      StalledForever(file, pos, TurnOf(file, pos, w).w, n - 1);
    }
  }

  /** The loop ends exactly when the header is not stalled. */
  lemma HaltsExactly(file: seq<u8>, pos: nat, w: Span)
    requires SpanOk(file, pos, w)
    ensures Halts(file, pos, w) <==> !Stalled(file, pos)
  {
    if Stalled(file, pos) {
      forall n ensures !Turns(file, pos, w, n).Stop? { StalledForever(file, pos, w, n); }
    } else {
      var n := HaltsUnlessStalled(file, pos, w);
    }
  }

  /** A level 2 header whose extended headers of 771 bytes each never end. */
  predicate EndlessChain(h: seq<u8>)
  {
    && |h| >= 26 && h[..7] == [26, 0, 0x2D, 0x6C, 0x68, 3, 0x2D] && h[20] == 2
    && forall i :: 7 <= i < |h| && i != 20 ==> h[i] == 3
  }

  lemma {:induction false} ChainNeverEnds(h: seq<u8>, pos: nat, total: nat)
    requires EndlessChain(h) && pos >= 26
    ensures Follow(h, pos, 771, [], [], total).ChainNeedsWindow?
    decreases |h| - pos
  {
    if pos <= |h| && 771 <= |h| - pos {
      assert Le16(h, pos + 769) == 771;
      assert Extend(h[pos], h[pos + 1..pos + 769], [], []) == Some(([], []));
      ChainNeverEnds(h, pos + 771, total + 771);
    }
  }

  /** Such a header is incomplete in every window. */
  lemma EndlessNeedsWindow(h: seq<u8>, avail: u32)
    requires EndlessChain(h)
    ensures Parse(h, avail).NeedsWindow?
  {
    assert h[0] == 26 && h[1] == 0 && h[2] == 0x2D && h[3] == 0x6C && h[4] == 0x68 && h[6] == 0x2D by {
      var m := h[..7];
      assert h[0] == m[0] && h[1] == m[1] && h[2] == m[2] && h[3] == m[3] && h[4] == m[4] && h[6] == m[6];
    }
    ChainNeverEnds(h, 26, 0);
  }

  /** So there are archives on which the loop never ends: one such header, more than 2^30 bytes long. */
  lemma EndlessChainStalls(file: seq<u8>, w: Span)
    requires EndlessChain(file) && TOP < |file| < TWO32 && SpanOk(file, 0, w)
    ensures Stalled(file, 0) && !Halts(file, 0, w)
  {
    var view := file[..TOP];
    assert view[..7] == file[..7] && file[0..TOP] == view;
    EndlessNeedsWindow(view, |file|);
    HaltsExactly(file, 0, w);
  }

  lemma EndlessChainExists(n: nat)
    requires n >= 26
    ensures exists h :: |h| == n && EndlessChain(h)
  {
    var start: seq<u8> := [26, 0, 0x2D, 0x6C, 0x68, 3, 0x2D];
    var h: seq<u8> := seq(n, i requires 0 <= i < n => if i < 7 then start[i] else if i == 20 then 2 else 3);
    assert h[..7] == start;
    assert |h| == n && EndlessChain(h);
  }

  /** No member the walk reaches is stalled. */
  predicate Smooth(file: seq<u8>, pos: nat)
    requires pos <= |file| < TWO32
    decreases |file| - pos
  {
    pos == |file| || file[pos] == 0 || |file| - pos < 24 ||
    (!Stalled(file, pos) && (Here(file, pos).Parsed? ==> Smooth(file, After(file, pos, Here(file, pos).entry))))
  }

  /** Archives of at most 2^30 bytes are. */
  lemma {:induction false} SmallIsSmooth(file: seq<u8>, pos: nat)
    requires pos <= |file| <= TOP
    ensures Smooth(file, pos)
    decreases |file| - pos
  {
    if pos < |file| && Here(file, pos).Parsed? { SmallIsSmooth(file, After(file, pos, Here(file, pos).entry)); }
  }
}
