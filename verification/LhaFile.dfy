/** The single-pass file walk of LHA archives (sdk/tools/zz9k-archive.c), with its window. */
module LhaFile {
  import opened Words
  import opened Lha
  import opened LhaWalk

  /** The header window: a buffer of which the first `valid` bytes mirror the file from `base`. */
  class Window {
    var bytes: array<u8>
    var base: nat
    var valid: nat

    ghost predicate Mirrors(file: seq<u8>)
      reads this, bytes
    {
      && valid <= bytes.Length < TWO32 && base + valid <= |file|
      && bytes[..valid] == file[base..base + valid]
    }

    function State(): (w: Span)
      requires bytes.Length < TWO32
      reads this
    {
      Span(bytes.Length, base, valid)
    }

    constructor (size: u32)
      ensures bytes.Length == size && base == 0 && valid == 0 && fresh(bytes)
    {
      bytes := new u8[size];
      base, valid := 0, 0;
    }

    /** `fseek` to `pos` and read as much as the window takes. */
    method Refill(file: seq<u8>, pos: nat, avail: nat)
      requires pos + avail == |file| < TWO32 && bytes.Length < TWO32
      modifies this`base, this`valid, bytes
      ensures Mirrors(file) && State() == Filled(bytes.Length, pos, avail)
    {
      base := pos;
      valid := if avail < bytes.Length then avail else bytes.Length;
      for i := 0 to valid
        modifies bytes
        invariant forall k :: 0 <= k < i ==> bytes[k] == file[pos + k]
      {
        bytes[i] := file[pos + i];
      }
    }

    /** `realloc` to a larger capacity; the refill that follows overwrites the contents. */
    method Enlarge(capacity: u32)
      modifies this`bytes
      ensures bytes.Length == capacity && fresh(bytes)
    {
      bytes := new u8[capacity];
    }
  }

  /** What the search for one member's header comes to. */
  datatype Search = Header(entry: Entry) | NoHeader | EnvironmentFailed

  /** What a look through the window settles: another turn, or the verdict on the member. */
  ghost predicate Settles(file: seq<u8>, pos: nat, w: Span, v: Verdict)
    requires SpanOk(file, pos, w)
  {
    var more := v.NeedsWindow? && !(w.base == pos && w.valid >= |file| - pos);
    TurnOf(file, pos, w).Again? == more && (!more ==> v == Here(file, pos))
  }

  /** The parse of what the window shows of the member at `pos`. */
  method Look(file: seq<u8>, pos: nat, w: Window) returns (v: Verdict)
    requires w.Mirrors(file) && SpanOk(file, pos, w.State())
    ensures Settles(file, pos, w.State(), v)
  {
    var view := w.bytes[pos - w.base..w.valid];
    SameView(file, pos, w.State(), w.bytes[..w.valid], view);
    v := ParseView(file, pos, w.State(), view);
  }

  method ParseView(file: seq<u8>, pos: nat, ghost w: Span, view: seq<u8>) returns (v: Verdict)
    requires SpanOk(file, pos, w) && view == file[pos..w.base + w.valid]
    ensures Settles(file, pos, w, v)
  {
    v := ParseHeader(view, |file| - pos);
    LookSettles(file, pos, w, view, v);
  }

  lemma LookSettles(file: seq<u8>, pos: nat, w: Span, view: seq<u8>, v: Verdict)
    requires SpanOk(file, pos, w) && view == file[pos..w.base + w.valid] && v == Parse(view, |file| - pos)
    ensures Settles(file, pos, w, v)
  {
    FinalVerdict(file, pos, w, view, v);
    MoreTurns(file, pos, w, view, v);
  }

  lemma MoreTurns(file: seq<u8>, pos: nat, w: Span, view: seq<u8>, v: Verdict)
    requires SpanOk(file, pos, w) && view == file[pos..w.base + w.valid] && v == Parse(view, |file| - pos)
    ensures TurnOf(file, pos, w).Again? == (v.NeedsWindow? && !(w.base == pos && w.valid >= |file| - pos))
  {
  }

  lemma FinalVerdict(file: seq<u8>, pos: nat, w: Span, view: seq<u8>, v: Verdict)
    requires SpanOk(file, pos, w) && view == file[pos..w.base + w.valid] && v == Parse(view, |file| - pos)
    ensures !v.NeedsWindow? || w.base + w.valid == |file| ==> v == Here(file, pos)
  {
    if w.base + w.valid == |file| {
      assert view == file[pos..];
    } else if !v.NeedsWindow? {
      assert view <= file[pos..];
      VerdictStable(view, file[pos..], |file| - pos);
    }
  }

  /** The inner loop of the walk: retry with a recentred, then with a larger window.  `env(k)`
      says whether the `k`-th allocation or read succeeds. */
  method FindHeader(file: seq<u8>, pos: nat, w: Window, env: nat -> bool, tick0: nat) returns (s: Search, tick: nat)
    requires w.Mirrors(file) && SpanOk(file, pos, w.State()) && !Stalled(file, pos)
    modifies w, w.bytes
    ensures w.Mirrors(file) && SpanOk(file, pos, w.State()) && (w.bytes == old(w.bytes) || fresh(w.bytes))
    ensures s.Header? ==> Here(file, pos) == Parsed(s.entry)
    ensures s.NoHeader? ==> !Here(file, pos).Parsed?
    ensures s.EnvironmentFailed? ==> exists k :: !env(k)
  {
    tick := tick0;
    var v := Look(file, pos, w);
    while v.NeedsWindow? && !(w.base == pos && w.valid >= |file| - pos)
      invariant w.Mirrors(file) && SpanOk(file, pos, w.State()) && (w.bytes == old(w.bytes) || fresh(w.bytes))
      invariant Settles(file, pos, w.State(), v)
      decreases Room(file, pos, w.State())
    {
      TurnUsesRoom(file, pos, w.State());
      tick := tick + 1;
      if !env(tick) { return EnvironmentFailed, tick; }
      Widen(file, pos, w);
      v := Look(file, pos, w);
    }
    s := if v.Parsed? then Header(v.entry) else NoHeader;
  }

  /** Recentre the window on the member; if it is centred already, enlarge it. */
  method Widen(file: seq<u8>, pos: nat, w: Window)
    requires w.Mirrors(file) && SpanOk(file, pos, w.State()) && TurnOf(file, pos, w.State()).Again?
    modifies w, w.bytes
    ensures w.Mirrors(file) && (w.bytes == old(w.bytes) || fresh(w.bytes))
    ensures w.State() == TurnOf(file, pos, old(w.State())).w
  {
    var avail := |file| - pos;
    if w.base == pos {
      var grown := Grown(w.bytes.Length, avail);
      if grown > w.bytes.Length { w.Enlarge(grown); }
    }
    w.Refill(file, pos, avail);
  }

  lemma SameView(file: seq<u8>, pos: nat, w: Span, bytes: seq<u8>, view: seq<u8>)
    requires SpanOk(file, pos, w) && |bytes| == w.valid && bytes == file[w.base..w.base + w.valid]
    requires view == bytes[pos - w.base..]
    ensures view == file[pos..w.base + w.valid] && view <= file[pos..]
  {
  }

  /** What stays true of the window when the walk moves on to `pos`. */
  ghost predicate SpanShape(file: seq<u8>, pos: nat, w: Span)
  {
    && |file| < TWO32 && pos <= |file| && w.base <= pos
    && w == Filled(w.capacity, w.base, |file| - w.base)
    && (Rung(w.capacity) || (|file| - pos <= w.capacity && w.capacity <= TOP))
  }

  /** A window before the first read, or one filled earlier in the walk. */
  ghost predicate WindowOk(file: seq<u8>, pos: nat, w: Window)
    reads w, w.bytes
  {
    w.Mirrors(file) && (SpanShape(file, pos, w.State()) || (w.valid == 0 && w.bytes.Length == CHUNK && w.base == 0))
  }

  /** No listing goes past this point. */
  predicate AtEnd(file: seq<u8>, pos: nat)
    requires pos < |file|
  {
    file[pos] == 0 || |file| - pos < 24
  }

  /** One member of the walk: cancellation, the refill when the window does not reach it, the end
      marks, and the search for its header. */
  method NextMember(file: seq<u8>, pos: nat, w: Window, env: nat -> bool, tick0: nat)
    returns (atEnd: bool, s: Search, tick: nat)
    requires pos < |file| < TWO32 && WindowOk(file, pos, w) && (AtEnd(file, pos) || !Stalled(file, pos))
    modifies w, w.bytes
    ensures WindowOk(file, pos, w) && (w.bytes == old(w.bytes) || fresh(w.bytes))
    ensures s.EnvironmentFailed? ==> exists k :: !env(k)
    ensures !s.EnvironmentFailed? ==> atEnd == AtEnd(file, pos)
    ensures s.Header? ==> !atEnd && Here(file, pos) == Parsed(s.entry)
    ensures s.NoHeader? && !atEnd ==> !Here(file, pos).Parsed?
  {
    atEnd, tick := false, tick0 + 1;
    if !env(tick) { return false, EnvironmentFailed, tick; }  // cancelled
    if pos < w.base || pos >= w.base + w.valid {
      tick := tick + 1;
      if !env(tick) { return false, EnvironmentFailed, tick; }
      w.Refill(file, pos, |file| - pos);
    }
    assert w.bytes[..w.valid][pos - w.base] == file[pos];
    if w.bytes[pos - w.base] == 0 || |file| - pos < 24 { return true, NoHeader, tick; }
    s, tick := FindHeader(file, pos, w, env, tick);
  }

  /** `zz9k_archive_lha_list_file`: a success is exactly the in-memory listing; without failures
      of the environment it succeeds exactly when the in-memory walk does; and the members
      handed out on the way are always the first ones of that listing. */
  method ListFile(file: seq<u8>, env: nat -> bool) returns (ok: bool, entries: seq<Entry>)
    requires |file| < TWO32 && Smooth(file, 0)
    ensures ok ==> ListFrom(file, 0) == Listing(entries, true)
    ensures entries <= ListFrom(file, 0).entries
    ensures (forall k :: env(k)) ==> ListFrom(file, 0) == Listing(entries, ok)
  {
    var w := new Window(CHUNK);
    var pos, tick: nat := 0, 0;
    entries := [];
    while pos < |file|
      invariant pos <= |file| && Progress(file, pos, entries) && Smooth(file, pos)
      invariant WindowOk(file, pos, w) && fresh(w) && fresh(w.bytes)
      decreases |file| - pos
    {
      var atEnd, s;
      atEnd, s, tick := NextMember(file, pos, w, env, tick);
      if s.EnvironmentFailed? { return false, entries; }
      if atEnd { return true, entries; }
      if s.NoHeader? { return false, entries; }
      tick := tick + 1;
      if !env(tick) { return false, entries; }  // the entry table could not grow
      Advance(file, pos, entries, s.entry);
      entries := entries + [Placed(s.entry, pos)];
      pos := After(file, pos, s.entry);
    }
    ok := true;
  }
}
