/** GNU long-name records in the tar stream (sdk/tools/zz9k-archive.c): the name is appended chunk
    by chunk at the end of the C string collected so far. */
module TarNames {
  import opened Words
  import opened Names

  const LIMIT: nat := 255  // a buffer of MAX_NAME bytes less the terminating zero

  /** The name collected so far, and whether a byte of it did not fit. */
  datatype Collected = Collected(name: seq<u8>, overflow: bool)

  predicate NoZero(s: seq<u8>)
  {
    forall i :: 0 <= i < |s| ==> s[i] != 0
  }

  predicate NameOk(c: Collected)
  {
    NoZero(c.name) && |c.name| <= LIMIT
  }

  /** The overflow flag was raised by a name that filled the buffer, not by garbage after one. */
  predicate Sound(c: Collected)
  {
    NameOk(c) && (c.overflow ==> |c.name| == LIMIT)
  }

  lemma {:induction false} CStringFacts(s: seq<u8>)
    ensures NoZero(CString(s)) && CString(s) <= s
    ensures |CString(s)| < |s| ==> s[|CString(s)|] == 0
  {
    if s != [] && s[0] != 0 { CStringFacts(s[1..]); }
  }

  lemma {:induction false} CStringAfter(p: seq<u8>, s: seq<u8>)
    requires NoZero(p)
    ensures CString(p + s) == p + CString(s)
  {
    if p == [] {
      assert p + s == s;
    } else {
      CStringAfter(p[1..], s);
      assert (p + s)[1..] == p[1..] + s;
      assert p == [p[0]] + p[1..];
    }
  }

  /** One chunk `d` of the record, as the stream appends it. */
  function Append(c: Collected, d: seq<u8>): (r: Collected)
    requires NameOk(c)
  {
    var space := LIMIT - |c.name|;
    if |d| > space then Collected(CString(c.name + d[..space]), c.overflow || d[space] != 0)
    else Collected(CString(c.name + d), c.overflow)
  }

  /** The record read byte by byte: the name ends at the first zero, and what follows is padding. */
  function Scan(c: Collected, ended: bool, d: seq<u8>): (r: (Collected, bool))
    requires NameOk(c)
    ensures NameOk(r.0) && (Sound(c) ==> Sound(r.0))
    decreases |d|
  {
    if d == [] then (c, ended)
    else if ended || d[0] == 0 then Scan(c, true, d[1..])
    else if |c.name| < LIMIT then Scan(c.(name := c.name + [d[0]]), false, d[1..])
    else Scan(c.(overflow := true), false, d[1..])
  }

  predicate AllZero(s: seq<u8>)
  {
    forall i :: 0 <= i < |s| ==> s[i] == 0
  }

  /** After the name nothing but zeros, unless the name did not fit anyway. */
  predicate Padded(c: Collected, ended: bool, d: seq<u8>)
    requires Sound(c)
  {
    var n := CString(d);
    if ended then c.overflow || AllZero(d)
    else c.overflow || |c.name| + |n| > LIMIT || AllZero(d[|n|..])
  }

  /** What `Scan` comes to. */
  function Scanned(c: Collected, ended: bool, d: seq<u8>): (r: (Collected, bool))
    requires NameOk(c)
  {
    var n := CString(d);
    var room := LIMIT - |c.name|;
    if ended then (c, true)
    else if |n| > room then (Collected(c.name + n[..room], true), |n| < |d|)
    else (c.(name := c.name + n), |n| < |d|)
  }

  lemma {:induction false} ScanIs(c: Collected, ended: bool, d: seq<u8>)
    requires NameOk(c)
    ensures Scan(c, ended, d) == Scanned(c, ended, d)
    decreases |d|
  {
    assert c.name + [] == c.name;
    if d == [] {
    } else if ended || d[0] == 0 {
      ScanIs(c, true, d[1..]);
    } else if |c.name| < LIMIT {
      ScanIs(c.(name := c.name + [d[0]]), false, d[1..]);
      StepRoom(c.name, d);
    } else {
      ScanIs(c.(overflow := true), false, d[1..]);
      assert CString(d[1..])[..0] == [] && CString(d)[..0] == [];
    }
  }

  lemma StepRoom(p: seq<u8>, d: seq<u8>)
    requires d != [] && d[0] != 0 && |p| < LIMIT
    ensures var n, m := CString(d), CString(d[1..]);
      p + n == (p + [d[0]]) + m && |n| == |m| + 1
      && (|n| > LIMIT - |p| ==> p + n[..LIMIT - |p|] == (p + [d[0]]) + m[..LIMIT - |p| - 1])
  {
    RoomFor(p, d[0], CString(d[1..]), LIMIT - |p|);
  }

  lemma RoomFor(p: seq<u8>, c: u8, m: seq<u8>, room: nat)
    requires room > 0
    ensures p + ([c] + m) == (p + [c]) + m
    ensures 1 + |m| > room ==> p + ([c] + m)[..room] == (p + [c]) + m[..room - 1]
  {
    if 1 + |m| > room { assert ([c] + m)[..room] == [c] + m[..room - 1]; }
  }

  /** On padded records one chunk is the byte-by-byte reading of its bytes. */
  lemma AppendIsScan(c: Collected, ended: bool, d: seq<u8>)
    requires Sound(c) && Padded(c, ended, d)
    ensures Append(c, d) == Scan(c, ended, d).0
  {
    ScanIs(c, ended, d);
    CStringFacts(d);
    var n, space := CString(d), LIMIT - |c.name|;
    var head := if |d| > space then d[..space] else d;
    CStringAfter(c.name, head);
    CStringPrefix(d, |head|);
    assert c.name + [] == c.name;
  }

  lemma {:induction false} CStringPrefix(d: seq<u8>, k: nat)
    requires k <= |d|
    ensures CString(d[..k]) == if k < |CString(d)| then CString(d)[..k] else CString(d)
  {
    if k > 0 && d[0] != 0 {
      CStringPrefix(d[1..], k - 1);
      assert d[..k][1..] == d[1..][..k - 1];
    }
  }

  /** A chunking of a record: nonempty pieces, in order. */
  function Joined(chunks: seq<seq<u8>>): (d: seq<u8>)
  {
    if chunks == [] then [] else chunks[0] + Joined(chunks[1..])
  }

  function AppendAll(c: Collected, chunks: seq<seq<u8>>): (r: Collected)
    requires NameOk(c)
    decreases |chunks|
  {
    if chunks == [] then c
    else
      AppendOk(c, chunks[0]);
      AppendAll(Append(c, chunks[0]), chunks[1..])
  }

  lemma AppendOk(c: Collected, d: seq<u8>)
    requires NameOk(c)
    ensures NameOk(Append(c, d))
  {
    var space := LIMIT - |c.name|;
    var head := if |d| > space then d[..space] else d;
    CStringAfter(c.name, head);
    CStringFacts(head);
    CStringFacts(d);
    CStringPrefix(d, |head|);
  }

  /** What the end of the record makes of it. */
  datatype Record = TooLong | Name(name: seq<u8>)

  function Outcome(c: Collected): (r: Record)
  {
    if c.overflow then TooLong else Name(c.name)
  }

  /** Every chunking of the record gives what the record in one piece gives. */
  ghost predicate ChunkFree(p: seq<u8>, d: seq<u8>)
    requires NoZero(p) && |p| <= LIMIT
  {
    forall chunks :: Joined(chunks) == d ==>
      Outcome(AppendAll(Collected(p, false), chunks)) == Outcome(Append(Collected(p, false), d))
  }

  lemma {:induction false} ScanAppend(c: Collected, ended: bool, a: seq<u8>, b: seq<u8>)
    requires NameOk(c)
    ensures var r := Scan(c, ended, a); Scan(c, ended, a + b) == Scan(r.0, r.1, b)
    decreases |a|
  {
    if a == [] {
      assert a + b == b;
    } else {
      assert (a + b)[1..] == a[1..] + b;
      if ended || a[0] == 0 {
        ScanAppend(c, true, a[1..], b);
      } else if |c.name| < LIMIT {
        ScanAppend(c.(name := c.name + [a[0]]), false, a[1..], b);
      } else {
        ScanAppend(c.(overflow := true), false, a[1..], b);
      }
    }
  }

  /** Both parts of a padded record are padded where they stand. */
  lemma PaddedParts(c: Collected, ended: bool, a: seq<u8>, b: seq<u8>)
    requires Sound(c) && Padded(c, ended, a + b)
    ensures Padded(c, ended, a)
    ensures var r := Scan(c, ended, a); Padded(r.0, r.1, b)
  {
    ScanIs(c, ended, a);
    CStringFacts(a);
    if ended {
      assert a == (a + b)[..|a|] && b == (a + b)[|a|..];
    } else if |CString(a)| == |a| {
      CStringAfter(a, b);
      assert a[|a|..] == [];
      assert (a + b)[|a + CString(b)|..] == b[|CString(b)|..];
    } else {
      EarlyEnd(a, b);
      var n := |CString(a)|;
      assert a[n..] == (a + b)[n..|a|] && b == (a + b)[|a|..];
    }
  }

  lemma {:induction false} EarlyEnd(a: seq<u8>, b: seq<u8>)
    requires |CString(a)| < |a|
    ensures CString(a + b) == CString(a)
  {
    assert (a + b)[1..] == a[1..] + b;
    if a[0] != 0 { EarlyEnd(a[1..], b); }
  }

  lemma {:induction false} ChunksAreScan(c: Collected, ended: bool, chunks: seq<seq<u8>>)
    requires Sound(c) && Padded(c, ended, Joined(chunks))
    ensures AppendAll(c, chunks) == Scan(c, ended, Joined(chunks)).0
    decreases |chunks|
  {
    if chunks != [] {
      var d, rest := chunks[0], Joined(chunks[1..]);
      PaddedParts(c, ended, d, rest);
      AppendIsScan(c, ended, d);
      ScanAppend(c, ended, d, rest);
      var r := Scan(c, ended, d);
      ChunksAreScan(r.0, r.1, chunks[1..]);
    }
  }

  lemma JoinedOne(a: seq<u8>)
    ensures Joined([a]) == a
  {
    assert [a][1..] == [] && a + [] == a;
  }

  lemma JoinedPair(a: seq<u8>, b: seq<u8>)
    ensures Joined([a, b]) == a + b
  {
    assert [a, b][1..] == [b];
    JoinedOne(b);
  }

  lemma AppendPair(c: Collected, a: seq<u8>, b: seq<u8>)
    requires NameOk(c)
    ensures NameOk(Append(c, a)) && AppendAll(c, [a, b]) == Append(Append(c, a), b)
  {
    AppendOk(c, a);
    var e := Append(c, a);
    AppendOk(e, b);
    assert [a, b][1..] == [b] && [b][1..] == [];
    assert AppendAll(e, [b]) == AppendAll(Append(e, b), []);
  }

  /** A padded record, or one whose name is too long, gives the same in every chunking. */
  lemma PaddedIsChunkFree(p: seq<u8>, d: seq<u8>)
    requires NoZero(p) && |p| <= LIMIT
    requires AllZero(d[|CString(d)|..]) || |p| + |CString(d)| > LIMIT
    ensures ChunkFree(p, d)
  {
    var c := Collected(p, false);
    AppendIsScan(c, false, d);
    forall chunks | Joined(chunks) == d ensures Outcome(AppendAll(c, chunks)) == Outcome(Append(c, d)) {
      ChunksAreScan(c, false, chunks);
    }
  }

  lemma {:induction false} FirstNonZero(s: seq<u8>) returns (j: nat)
    requires !AllZero(s)
    ensures j < |s| && s[j] != 0 && AllZero(s[..j])
  {
    if s[0] != 0 {
      j := 0;
    } else {
      j := FirstNonZero(s[1..]);
      assert s[..j + 1] == [s[0]] + s[1..][..j];
      j := j + 1;
    }
  }

  /** Cutting an unpadded record before its second name glues the two names together, or overflows. */
  lemma CutGlues(p: seq<u8>, d: seq<u8>) returns (chunks: seq<seq<u8>>)
    requires NoZero(p) && |p| <= LIMIT
    requires !AllZero(d[|CString(d)|..]) && |p| + |CString(d)| <= LIMIT
    ensures |chunks| == 2 && Joined(chunks) == d
    ensures Outcome(AppendAll(Collected(p, false), chunks)) != Name(p + CString(d))
  {
    var c, n := Collected(p, false), CString(d);
    CStringFacts(d);
    var j := FirstNonZero(d[|n|..]);
    j := |n| + j;
    var a, b := d[..j], d[j..];
    chunks := [a, b];
    JoinedPair(a, b);
    assert a + b == d;
    CStringPrefix(d, j);
    assert AllZero(a[|n|..]) by { assert a[|n|..] == d[|n|..][..j - |n|]; }
    AppendIsScan(c, false, a);
    ScanIs(c, false, a);
    AppendPair(c, a, b);
    assert Append(c, a) == Collected(p + n, false);
    Glued(p + n, b);
  }

  lemma Glued(q: seq<u8>, b: seq<u8>)
    requires NoZero(q) && |q| <= LIMIT && b != [] && b[0] != 0
    ensures Outcome(Append(Collected(q, false), b)) != Name(q)
  {
    var space := LIMIT - |q|;
    if |b| > space {
      CStringAfter(q, b[..space]);
      if space > 0 { assert CString(b[..space]) != []; }
    } else {
      CStringAfter(q, b);
      assert CString(b) != [];
    }
  }

  lemma Disagreement(p: seq<u8>, d: seq<u8>, chunks: seq<seq<u8>>)
    requires NoZero(p) && |p| <= LIMIT && Joined(chunks) == d
    requires Outcome(AppendAll(Collected(p, false), chunks)) != Outcome(Append(Collected(p, false), d))
    ensures !ChunkFree(p, d)
  {
  }

  /** An unpadded record accepted in one piece comes out differently in some two pieces. */
  lemma UnpaddedIsNotChunkFree(p: seq<u8>, d: seq<u8>)
    requires NoZero(p) && |p| <= LIMIT && Outcome(Append(Collected(p, false), d)).Name?
    requires !AllZero(d[|CString(d)|..]) && |p| + |CString(d)| <= LIMIT
    ensures !ChunkFree(p, d)
  {
    OnePiece(p, d);
    var chunks := CutGlues(p, d);
    Disagreement(p, d, chunks);
  }

  /** Every chunking of the record gives the name it holds, the bytes before its first zero. */
  ghost predicate AlwaysNamed(p: seq<u8>, d: seq<u8>)
    requires NoZero(p) && |p| <= LIMIT
  {
    forall chunks :: Joined(chunks) == d ==> Outcome(AppendAll(Collected(p, false), chunks)) == Name(p + CString(d))
  }

  /** Every chunking gives the record's name exactly when the name fits and nothing but zeros
      follows it. */
  lemma ChunkFreeExactly(p: seq<u8>, d: seq<u8>)
    requires NoZero(p) && |p| <= LIMIT
    ensures AlwaysNamed(p, d) <==> |p| + |CString(d)| <= LIMIT && AllZero(d[|CString(d)|..])
  {
    var c, n := Collected(p, false), CString(d);
    if |p| + |n| > LIMIT || AllZero(d[|n|..]) {
      PaddedIsChunkFree(p, d);
      AppendIsScan(c, false, d);
      ScanIs(c, false, d);
      JoinedOne(d);
      OneChunk(c, d);
    } else {
      var chunks := CutGlues(p, d);
    }
  }

  lemma OneChunk(c: Collected, d: seq<u8>)
    requires NameOk(c)
    ensures AppendAll(c, [d]) == Append(c, d)
  {
    AppendOk(c, d);
    assert [d][1..] == [];
  }

  /** A record that one piece accepts is accepted alike in every chunking exactly when nothing but
      zeros follows its name. */
  lemma AcceptedAlikeExactly(p: seq<u8>, d: seq<u8>)
    requires NoZero(p) && |p| <= LIMIT && Outcome(Append(Collected(p, false), d)).Name?
    ensures ChunkFree(p, d) <==> AllZero(d[|CString(d)|..])
  {
    var c, n := Collected(p, false), CString(d);
    if AllZero(d[|n|..]) {
      PaddedIsChunkFree(p, d);
    } else {
      CStringFacts(d);
      if |n| > LIMIT - |p| {
        AppendIsScan(c, false, d);
        ScanIs(c, false, d);
      }
      UnpaddedIsNotChunkFree(p, d);
    }
  }

  lemma OnePiece(p: seq<u8>, d: seq<u8>)
    requires NoZero(p) && |p| + |CString(d)| <= LIMIT
    ensures Append(Collected(p, false), d).name == p + CString(d)
  {
    var space := LIMIT - |p|;
    var head := if |d| > space then d[..space] else d;
    CStringAfter(p, head);
    CStringPrefix(d, |head|);
    assert d[..|head|] == head;
  }

  /** For instance: the eight bytes `ab 0 cd 0 0 0` name "ab" in one piece and "abcd" in two. */
  lemma ChunkingCanMatter()
    ensures var d := [0x61, 0x62, 0, 0x63, 0x64, 0, 0, 0];
      && Outcome(Append(Collected([], false), d)) == Name([0x61, 0x62])
      && Outcome(AppendAll(Collected([], false), [d[..3], d[3..]])) == Name([0x61, 0x62, 0x63, 0x64])
  {
    var d: seq<u8> := [0x61, 0x62, 0, 0x63, 0x64, 0, 0, 0];
    CStringOfTwo(d);
    OnePiece([], d);
    AppendPair(Collected([], false), d[..3], d[3..]);
    CStringOfTwo(d[..3]);
    OnePiece([], d[..3]);
    CStringOfTwo(d[3..]);
    OnePiece([0x61, 0x62], d[3..]);
    assert [0x61, 0x62] + [0x63, 0x64] == [0x61, 0x62, 0x63, 0x64];
  }

  /** And the 256 bytes `a 0` and 254 times `b` are too long in one piece, but name "ab" in two. */
  lemma ChunkingCanReject()
    ensures var d := [0x61, 0] + seq(254, _ => 0x62);
      && Outcome(Append(Collected([], false), d)) == TooLong
      && Outcome(AppendAll(Collected([], false), [d[..255], d[255..]])) == Name([0x61, 0x62])
  {
    var d: seq<u8> := [0x61, 0] + seq(254, _ => 0x62);
    var a, b := d[..255], d[255..];
    assert CString(a[1..]) == [] && CString(a) == [0x61] + CString(a[1..]);
    assert b == [0x62] && CString(b) == [0x62] + CString(b[1..]);
    AppendPair(Collected([], false), a, b);
    OnePiece([], a);
    OnePiece([0x61], b);
    assert [0x61] + [0x62] == [0x61, 0x62];
  }

  lemma CStringOfTwo(d: seq<u8>)
    requires |d| >= 3 && d[0] != 0 && d[1] != 0 && d[2] == 0
    ensures CString(d) == [d[0], d[1]]
  {
    assert CString(d[1..]) == [d[1]] + CString(d[1..][1..]) && d[1..][1..][0] == 0;
  }
}
