/** Entry names of the archive engine (sdk/tools/zz9k-archive.c): C strings as byte sequences
    without the terminating zero. */
module Names {
  import opened Words

  const MAX_NAME: nat := 256
  const SLASH: u8 := 0x2F
  const BACKSLASH: u8 := 0x5C
  const DOT: u8 := 0x2E

  datatype Option<T> = None | Some(value: T)

  /** The C string that starts at the first byte: everything before the first zero. */
  function CString(s: seq<u8>): (r: seq<u8>)
    ensures |r| <= |s|
  {
    if s == [] || s[0] == 0 then [] else [s[0]] + CString(s[1..])
  }

  /** `zz9k_archive_copy_name` into a buffer of MAX_NAME bytes. */
  function CopyName(src: seq<u8>): (r: Option<seq<u8>>)
  {
    if |src| == 0 || |src| >= MAX_NAME then None else Some(CString(src))
  }

  /** Every `from` becomes a slash. */
  function Slashes(s: seq<u8>, from: u8): (r: seq<u8>)
    ensures |r| == |s|
  {
    seq(|s|, i requires 0 <= i < |s| => if s[i] == from then SLASH else s[i])
  }

  /** Leading "./" components go, unless nothing would be left. */
  function DropDots(s: seq<u8>): (r: seq<u8>)
    ensures |r| <= |s|
  {
    if |s| > 2 && s[0] == DOT && s[1] == SLASH then DropDots(s[2..]) else s
  }

  /** "//" becomes "/" and "/./" becomes "/", scanning from the left. */
  function Collapse(s: seq<u8>): (r: seq<u8>)
    ensures |r| <= |s|
    decreases |s|
  {
    if s == [] then []
    else if |s| >= 2 && s[0] == SLASH && s[1] == SLASH then Collapse([SLASH] + s[2..])
    else if |s| >= 3 && s[0] == SLASH && s[1] == DOT && s[2] == SLASH then Collapse([SLASH] + s[3..])
    else [s[0]] + Collapse(s[1..])
  }

  /** `zz9k_archive_strip_current_dir_prefix`. */
  function Strip(s: seq<u8>): (r: seq<u8>)
    ensures |r| <= |s|
  {
    Collapse(DropDots(s))
  }

  /** No "//" and no "/./" anywhere. */
  predicate Clean(s: seq<u8>)
  {
    forall i :: 0 <= i && i + 1 < |s| && s[i] == SLASH ==>
      s[i + 1] != SLASH && !(i + 2 < |s| && s[i + 1] == DOT && s[i + 2] == SLASH)
  }

  lemma {:induction false} CollapseKeepsHead(s: seq<u8>)
    requires s != []
    ensures Collapse(s) != [] && Collapse(s)[0] == s[0]
    decreases |s|
  {
    if |s| >= 2 && s[0] == SLASH && s[1] == SLASH {
      CollapseKeepsHead([SLASH] + s[2..]);
    } else if |s| >= 3 && s[0] == SLASH && s[1] == DOT && s[2] == SLASH {
      CollapseKeepsHead([SLASH] + s[3..]);
    }
  }

  /** Collapsing leaves no "//" and no "/./", and changes nothing when there is none. */
  lemma {:induction false} CollapseCleans(s: seq<u8>)
    ensures Clean(Collapse(s)) && (Clean(s) <==> Collapse(s) == s)
    decreases |s|
  {
    if s == [] {
    } else if |s| >= 2 && s[0] == SLASH && s[1] == SLASH {
      CollapseCleans([SLASH] + s[2..]);
    } else if |s| >= 3 && s[0] == SLASH && s[1] == DOT && s[2] == SLASH {
      CollapseCleans([SLASH] + s[3..]);
    } else {
      CollapseCleans(s[1..]);
      CleanAfter(s[0], s[1..], Collapse(s[1..]));
    }
  }

  lemma CleanAfter(c: u8, rest: seq<u8>, r: seq<u8>)
    requires r == Collapse(rest) && Clean(r) && (Clean(rest) ==> r == rest)
    requires c == SLASH ==> !(|rest| >= 1 && rest[0] == SLASH) && !(|rest| >= 2 && rest[0] == DOT && rest[1] == SLASH)
    ensures Clean([c] + r) && (Clean([c] + rest) ==> r == rest)
  {
    var s := [c] + r;
    if rest != [] {
      CollapseKeepsHead(rest);
      if rest[0] != SLASH && |rest| >= 2 { CollapseKeepsHead(rest[1..]); }
    }
    forall i | 0 <= i && i + 1 < |s| && s[i] == SLASH
      ensures s[i + 1] != SLASH && !(i + 2 < |s| && s[i + 1] == DOT && s[i + 2] == SLASH)
    {
      if i > 0 { assert r[i - 1] == SLASH; }
    }
    if Clean([c] + rest) { CleanTail(c, rest); }
  }

  lemma CleanTail(c: u8, rest: seq<u8>)
    requires Clean([c] + rest)
    ensures Clean(rest)
  {
    var s := [c] + rest;
    forall i | 0 <= i && i + 1 < |rest| && rest[i] == SLASH
      ensures rest[i + 1] != SLASH && !(i + 2 < |rest| && rest[i + 1] == DOT && rest[i + 2] == SLASH)
    {
      assert s[i + 1] == SLASH && s[i + 2] == rest[i + 1];
      if i + 2 < |rest| { assert s[i + 3] == rest[i + 2]; }
    }
  }

  /** The components of a path, after `cur` has been read of the first: empty and "." ones do not
      count. */
  function Components(cur: seq<u8>, s: seq<u8>): (p: seq<seq<u8>>)
    decreases |s|
  {
    if s == [] then Component(cur)
    else if s[0] == SLASH then Component(cur) + Components([], s[1..])
    else Components(cur + [s[0]], s[1..])
  }

  function Component(cur: seq<u8>): (p: seq<seq<u8>>)
  {
    if cur == [] || cur == [DOT] then [] else [cur]
  }

  lemma {:induction false} CollapseSamePath(cur: seq<u8>, s: seq<u8>)
    ensures Components(cur, Collapse(s)) == Components(cur, s)
    decreases |s|
  {
    if s == [] {
    } else if |s| >= 2 && s[0] == SLASH && s[1] == SLASH {
      CollapseSamePath(cur, [SLASH] + s[2..]);
      SlashSlash(cur, s);
    } else if |s| >= 3 && s[0] == SLASH && s[1] == DOT && s[2] == SLASH {
      CollapseSamePath(cur, [SLASH] + s[3..]);
      SlashDotSlash(cur, s);
    } else {
      var r := Collapse(s[1..]);
      assert ([s[0]] + r)[1..] == r;
      CollapseSamePath(if s[0] == SLASH then [] else cur + [s[0]], s[1..]);
    }
  }

  lemma SlashSlash(cur: seq<u8>, s: seq<u8>)
    requires |s| >= 2 && s[0] == SLASH && s[1] == SLASH
    ensures Components(cur, s) == Components(cur, [SLASH] + s[2..])
  {
    assert ([SLASH] + s[2..])[1..] == s[2..] && s[1..][1..] == s[2..];
    assert Components([], s[1..]) == Component([]) + Components([], s[2..]);
  }

  lemma SlashDotSlash(cur: seq<u8>, s: seq<u8>)
    requires |s| >= 3 && s[0] == SLASH && s[1] == DOT && s[2] == SLASH
    ensures Components(cur, s) == Components(cur, [SLASH] + s[3..])
  {
    assert ([SLASH] + s[3..])[1..] == s[3..];
    DotSlash(s[1..]);
    assert s[1..][2..] == s[3..];
  }

  lemma DotSlash(s: seq<u8>)
    requires |s| >= 2 && s[0] == DOT && s[1] == SLASH
    ensures Components([], s) == Components([], s[2..])
  {
    assert s[1..][1..] == s[2..] && [] + [DOT] == [DOT];
    assert Components([DOT], s[1..]) == Component([DOT]) + Components([], s[2..]);
  }

  lemma {:induction false} DropDotsFacts(s: seq<u8>)
    ensures Components([], DropDots(s)) == Components([], s)
    ensures |DropDots(s)| > 2 ==> !(DropDots(s)[0] == DOT && DropDots(s)[1] == SLASH)
  {
    if |s| > 2 && s[0] == DOT && s[1] == SLASH {
      DropDotsFacts(s[2..]);
      DotSlash(s);
    }
  }

  /** A stripped name stands for the same path, is clean, and does not start with "./" unless that is
      all of it; stripping it again changes nothing. */
  lemma StripNormalizes(s: seq<u8>)
    ensures Components([], Strip(s)) == Components([], s) && Clean(Strip(s))
    ensures |Strip(s)| > 2 ==> !(Strip(s)[0] == DOT && Strip(s)[1] == SLASH)
    ensures Strip(Strip(s)) == Strip(s)
  {
    var d := DropDots(s);
    DropDotsFacts(s);
    CollapseCleans(d);
    CollapseSamePath([], d);
    CollapseStart(d);
    CollapseCleans(Collapse(d));
  }

  lemma CollapseStart(d: seq<u8>)
    requires |d| > 2 ==> !(d[0] == DOT && d[1] == SLASH)
    ensures |Collapse(d)| > 2 ==> !(Collapse(d)[0] == DOT && Collapse(d)[1] == SLASH)
  {
    if d != [] {
      CollapseKeepsHead(d);
      if |d| > 1 { CollapseKeepsHead(d[1..]); }
    }
  }

  /** `zz9k_archive_copy_gzip_name`. */
  function CopyGzipName(src: seq<u8>): (r: Option<seq<u8>>)
  {
    match CopyName(src)
    case None => None
    case Some(s) => Some(Strip(Slashes(s, BACKSLASH)))
  }

  /** `zz9k_archive_copy_lha_name`: 0xff separates directories too. */
  function CopyLhaName(src: seq<u8>): (r: Option<seq<u8>>)
  {
    match CopyGzipName(src)
    case None => None
    case Some(s) => Some(Strip(Slashes(s, 0xFF)))
  }

  predicate EndsWithSlash(s: seq<u8>)
  {
    |s| > 0 && s[|s| - 1] == SLASH
  }

  /** `zz9k_archive_lha_join_dir_name`. */
  function JoinDirName(dir: seq<u8>, name: seq<u8>): (r: Option<seq<u8>>)
  {
    var sep := if dir != [] && !EndsWithSlash(dir) then [SLASH] else [];
    if |name| >= MAX_NAME || |dir| + |sep| + |name| >= MAX_NAME then None
    else Some(Strip(dir + sep + name))
  }
}
