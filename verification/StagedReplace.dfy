/** Replacing a file by a fully written temporary (sdk/tools/zz9k-archive.c), on a file system
    whose renames and removals may fail at any time. */
module StagedReplace {
  import opened Words
  import opened Names

  type Path = seq<u8>
  type Files = map<Path, seq<u8>>

  /** A file system; `trace` remembers every state it has been in. */
  class Disk {
    var files: Files
    ghost var trace: seq<Files>

    constructor (files: Files)
      ensures this.files == files && trace == [files]
    {
      this.files := files;
      trace := [files];
    }

    /** `rename`: fails without effect if the environment says so or the source is missing. */
    method Rename(a: Path, b: Path, works: bool) returns (ok: bool)
      modifies this
      ensures ok == (works && a in old(files))
      ensures files == if ok then Renamed(old(files), a, b) else old(files)
      ensures trace == old(trace) + [files]
    {
      ok := works && a in files;
      if ok { files := Renamed(files, a, b); }
      trace := trace + [files];
    }

    method Remove(p: Path, works: bool) returns (ok: bool)
      modifies this
      ensures ok == (works && p in old(files))
      ensures files == if ok then old(files) - {p} else old(files)
      ensures trace == old(trace) + [files]
    {
      ok := works && p in files;
      if ok { files := files - {p}; }
      trace := trace + [files];
    }
  }

  function Renamed(f: Files, a: Path, b: Path): (g: Files)
    requires a in f
  {
    (f - {a})[b := f[a]]
  }

  /** The longest final component that a sibling name keeps. */
  const KEPT: nat := 96

  predicate Separator(c: u8)
  {
    c == SLASH || c == 0x3A || c == BACKSLASH
  }

  /** Where the final component of the first `n` bytes starts. */
  function ComponentStart(path: Path, n: nat): (s: nat)
    requires n <= |path|
    ensures s <= n
  {
    if n > 0 && !Separator(path[n - 1]) then ComponentStart(path, n - 1) else n
  }

  function Trimmed(path: Path): (t: Path)
    ensures t <= path
  {
    var s := ComponentStart(path, |path|);
    if |path| - s > KEPT then path[..s + KEPT] else path
  }

  function Digit(n: nat): (c: u8)
    requires n < 10
  {
    0x30 + n
  }

  function Decimal(n: nat): (d: seq<u8>)
    requires n < 100
  {
    if n < 10 then [Digit(n)] else [Digit(n / 10), Digit(n % 10)]
  }

  function Suffix(base: seq<u8>, tag: seq<u8>, slot: nat): (s: seq<u8>)
    requires slot < 32
  {
    if slot == 0 then base else tag + Decimal(slot)
  }

  /** The sibling name of slot 0 to 31. */
  function Sibling(path: Path, base: seq<u8>, tag: seq<u8>, slot: nat): (p: Path)
    requires slot < 32
  {
    Trimmed(path) + Suffix(base, tag, slot)
  }

  predicate Taken(files: Files, path: Path, base: seq<u8>, tag: seq<u8>, slot: nat)
    requires slot < 32
  {
    Sibling(path, base, tag, slot) in files
  }

  /** `zz9k_archive_probe_sibling`: a name not in use, starting the search at any slot; none
      exactly if all are in use. */
  method ProbeSibling(files: Files, path: Path, base: seq<u8>, tag: seq<u8>, seed: u32) returns (r: Option<Path>)
    ensures r == None <==> forall slot :: 0 <= slot < 32 ==> Taken(files, path, base, tag, slot)
    ensures r.Some? ==> r.value !in files && exists slot :: 0 <= slot < 32 && Sibling(path, base, tag, slot) == r.value
  {
    var start: int := seed % 32;
    for attempt := 0 to 32
      invariant forall slot :: 0 <= slot < 32 && (slot - start) % 32 < attempt ==> Taken(files, path, base, tag, slot)
    {
      var slot := (start + attempt) % 32;
      var p := Sibling(path, base, tag, slot);
      if p !in files {
        assert !Taken(files, path, base, tag, slot);
        return Some(p);
      }
    }
    r := None;
  }

  /** Which actions of one replacement the environment lets succeed. */
  datatype Luck = Luck(alloc: bool, aside: bool, final: bool, cleanup: bool, restore: bool, drop: bool, seed: u32)

  const OLD_BASE: seq<u8> := [0x2E, 0x7A, 0x7A, 0x39, 0x6B, 0x2D, 0x6F, 0x6C, 0x64]  // ".zz9k-old"
  const OLD_TAG: seq<u8> := [0x2E, 0x7A, 0x7A, 0x39, 0x6B, 0x2D, 0x6F]  // ".zz9k-o"

  predicate NoBackupName(files: Files, path: Path)
  {
    forall slot :: 0 <= slot < 32 ==> Taken(files, path, OLD_BASE, OLD_TAG, slot)
  }

  /** The old content is at the destination or at the backup, or the new content is at the
      destination. */
  ghost predicate Safe(f: Files, before: Files, path: Path, tmp: Path, backup: Path)
    requires tmp in before
  {
    path in before ==>
      (path in f && f[path] == before[path]) || (backup in f && f[backup] == before[path])
      || (path in f && f[path] == before[tmp])
  }

  /** Paths other than these three hold what they held. */
  ghost predicate Elsewhere(f: Files, before: Files, path: Path, tmp: Path, backup: Path)
  {
    forall q :: q != path && q != tmp && q != backup ==> (q in f <==> q in before) && (q in f && q in before ==> f[q] == before[q])
  }

  predicate SameAt(f: Files, g: Files, p: Path)
  {
    (p in f <==> p in g) && (p in f && p in g ==> f[p] == g[p])
  }

  /** The content of `path` is still there or at the backup. */
  predicate Kept(f: Files, before: Files, path: Path, backup: Path)
    requires path in before
  {
    (path in f && f[path] == before[path]) || (backup in f && f[backup] == before[path])
  }

  /** The old file was moved aside. */
  predicate MovedAside(before: Files, path: Path, luck: Luck)
  {
    path in before && luck.alloc && !NoBackupName(before, path) && luck.aside
  }

  ghost predicate Good(f: Files, before: Files, path: Path, tmp: Path, backup: Path)
    requires tmp in before
  {
    Safe(f, before, path, tmp, backup) && Elsewhere(f, before, path, tmp, backup)
  }

  ghost predicate GoodTrace(trace: seq<Files>, n: nat, before: Files, path: Path, tmp: Path, backup: Path)
    requires tmp in before
  {
    n <= |trace| && forall i :: n <= i < |trace| ==> Good(trace[i], before, path, tmp, backup)
  }

  /** Every state since the trace had length `n` is safe and leaves other paths alone. */
  ghost predicate SafeSince(disk: Disk, n: nat, before: Files, path: Path, tmp: Path, backup: Path)
    requires tmp in before
    reads disk
  {
    && n < |disk.trace| && disk.trace[|disk.trace| - 1] == disk.files
    && GoodTrace(disk.trace, n, before, path, tmp, backup)
  }

  lemma GoodGrows(trace: seq<Files>, f: Files, n: nat, before: Files, path: Path, tmp: Path, backup: Path)
    requires tmp in before && GoodTrace(trace, n, before, path, tmp, backup) && Good(f, before, path, tmp, backup)
    ensures GoodTrace(trace + [f], n, before, path, tmp, backup)
  {
  }

  lemma GoodAtFirst(trace: seq<Files>, before: Files, path: Path, tmp: Path, backup: Path)
    requires tmp in before && trace != [] && trace[|trace| - 1] == before
    ensures Good(before, before, path, tmp, backup) && GoodTrace(trace, |trace| - 1, before, path, tmp, backup)
  {
  }

  lemma GoodAside(before: Files, path: Path, tmp: Path, backup: Path)
    requires tmp in before && path in before && backup !in before
    ensures Good(Renamed(before, path, backup), before, path, tmp, backup)
  {
  }

  lemma GoodWithoutTmp(f: Files, before: Files, path: Path, tmp: Path, backup: Path)
    requires tmp in before && tmp != path && (backup !in before || backup == path) && Good(f, before, path, tmp, backup)
    ensures Good(f - {tmp}, before, path, tmp, backup)
  {
  }

  lemma GoodPlaced(f: Files, before: Files, path: Path, tmp: Path, backup: Path)
    requires tmp in before && tmp in f && f[tmp] == before[tmp] && Elsewhere(f, before, path, tmp, backup)
    ensures Good(Renamed(f, tmp, path), before, path, tmp, backup)
  {
  }

  lemma GoodDropped(f: Files, before: Files, path: Path, tmp: Path, backup: Path)
    requires tmp in before && path in f && f[path] == before[tmp] && backup != path && Elsewhere(f, before, path, tmp, backup)
    ensures Good(f - {backup}, before, path, tmp, backup)
  {
  }

  lemma GoodBack(f: Files, before: Files, path: Path, tmp: Path, backup: Path)
    requires tmp in before && path in before && backup in f && f[backup] == before[path]
    requires Elsewhere(f, before, path, tmp, backup)
    ensures Good(Renamed(f, backup, path), before, path, tmp, backup)
  {
  }

  /** The first half: an existing destination moves to a fresh backup name. */
  method MoveAside(disk: Disk, tmp: Path, path: Path, luck: Luck) returns (go: bool, saved: Option<Path>, ghost backup: Path)
    requires tmp in disk.files && disk.trace != [] && disk.trace[|disk.trace| - 1] == disk.files && tmp != path
    modifies disk
    ensures go <==> (path in old(disk.files) ==> MovedAside(old(disk.files), path, luck))
    ensures saved.Some? ==> backup == saved.value
    ensures go ==> (saved.Some? <==> path in old(disk.files)) && tmp in disk.files && path !in disk.files
    ensures go ==> disk.files == if saved.Some? then Renamed(old(disk.files), path, backup) else old(disk.files)
    ensures !go ==> disk.files == if luck.cleanup then old(disk.files) - {tmp} else old(disk.files)
    ensures if path in old(disk.files) && saved.Some? then backup !in old(disk.files) else backup == path
    ensures SafeSince(disk, |old(disk.trace)| - 1, old(disk.files), path, tmp, backup)
  {
    backup, saved := path, None;
    GoodAtFirst(disk.trace, disk.files, path, tmp, backup);
    if path !in disk.files { return true, None, path; }
    ghost var before := disk.files;
    go, saved, backup := Backup(disk, tmp, path, luck);
    if go { return; }
    GoodWithoutTmp(before, before, path, tmp, backup);
    GoodGrows(disk.trace, if luck.cleanup then before - {tmp} else before, |old(disk.trace)| - 1, before, path, tmp, backup);
    var gone := disk.Remove(tmp, luck.cleanup);
  }

  /** The backup name, and the old file under it. */
  method Backup(disk: Disk, ghost tmp: Path, path: Path, luck: Luck) returns (go: bool, saved: Option<Path>, ghost backup: Path)
    requires tmp in disk.files && path in disk.files && tmp != path
    requires disk.trace != [] && disk.trace[|disk.trace| - 1] == disk.files
    modifies disk
    ensures go <==> MovedAside(old(disk.files), path, luck)
    ensures go ==> saved == Some(backup) && disk.files == Renamed(old(disk.files), path, backup)
    ensures !go ==> disk.files == old(disk.files)
    ensures if saved.Some? then backup == saved.value && backup !in old(disk.files) else backup == path
    ensures SafeSince(disk, |old(disk.trace)| - 1, old(disk.files), path, tmp, backup)
  {
    go, saved, backup := false, None, path;
    if luck.alloc {
      saved := ProbeSibling(disk.files, path, OLD_BASE, OLD_TAG, luck.seed);
    }
    if saved.Some? { backup := saved.value; }
    GoodAtFirst(disk.trace, disk.files, path, tmp, backup);
    if saved.Some? {
      GoodAside(disk.files, path, tmp, backup);
      GoodGrows(disk.trace, if luck.aside then Renamed(disk.files, path, backup) else disk.files, |disk.trace| - 1,
                disk.files, path, tmp, backup);
      go := disk.Rename(path, saved.value, luck.aside);
    }
  }

  /** The way back: the temporary goes, and the old file returns to its place. */
  method RollBack(disk: Disk, tmp: Path, path: Path, saved: Option<Path>, luck: Luck, ghost before: Files,
                  ghost n: nat, ghost backup: Path)
    requires tmp in before && tmp != path && path !in disk.files && tmp in disk.files
    requires saved.Some? <==> path in before
    requires saved.Some? ==> saved.value !in before && saved.value != path && disk.files == Renamed(before, path, saved.value)
    requires saved == None ==> disk.files == before
    requires backup == if saved.Some? then saved.value else path
    requires n < |disk.trace| && SafeSince(disk, n, before, path, tmp, backup)
    modifies disk
    ensures SameAt(disk.files, before, path) <==> (saved.Some? ==> luck.restore)
    ensures tmp in disk.files <==> !luck.cleanup
    ensures SafeSince(disk, n, before, path, tmp, backup)
  {
    GoodWithoutTmp(disk.files, before, path, tmp, backup);
    GoodGrows(disk.trace, if luck.cleanup then disk.files - {tmp} else disk.files, n, before, path, tmp, backup);
    var gone := disk.Remove(tmp, luck.cleanup);
    if saved.Some? {
      GoodBack(disk.files, before, path, tmp, backup);
      GoodGrows(disk.trace, if luck.restore then Renamed(disk.files, backup, path) else disk.files, n, before, path, tmp, backup);
      var restored := disk.Rename(saved.value, path, luck.restore);
    }
  }

  /** The second half. */
  method PutInPlace(disk: Disk, tmp: Path, path: Path, saved: Option<Path>, luck: Luck, ghost before: Files,
                    ghost n: nat, ghost backup: Path)
    returns (r: int)
    requires tmp in before && tmp != path && path !in disk.files && tmp in disk.files
    requires saved.Some? <==> path in before
    requires saved.Some? ==> saved.value !in before && saved.value != path && disk.files == Renamed(before, path, saved.value)
    requires saved == None ==> disk.files == before
    requires backup == if saved.Some? then saved.value else path
    requires n < |disk.trace| && SafeSince(disk, n, before, path, tmp, backup)
    modifies disk
    ensures r == if luck.final then 1 else 0
    ensures r == 1 ==> path in disk.files && disk.files[path] == before[tmp] && tmp !in disk.files
    ensures r == 0 ==> (SameAt(disk.files, before, path) <==> (saved.Some? ==> luck.restore))
    ensures r == 0 ==> (tmp in disk.files <==> !luck.cleanup)
    ensures SafeSince(disk, n, before, path, tmp, backup)
  {
    GoodPlaced(disk.files, before, path, tmp, backup);
    GoodGrows(disk.trace, if luck.final then Renamed(disk.files, tmp, path) else disk.files, n, before, path, tmp, backup);
    var placed := disk.Rename(tmp, path, luck.final);
    if !placed {
      RollBack(disk, tmp, path, saved, luck, before, n, backup);
      return 0;
    }
    if saved.Some? {
      GoodDropped(disk.files, before, path, tmp, backup);
      GoodGrows(disk.trace, if luck.drop && backup in disk.files then disk.files - {backup} else disk.files, n,
                before, path, tmp, backup);
      var dropped := disk.Remove(saved.value, luck.drop);
    }
    r := 1;
  }

  /** `zz9k_archive_replace_with_staged`: 1 means the destination holds the staged bytes; 0 means
      that it holds what it held, except when the old file was moved aside and could not be moved
      back, and then the backup holds it; and no state on the way loses the old content or touches
      another path.  All this needs a temporary that is not the destination itself;
      of one that is, the content survives exactly if it was moved aside or not cleaned up. */
  method Replace(disk: Disk, tmp: Path, path: Path, luck: Luck) returns (r: int, ghost backup: Path)
    requires tmp in disk.files && disk.trace != [] && disk.trace[|disk.trace| - 1] == disk.files
    modifies disk
    ensures r == 0 || r == 1
    ensures tmp != path ==>
      (r == 1 <==> (path in old(disk.files) ==> MovedAside(old(disk.files), path, luck)) && luck.final)
    ensures r == 1 ==> path in disk.files && disk.files[path] == old(disk.files[tmp]) && tmp !in disk.files
    ensures tmp != path && r == 0 ==>
      (SameAt(disk.files, old(disk.files), path) <==> !(MovedAside(old(disk.files), path, luck) && !luck.restore))
    ensures tmp != path && r == 0 ==> (tmp in disk.files <==> !luck.cleanup)
    ensures tmp == path ==> r == 0 && Elsewhere(disk.files, old(disk.files), path, path, backup)
    ensures tmp == path ==> (Kept(disk.files, old(disk.files), path, backup)
      <==> MovedAside(old(disk.files), path, luck) || !luck.cleanup)
    ensures backup !in old(disk.files) || backup == path
    ensures tmp != path ==> SafeSince(disk, |old(disk.trace)| - 1, old(disk.files), path, tmp, backup)
  {
    if tmp == path {
      r, backup := ReplaceItself(disk, path, luck);
      return;
    }
    var go, saved;
    go, saved, backup := MoveAside(disk, tmp, path, luck);
    if !go { return 0, backup; }
    r := PutInPlace(disk, tmp, path, saved, luck, old(disk.files), |old(disk.trace)| - 1, backup);
  }

  /** The same steps when the temporary is the destination: the file is moved aside, so there is
      nothing left to move into place. */
  method ReplaceItself(disk: Disk, path: Path, luck: Luck) returns (r: int, ghost backup: Path)
    requires path in disk.files
    modifies disk
    ensures r == 0 && (backup !in old(disk.files) || backup == path)
    ensures Kept(disk.files, old(disk.files), path, backup) <==> MovedAside(old(disk.files), path, luck) || !luck.cleanup
    ensures Elsewhere(disk.files, old(disk.files), path, path, backup)
  {
    r, backup := 0, path;
    var saved: Option<Path> := None;
    if luck.alloc {
      saved := ProbeSibling(disk.files, path, OLD_BASE, OLD_TAG, luck.seed);
    }
    if saved.Some? {
      backup := saved.value;
      var moved := disk.Rename(path, saved.value, luck.aside);
      if moved {
        var placed := disk.Rename(path, path, luck.final);
        var gone := disk.Remove(path, luck.cleanup);
        var restored := disk.Rename(saved.value, path, luck.restore);
        return;
      }
    }
    var gone := disk.Remove(path, luck.cleanup);
  }

  const TMP_BASE: seq<u8> := [0x2E, 0x7A, 0x7A, 0x39, 0x6B, 0x2D, 0x74, 0x6D, 0x70]  // ".zz9k-tmp"
  const TMP_TAG: seq<u8> := [0x2E, 0x7A, 0x7A, 0x39, 0x6B, 0x2D, 0x74]  // ".zz9k-t"

  lemma {:induction false} OneComponent(path: Path, n: nat)
    requires n <= |path| && forall i :: 0 <= i < n ==> !Separator(path[i])
    ensures ComponentStart(path, n) == 0
  {
    if n > 0 { OneComponent(path, n - 1); }
  }

  /** A temporary name is the destination itself exactly if what goes beyond the kept bytes of the
      destination's final component is the suffix of its slot. */
  lemma TemporaryIsTheDestination(path: Path, slot: nat)
    requires slot < 32
    ensures var s := ComponentStart(path, |path|);
      Sibling(path, TMP_BASE, TMP_TAG, slot) == path <==>
        |path| - s > KEPT && path[s + KEPT..] == Suffix(TMP_BASE, TMP_TAG, slot)
  {
    TrimmedPlus(path, Suffix(TMP_BASE, TMP_TAG, slot));
  }

  lemma TrimmedPlus(path: Path, suffix: seq<u8>)
    requires suffix != []
    ensures var s := ComponentStart(path, |path|);
      Trimmed(path) + suffix == path <==> |path| - s > KEPT && path[s + KEPT..] == suffix
  {
    var s := ComponentStart(path, |path|);
    if |path| - s > KEPT {
      PrefixPlus(path, s + KEPT, suffix);
    } else {
      assert |path + suffix| > |path|;
    }
  }

  lemma PrefixPlus(path: Path, n: nat, suffix: seq<u8>)
    requires n <= |path|
    ensures path[..n] + suffix == path <==> path[n..] == suffix
  {
    var t := path[..n] + suffix;
    assert t[n..] == suffix;
    assert path == path[..n] + path[n..];
  }

  /** The trimmed temporary name of a long name that ends in ".zz9k-tmp" is that name. */
  lemma TemporaryCanBeTheDestination(stem: Path)
    requires |stem| == KEPT && forall i :: 0 <= i < |stem| ==> !Separator(stem[i])
    ensures Sibling(stem + TMP_BASE, TMP_BASE, TMP_TAG, 0) == stem + TMP_BASE
  {
    var path := stem + TMP_BASE;
    OneComponent(path, |path|);
    TemporaryIsTheDestination(path, 0);
  }
}
