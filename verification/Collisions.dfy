/** Output-name collisions of a batch (sdk/tools/zz9k-archive.c): two sorted passes instead of
    comparing every pair of entries. */
module Collisions {
  import opened Words
  import opened Names

  function Lower(c: u8): (r: u8)
  {
    if 0x41 <= c <= 0x5A then c + 0x20 else c
  }

  /** The case-folded name. */
  function Folded(name: seq<u8>): (f: seq<u8>)
    ensures |f| == |name|
  {
    seq(|name|, i requires 0 <= i < |name| => Lower(name[i]))
  }

  /** FNV-1a over the folded name. */
  function HashFrom(h: u32, name: seq<u8>): (r: u32)
    decreases |name|
  {
    if name == [] then h else HashFrom(Trunc32(Xor(h, Lower(name[0])) * 16777619), name[1..])
  }

  function NameHash(name: seq<u8>): (r: u32)
    ensures r != 0
  {
    var h := HashFrom(2166136261, name);
    if h == 0 then 1 else h
  }

  /** What an entry is written as, if it produces output at all. */
  datatype Output = Output(name: seq<u8>, isDir: bool)

  /** Hash 0 is reserved for entries without output. */
  datatype Slot = Slot(hash: u32, index: nat, isDir: bool, name: seq<u8>)

  function TrimSlashes(name: seq<u8>): (r: seq<u8>)
  {
    if EndsWithSlash(name) then TrimSlashes(name[..|name| - 1]) else name
  }

  /** `zz9k_archive_lha_batch_hash_slot_init`. */
  function SlotOf(out: Option<Output>, index: nat): (s: Slot)
    ensures s.index == index && (s.hash != 0 <==> s.name != [])
  {
    match out
    case None => Slot(0, index, false, [])
    case Some(o) =>
      var name := TrimSlashes(o.name);
      Slot(if name == [] then 0 else NameHash(name), index, o.isDir, name)
  }

  function SlotsOf(outs: seq<Option<Output>>): (s: seq<Slot>)
    ensures |s| == |outs| && forall i :: 0 <= i < |s| ==> s[i] == SlotOf(outs[i], i)
  {
    seq(|outs|, i requires 0 <= i < |outs| => SlotOf(outs[i], i))
  }

  /** `zz9k_archive_lha_output_name_has_prefix`. */
  predicate HasPrefix(p: seq<u8>, name: seq<u8>)
  {
    p != [] && Folded(p) <= Folded(name)
  }

  /** `zz9k_archive_lha_output_name_is_parent_of`. */
  predicate ParentOf(p: seq<u8>, child: seq<u8>)
  {
    HasPrefix(p, child) && |p| < |child| && child[|p|] == SLASH
  }

  /** A file that would have to be a directory for the other entry to be written. */
  predicate FileParent(p: Slot, c: Slot)
  {
    p.hash != 0 && !p.isDir && ParentOf(p.name, c.name)
  }

  predicate SameHash(a: Slot, b: Slot)
  {
    a.hash != 0 && a.hash == b.hash
  }

  /** The two relations, entry by entry over all pairs. */
  ghost predicate Twin(slots: seq<Slot>, k: nat)
    requires k < |slots|
  {
    exists j :: 0 <= j < |slots| && j != k && SameHash(slots[k], slots[j])
  }

  ghost predicate Related(slots: seq<Slot>, k: nat)
    requires k < |slots|
  {
    exists j :: 0 <= j < |slots| && (FileParent(slots[k], slots[j]) || FileParent(slots[j], slots[k]))
  }

  lemma {:induction false} HashOfFolded(h: u32, a: seq<u8>, b: seq<u8>)
    requires Folded(a) == Folded(b)
    ensures HashFrom(h, a) == HashFrom(h, b)
    decreases |a|
  {
    assert |a| == |Folded(a)| == |b|;
    if a != [] {
      assert Folded(a)[0] == Folded(b)[0];
      assert Folded(a[1..]) == Folded(a)[1..] == Folded(b[1..]);
      HashOfFolded(Trunc32(Xor(h, Lower(a[0])) * 16777619), a[1..], b[1..]);
    }
  }

  /** Lexicographic order on folded names, shorter first. */
  predicate LexLe(a: seq<u8>, b: seq<u8>)
  {
    a == [] || (b != [] && (a[0] < b[0] || (a[0] == b[0] && LexLe(a[1..], b[1..]))))
  }

  /** Names with a common prefix follow it without a gap. */
  lemma {:induction false} PrefixContiguous(p: seq<u8>, x: seq<u8>, y: seq<u8>)
    requires LexLe(p, x) && LexLe(x, y) && !(p <= x)
    ensures !(p <= y)
    decreases |p|
  {
    if y != [] && p[0] == x[0] == y[0] {
      assert x == [x[0]] + x[1..] && p == [p[0]] + p[1..] && y == [y[0]] + y[1..];
      PrefixContiguous(p[1..], x[1..], y[1..]);
    }
  }

  lemma {:induction false} LexAntisymmetric(a: seq<u8>, b: seq<u8>)
    requires LexLe(a, b) && LexLe(b, a)
    ensures a == b
    decreases |a|
  {
    if a != [] {
      LexAntisymmetric(a[1..], b[1..]);
      assert a == [a[0]] + a[1..] && b == [b[0]] + b[1..];
    }
  }

  lemma {:induction false} PrefixIsLess(p: seq<u8>, y: seq<u8>)
    requires p <= y
    ensures LexLe(p, y)
    decreases |p|
  {
    if p != [] { PrefixIsLess(p[1..], y[1..]); }
  }

  /** A sort result: the same slots, in some order. */
  ghost predicate Arrangement(slots: seq<Slot>, a: seq<Slot>)
  {
    |a| == |slots| && multiset(a) == multiset(slots)
  }

  ghost predicate SortedByHash(a: seq<Slot>)
  {
    forall p, q :: 0 <= p < q < |a| ==> a[p].hash <= a[q].hash
  }

  ghost predicate SortedByName(a: seq<Slot>)
  {
    forall p, q :: 0 <= p < q < |a| ==> LexLe(Folded(a[p].name), Folded(a[q].name))
  }

  ghost predicate Indexed(slots: seq<Slot>)
  {
    forall i :: 0 <= i < |slots| ==> slots[i].index == i
  }

  /** Where the arrangement puts each slot. */
  lemma PlaceOf(slots: seq<Slot>, a: seq<Slot>, i: nat) returns (p: nat)
    requires Arrangement(slots, a) && i < |slots|
    ensures p < |a| && a[p] == slots[i]
  {
    assert slots[i] in multiset(slots);
    assert slots[i] in multiset(a);
    p :| p < |a| && a[p] == slots[i];
  }

  lemma Originates(slots: seq<Slot>, a: seq<Slot>, p: nat)
    requires Arrangement(slots, a) && Indexed(slots) && p < |a|
    ensures a[p].index < |slots| && slots[a[p].index] == a[p]
  {
    assert a[p] in multiset(a);
    assert a[p] in multiset(slots);
    var i :| 0 <= i < |slots| && slots[i] == a[p];
  }

  /** No slot is put in two places. */
  lemma PlacesDiffer(slots: seq<Slot>, a: seq<Slot>, p: nat, q: nat)
    requires Arrangement(slots, a) && Indexed(slots) && p < q < |a|
    ensures a[p].index != a[q].index
  {
    Originates(slots, a, p);
    Originates(slots, a, q);
    if a[p].index == a[q].index {
      var x := a[p];
      Twice(a, p, q);
      Once(slots, x.index);
    }
  }

  lemma Twice(a: seq<Slot>, p: nat, q: nat)
    requires p < q < |a| && a[p] == a[q]
    ensures multiset(a)[a[p]] >= 2
  {
    assert a == a[..p] + [a[p]] + a[p + 1..q] + [a[q]] + a[q + 1..];
  }

  lemma Once(slots: seq<Slot>, i: nat)
    requires Indexed(slots) && i < |slots|
    ensures multiset(slots)[slots[i]] == 1
  {
    assert slots == slots[..i] + [slots[i]] + slots[i + 1..];
    assert slots[i] !in slots[..i] && slots[i] !in slots[i + 1..];
  }

  /** Place by place, the two relations in an arrangement. */
  ghost predicate TwinAt(a: seq<Slot>, p: nat)
    requires p < |a|
  {
    exists q :: 0 <= q < |a| && q != p && SameHash(a[p], a[q])
  }

  ghost predicate RelatedBelow(a: seq<Slot>, p: nat, i: nat, j: nat)
    requires p < |a| && i <= |a| && j <= |a|
  {
    exists x, y :: 0 <= x < |a| && 0 <= y < |a| && (x < i || (x == i && y < j)) && (x == p || y == p) && FileParent(a[x], a[y])
  }

  lemma TwinInPlace(slots: seq<Slot>, a: seq<Slot>, p: nat)
    requires Arrangement(slots, a) && Indexed(slots) && p < |a|
    ensures a[p].index < |slots| && (TwinAt(a, p) <==> Twin(slots, a[p].index))
  {
    Originates(slots, a, p);
    var k := a[p].index;
    if TwinAt(a, p) {
      var q :| 0 <= q < |a| && q != p && SameHash(a[p], a[q]);
      Originates(slots, a, q);
      if p < q { PlacesDiffer(slots, a, p, q); } else { PlacesDiffer(slots, a, q, p); }
      assert SameHash(slots[k], slots[a[q].index]);
    }
    if Twin(slots, k) {
      var j :| 0 <= j < |slots| && j != k && SameHash(slots[k], slots[j]);
      var q := PlaceOf(slots, a, j);
      assert q != p && SameHash(a[p], a[q]);
    }
  }

  lemma RelatedInPlace(slots: seq<Slot>, a: seq<Slot>, p: nat)
    requires Arrangement(slots, a) && Indexed(slots) && p < |a|
    ensures a[p].index < |slots| && (RelatedBelow(a, p, |a|, 0) <==> Related(slots, a[p].index))
  {
    Originates(slots, a, p);
    var k := a[p].index;
    if RelatedBelow(a, p, |a|, 0) {
      var x, y :| 0 <= x < |a| && 0 <= y < |a| && (x == p || y == p) && FileParent(a[x], a[y]);
      Originates(slots, a, x);
      Originates(slots, a, y);
      var other := if x == p then a[y].index else a[x].index;
      assert FileParent(slots[k], slots[other]) || FileParent(slots[other], slots[k]);
    }
    if Related(slots, k) {
      var j :| 0 <= j < |slots| && (FileParent(slots[k], slots[j]) || FileParent(slots[j], slots[k]));
      var q := PlaceOf(slots, a, j);
      assert FileParent(a[p], a[q]) || FileParent(a[q], a[p]);
    }
  }

  ghost predicate Distinct(a: seq<Slot>)
  {
    && (forall p :: 0 <= p < |a| ==> a[p].index < |a|)
    && (forall p, q :: 0 <= p < q < |a| ==> a[p].index != a[q].index)
  }

  lemma ArrangementIsDistinct(slots: seq<Slot>, a: seq<Slot>)
    requires Arrangement(slots, a) && Indexed(slots)
    ensures Distinct(a)
  {
    forall p | 0 <= p < |a| ensures a[p].index < |a| { Originates(slots, a, p); }
    forall p, q | 0 <= p < q < |a| ensures a[p].index != a[q].index { PlacesDiffer(slots, a, p, q); }
  }

  /** In a run of equal hashes the members are twins exactly if the run is longer than one. */
  lemma RunTwins(a: seq<Slot>, i: nat, end: nat, p: nat)
    requires SortedByHash(a) && i <= p < end <= |a|
    requires forall q :: i <= q < end ==> a[q].hash == a[i].hash
    requires i == 0 || a[i - 1].hash < a[i].hash
    requires end == |a| || a[end].hash != a[i].hash
    ensures TwinAt(a, p) <==> a[i].hash != 0 && end - i >= 2
  {
    if a[i].hash != 0 && end - i >= 2 {
      var q := if p == i then i + 1 else i;
      assert SameHash(a[p], a[q]);
    }
    forall q | 0 <= q < i ensures a[q].hash < a[i].hash { assert a[q].hash <= a[i - 1].hash; }
    forall q | end <= q < |a| ensures a[q].hash > a[i].hash { assert a[i].hash <= a[end].hash <= a[q].hash; }
    if TwinAt(a, p) {
      var q :| 0 <= q < |a| && q != p && SameHash(a[p], a[q]);
    }
  }

  /** The pass over the slots in hash order. */
  method MarkTwins(a: seq<Slot>, collides: array<u8>)
    requires Distinct(a) && SortedByHash(a) && collides.Length == |a|
    modifies collides
    ensures forall p :: 0 <= p < |a| ==> collides[a[p].index] == if TwinAt(a, p) then 1 else old(collides[a[p].index])
  {
    var i := 0;
    while i < |a|
      invariant i <= |a| && (0 < i < |a| ==> a[i - 1].hash < a[i].hash)
      invariant forall p :: 0 <= p < i ==> collides[a[p].index] == if TwinAt(a, p) then 1 else old(collides[a[p].index])
      invariant forall p :: i <= p < |a| ==> collides[a[p].index] == old(collides[a[p].index])
    {
      i := MarkNextRun(a, i, collides);
    }
  }

  /** The run of equal hashes that starts at `i`. */
  method MarkNextRun(a: seq<Slot>, i: nat, collides: array<u8>) returns (end: nat)
    requires Distinct(a) && SortedByHash(a) && collides.Length == |a| && i < |a|
    requires i > 0 ==> a[i - 1].hash < a[i].hash
    modifies collides
    ensures i < end <= |a| && (end < |a| ==> a[end - 1].hash < a[end].hash)
    ensures forall p :: 0 <= p < |a| ==>
      collides[a[p].index] == if i <= p < end && TwinAt(a, p) then 1 else old(collides[a[p].index])
  {
    end := i + 1;
    while end < |a| && a[end].hash == a[i].hash
      invariant i < end <= |a| && forall q :: i <= q < end ==> a[q].hash == a[i].hash
    {
      end := end + 1;
    }
    forall p | i <= p < end ensures TwinAt(a, p) <==> a[i].hash != 0 && end - i >= 2 { RunTwins(a, i, end, p); }
    if a[i].hash != 0 && end - i >= 2 {
      MarkRun(a, i, end, collides);
    }
  }

  method MarkRun(a: seq<Slot>, i: nat, end: nat, collides: array<u8>)
    requires Distinct(a) && collides.Length == |a| && i <= end <= |a|
    modifies collides
    ensures forall p :: 0 <= p < |a| ==> collides[a[p].index] == if i <= p < end then 1 else old(collides[a[p].index])
  {
    for j := i to end
      invariant forall p :: 0 <= p < |a| ==> collides[a[p].index] == if i <= p < j then 1 else old(collides[a[p].index])
    {
      collides[a[j].index] := 1;
    }
  }

  lemma ParentComesFirst(a: seq<Slot>, x: nat, y: nat)
    requires SortedByName(a) && x < |a| && y < |a| && FileParent(a[x], a[y])
    ensures x < y
  {
    var p, c := Folded(a[x].name), Folded(a[y].name);
    PrefixIsLess(p, c);
    if y < x { LexAntisymmetric(p, c); }
    assert |p| < |c|;
  }

  /** Once a name no longer has the prefix, no later one has it. */
  lemma NoChildAfter(a: seq<Slot>, i: nat, j: nat, y: nat)
    requires SortedByName(a) && i < j <= y < |a| && a[i].name != [] && !HasPrefix(a[i].name, a[j].name)
    ensures !FileParent(a[i], a[y])
  {
    if j < y { PrefixContiguous(Folded(a[i].name), Folded(a[j].name), Folded(a[y].name)); }
  }

  lemma OneMorePair(a: seq<Slot>, p: nat, i: nat, j: nat)
    requires p < |a| && i < |a| && j < |a|
    ensures RelatedBelow(a, p, i, j + 1) <==> RelatedBelow(a, p, i, j) || (FileParent(a[i], a[j]) && (p == i || p == j))
  {
  }

  lemma RestOfRow(a: seq<Slot>, p: nat, i: nat, j: nat)
    requires p < |a| && i < |a| && j <= |a| && forall y :: j <= y < |a| ==> !FileParent(a[i], a[y])
    ensures RelatedBelow(a, p, i, j) <==> RelatedBelow(a, p, i + 1, 0)
  {
  }

  lemma StartOfRow(a: seq<Slot>, p: nat, i: nat, j: nat)
    requires p < |a| && i < |a| && j <= |a| && forall y :: 0 <= y < j ==> !FileParent(a[i], a[y])
    ensures RelatedBelow(a, p, i, 0) <==> RelatedBelow(a, p, i, j)
  {
  }

  /** The marks when the pairs of the rows below `i`, and of row `i` below column `j`, are done. */
  ghost predicate RowsDone(a: seq<Slot>, was: seq<u8>, now: seq<u8>, i: nat, j: nat)
    requires Distinct(a) && |was| == |now| == |a| && i <= |a| && j <= |a|
  {
    forall p :: 0 <= p < |a| ==> now[a[p].index] == if RelatedBelow(a, p, i, j) then 1 else was[a[p].index]
  }

  /** The pass over the slots in name order. */
  method MarkRelated(a: seq<Slot>, collides: array<u8>)
    requires Distinct(a) && SortedByName(a) && collides.Length == |a|
    requires forall p :: 0 <= p < |a| ==> (a[p].hash != 0 <==> a[p].name != [])
    modifies collides
    ensures RowsDone(a, old(collides[..]), collides[..], |a|, 0)
  {
    for i := 0 to |a|
      invariant RowsDone(a, old(collides[..]), collides[..], i, 0)
    {
      if a[i].hash == 0 || a[i].isDir {
        forall p | 0 <= p < |a| ensures RelatedBelow(a, p, i, 0) <==> RelatedBelow(a, p, i + 1, 0) { RestOfRow(a, p, i, 0); }
      } else {
        MarkChildren(a, i, collides, old(collides[..]));
      }
    }
  }

  method MarkChildren(a: seq<Slot>, i: nat, collides: array<u8>, ghost was: seq<u8>)
    requires Distinct(a) && SortedByName(a) && collides.Length == |a| == |was|
    requires i < |a| && a[i].hash != 0 && a[i].name != [] && !a[i].isDir
    requires RowsDone(a, was, collides[..], i, 0)
    modifies collides
    ensures RowsDone(a, was, collides[..], i + 1, 0)
  {
    var j := i + 1;
    forall y | 0 <= y < j ensures !FileParent(a[i], a[y]) {
      if FileParent(a[i], a[y]) { ParentComesFirst(a, i, y); }
    }
    forall p | 0 <= p < |a| ensures RelatedBelow(a, p, i, 0) <==> RelatedBelow(a, p, i, j) { StartOfRow(a, p, i, j); }
    while j < |a| && HasPrefix(a[i].name, a[j].name)
      invariant i < j <= |a| && RowsDone(a, was, collides[..], i, j)
    {
      MarkPair(a, i, j, collides, was);
      j := j + 1;
    }
    forall y | j <= y < |a| ensures !FileParent(a[i], a[y]) { NoChildAfter(a, i, j, y); }
    forall p | 0 <= p < |a| ensures RelatedBelow(a, p, i, j) <==> RelatedBelow(a, p, i + 1, 0) { RestOfRow(a, p, i, j); }
  }

  method MarkPair(a: seq<Slot>, i: nat, j: nat, collides: array<u8>, ghost was: seq<u8>)
    requires Distinct(a) && collides.Length == |a| == |was| && i < j < |a| && a[i].hash != 0 && !a[i].isDir
    requires RowsDone(a, was, collides[..], i, j)
    modifies collides
    ensures RowsDone(a, was, collides[..], i, j + 1)
  {
    ghost var before := collides[..];
    if ParentOf(a[i].name, a[j].name) {
      MarkBoth(a, i, j, collides);
    }
    PairDone(a, i, j, was, before, collides[..]);
  }

  method MarkBoth(a: seq<Slot>, i: nat, j: nat, collides: array<u8>)
    requires Distinct(a) && collides.Length == |a| && i < j < |a|
    modifies collides
    ensures forall p :: 0 <= p < |a| ==> collides[a[p].index] == if p == i || p == j then 1 else old(collides[a[p].index])
  {
    collides[a[i].index] := 1;
    collides[a[j].index] := 1;
  }

  lemma PairDone(a: seq<Slot>, i: nat, j: nat, was: seq<u8>, before: seq<u8>, now: seq<u8>)
    requires Distinct(a) && |was| == |before| == |now| == |a| && i < j < |a| && RowsDone(a, was, before, i, j)
    requires forall p :: 0 <= p < |a| ==>
      now[a[p].index] == if FileParent(a[i], a[j]) && (p == i || p == j) then 1 else before[a[p].index]
    ensures RowsDone(a, was, now, i, j + 1)
  {
    forall p | 0 <= p < |a| ensures now[a[p].index] == if RelatedBelow(a, p, i, j + 1) then 1 else was[a[p].index] {
      OneMorePair(a, p, i, j);
    }
  }

  /** `zz9k_archive_lha_batch_mark_collisions`; `byHash` and `byName` are what sorting the slots
      leaves, in either order among equals. */
  method MarkCollisions(outs: seq<Option<Output>>, byHash: seq<Slot>, byName: seq<Slot>, collides: array<u8>)
    requires collides.Length == |outs|
    requires Arrangement(SlotsOf(outs), byHash) && SortedByHash(byHash)
    requires Arrangement(SlotsOf(outs), byName) && SortedByName(byName)
    modifies collides
    ensures var slots := SlotsOf(outs); forall k :: 0 <= k < |slots| ==>
      collides[k] == if Twin(slots, k) || Related(slots, k) then 1 else old(collides[k])
  {
    var slots := SlotsOf(outs);
    ArrangementIsDistinct(slots, byHash);
    ArrangementIsDistinct(slots, byName);
    MarkTwins(byHash, collides);
    TwinsEverywhere(slots, byHash, old(collides[..]), collides[..]);
    NamesTellOutput(slots, byName);
    ghost var mid := collides[..];
    MarkRelated(byName, collides);
    RelatedEverywhere(slots, byName, mid, collides[..]);
  }

  lemma NamesTellOutput(slots: seq<Slot>, a: seq<Slot>)
    requires Arrangement(slots, a) && Indexed(slots) && forall i :: 0 <= i < |slots| ==> (slots[i].hash != 0 <==> slots[i].name != [])
    ensures forall p :: 0 <= p < |a| ==> (a[p].hash != 0 <==> a[p].name != [])
  {
    forall p | 0 <= p < |a| ensures a[p].hash != 0 <==> a[p].name != [] { Originates(slots, a, p); }
  }

  lemma TwinsEverywhere(slots: seq<Slot>, a: seq<Slot>, was: seq<u8>, now: seq<u8>)
    requires Arrangement(slots, a) && Indexed(slots) && |was| == |now| == |a| && Distinct(a)
    requires forall p :: 0 <= p < |a| ==> now[a[p].index] == if TwinAt(a, p) then 1 else was[a[p].index]
    ensures forall k :: 0 <= k < |slots| ==> now[k] == if Twin(slots, k) then 1 else was[k]
  {
    forall k | 0 <= k < |slots| ensures now[k] == if Twin(slots, k) then 1 else was[k] {
      var p := PlaceOf(slots, a, k);
      TwinInPlace(slots, a, p);
    }
  }

  lemma RelatedEverywhere(slots: seq<Slot>, a: seq<Slot>, was: seq<u8>, now: seq<u8>)
    requires Arrangement(slots, a) && Indexed(slots) && |was| == |now| == |a| && Distinct(a)
    requires forall p :: 0 <= p < |a| ==> now[a[p].index] == if RelatedBelow(a, p, |a|, 0) then 1 else was[a[p].index]
    ensures forall k :: 0 <= k < |slots| ==> now[k] == if Related(slots, k) then 1 else was[k]
  {
    forall k | 0 <= k < |slots| ensures now[k] == if Related(slots, k) then 1 else was[k] {
      var p := PlaceOf(slots, a, k);
      RelatedInPlace(slots, a, p);
    }
  }

  /** The definition by comparing every pair: the same output name, or a file in the way of the
      other entry's directory. */
  predicate Conflict(a: Slot, b: Slot)
  {
    a.hash != 0 && b.hash != 0 && (Folded(a.name) == Folded(b.name) || FileParent(a, b) || FileParent(b, a))
  }

  /** Nothing that comparing every pair finds is missed. */
  lemma NothingMissed(outs: seq<Option<Output>>, i: nat, j: nat)
    requires i < |outs| && j < |outs| && i != j
    requires Conflict(SlotsOf(outs)[i], SlotsOf(outs)[j])
    ensures var slots := SlotsOf(outs);
      (Twin(slots, i) || Related(slots, i)) && (Twin(slots, j) || Related(slots, j))
  {
    var slots := SlotsOf(outs);
    if Folded(slots[i].name) == Folded(slots[j].name) {
      HashOfFolded(2166136261, slots[i].name, slots[j].name);
      assert SameHash(slots[i], slots[j]) && SameHash(slots[j], slots[i]);
    }
  }
}
