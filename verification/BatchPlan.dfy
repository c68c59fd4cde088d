/** Batched decoding of LHA members (sdk/tools/zz9k-archive.c): packing members into chunks, the
    descriptor table of a chunk, and the two loops that recompute its offsets. */
module BatchPlan {
  import opened Words

  /** A member to be batched: where its data lies in the archive, and its two sizes. */
  datatype Member = Member(dataOffset: u32, packed: u32, unpacked: u32)

  datatype Chunk = Chunk(first: nat, count: nat, blobLength: u32, outputLength: u32)

  datatype Desc = Desc(srcOffset: u32, srcLength: u32, dstOffset: u32, dstLength: u32)

  /** The packed and unpacked sizes of members `a` to `b - 1` together. */
  function Packed(m: seq<Member>, a: nat, b: nat): (n: nat)
    requires a <= b <= |m|
    decreases b
  {
    if a == b then 0 else Packed(m, a, b - 1) + m[b - 1].packed
  }

  function Unpacked(m: seq<Member>, a: nat, b: nat): (n: nat)
    requires a <= b <= |m|
    decreases b
  {
    if a == b then 0 else Unpacked(m, a, b - 1) + m[b - 1].unpacked
  }

  /** Budgets: members, packed bytes, and unpacked bytes, where 0 stands for no bound. */
  datatype Budget = Budget(members: u32, blob: u32, output: u32)

  /** `n` members from `first` on respect every budget. */
  predicate Fits(m: seq<Member>, b: Budget, first: nat, n: nat)
    requires first + n <= |m|
  {
    n <= b.members && Packed(m, first, first + n) <= b.blob
    && (b.output != 0 ==> Unpacked(m, first, first + n) <= b.output)
  }

  /** `zz9k_archive_lha_batch_plan_chunk`: as many members as fit. */
  method PlanChunk(m: seq<Member>, b: Budget, first: nat) returns (c: Chunk)
    requires first <= |m|
    ensures c.first == first && first + c.count <= |m| && Fits(m, b, first, c.count)
    ensures c.blobLength == Packed(m, first, first + c.count)
    ensures c.outputLength == Trunc32(Unpacked(m, first, first + c.count))
    ensures first + c.count < |m| ==> !Fits(m, b, first, c.count + 1)
  {
    var blob: u32, out: u32, n := 0, 0, 0;
    while first + n < |m| && n < b.members
      invariant first + n <= |m| && Fits(m, b, first, n)
      invariant blob == Packed(m, first, first + n) && out == Trunc32(Unpacked(m, first, first + n))
      decreases |m| - n
    {
      var e := m[first + n];
      WrapTwice(Unpacked(m, first, first + n), e.unpacked);
      if e.packed > b.blob - blob { break; }
      if b.output != 0 && e.unpacked > b.output - out { break; }
      blob, out := blob as int + e.packed, Trunc32(out as int + e.unpacked);
      n := n + 1;
    }
    c := Chunk(first, n, blob, out);
  }

  /** One step of the driver's walk over the members: a chunk, or one member left to the
      per-member path. */
  datatype Step = Batched(chunk: Chunk) | Alone(index: nat)

  function StepFirst(s: Step): nat
  {
    match s case Batched(c) => c.first case Alone(i) => i
  }

  function StepEnd(s: Step): nat
  {
    match s case Batched(c) => c.first + c.count case Alone(i) => i + 1
  }

  /** The steps take the members one after another, none twice and none left out. */
  ghost predicate Consecutive(steps: seq<Step>, end: nat)
  {
    && (if steps == [] then end == 0 else StepFirst(steps[0]) == 0 && StepEnd(steps[|steps| - 1]) == end)
    && forall i :: 0 <= i < |steps| - 1 ==> StepEnd(steps[i]) == StepFirst(steps[i + 1])
  }

  ghost predicate StepOk(m: seq<Member>, b: Budget, s: Step)
  {
    match s
    case Batched(c) => c.count > 0 && c.first + c.count <= |m| && Fits(m, b, c.first, c.count)
      && (c.first + c.count < |m| ==> !Fits(m, b, c.first, c.count + 1))
    case Alone(i) => i < |m| && !Fits(m, b, i, 1)
  }

  /** The outer loop of `zz9k_archive_lha_batch_run_src`, as far as it decides what goes where. */
  method PlanAll(m: seq<Member>, b: Budget) returns (steps: seq<Step>)
    ensures Consecutive(steps, |m|) && forall i :: 0 <= i < |steps| ==> StepOk(m, b, steps[i])
  {
    steps := [];
    var first := 0;
    while first < |m|
      invariant first <= |m| && Consecutive(steps, first)
      invariant forall i :: 0 <= i < |steps| ==> StepOk(m, b, steps[i])
      invariant first == 0 <==> steps == []
    {
      var c := PlanChunk(m, b, first);
      if c.count == 0 {
        steps := steps + [Alone(first)];
        first := first + 1;
      } else {
        steps := steps + [Batched(c)];
        first := first + c.count;
      }
    }
  }

  /** Every member is in exactly one step. */
  lemma {:induction false} EachMemberOnce(m: seq<Member>, b: Budget, steps: seq<Step>, end: nat, i: nat) returns (k: nat)
    requires Consecutive(steps, end) && i < end && forall j :: 0 <= j < |steps| ==> StepOk(m, b, steps[j])
    ensures k < |steps| && StepFirst(steps[k]) <= i < StepEnd(steps[k])
    ensures forall j :: 0 <= j < |steps| && StepFirst(steps[j]) <= i < StepEnd(steps[j]) ==> j == k
    decreases |steps|
  {
    var n := |steps| - 1;
    assert StepOk(m, b, steps[n]);
    if StepFirst(steps[n]) <= i {
      k := n;
      forall j | 0 <= j < n ensures StepEnd(steps[j]) <= StepFirst(steps[n]) { StepsAscend(m, b, steps, j, n); }
    } else {
      assert steps[..n][..n] == steps[..n];
      k := EachMemberOnce(m, b, steps[..n], StepFirst(steps[n]), i);
    }
  }

  lemma {:induction false} StepsAscend(m: seq<Member>, b: Budget, steps: seq<Step>, j: nat, n: nat)
    requires j < n < |steps| && forall i :: 0 <= i < |steps| - 1 ==> StepEnd(steps[i]) == StepFirst(steps[i + 1])
    requires forall i :: 0 <= i < |steps| ==> StepOk(m, b, steps[i])
    ensures StepEnd(steps[j]) <= StepFirst(steps[n])
    decreases n
  {
    if j + 1 < n {
      StepsAscend(m, b, steps, j, n - 1);
      assert StepOk(m, b, steps[n - 1]);
    }
  }

  /** What the table of a chunk says about member `i` of it. */
  function DescOf(m: seq<Member>, c: Chunk, i: nat): (d: Desc)
    requires c.first + c.count <= |m| && i < c.count && Packed(m, c.first, c.first + c.count) < TWO32
  {
    PackedMonotone(m, c.first, c.first + i, c.first + c.count);
    Desc(Packed(m, c.first, c.first + i), m[c.first + i].packed,
         Trunc32(Unpacked(m, c.first, c.first + i)), m[c.first + i].unpacked)
  }

  lemma {:induction false} PackedMonotone(m: seq<Member>, a: nat, i: nat, j: nat)
    requires a <= i <= j <= |m|
    ensures Packed(m, a, i) <= Packed(m, a, j)
    decreases j
  {
    if i < j { PackedMonotone(m, a, i, j - 1); }
  }

  lemma {:induction false} UnpackedMonotone(m: seq<Member>, a: nat, i: nat, j: nat)
    requires a <= i <= j <= |m|
    ensures Unpacked(m, a, i) <= Unpacked(m, a, j)
    decreases j
  {
    if i < j { UnpackedMonotone(m, a, i, j - 1); }
  }

  ghost predicate TableOf(m: seq<Member>, c: Chunk, t: seq<Desc>, n: nat)
  {
    && c.first + c.count <= |m| && n <= c.count && Packed(m, c.first, c.first + c.count) < TWO32
    && |t| == n && forall i :: 0 <= i < n ==> t[i] == DescOf(m, c, i)
  }

  /** `zz9k_archive_lha_batch_write_tables`, as far as offsets and lengths go. */
  method WriteTables(m: seq<Member>, c: Chunk) returns (t: seq<Desc>)
    requires c.first + c.count <= |m| && Packed(m, c.first, c.first + c.count) < TWO32
    ensures TableOf(m, c, t, c.count)
  {
    t := [];
    var blob: u32, out: u32 := 0, 0;
    for i := 0 to c.count
      invariant TableOf(m, c, t, i)
      invariant blob == Packed(m, c.first, c.first + i) && out == Trunc32(Unpacked(m, c.first, c.first + i))
    {
      var e := m[c.first + i];
      t := t + [Desc(blob, e.packed, out, e.unpacked)];
      WrapTwice(Unpacked(m, c.first, c.first + i), e.unpacked);
      PackedMonotone(m, c.first, c.first + i + 1, c.first + c.count);
      blob, out := blob as int + e.packed, Trunc32(out as int + e.unpacked);
    }
  }

  /** The source ranges tile the blob; the destination ranges tile the output when it is bounded. */
  lemma TableTiles(m: seq<Member>, b: Budget, c: Chunk, t: seq<Desc>)
    requires TableOf(m, c, t, c.count) && c.count > 0 && Fits(m, b, c.first, c.count)
    ensures t[0].srcOffset == 0 && t[0].dstOffset == 0
    ensures forall i :: 0 <= i < c.count - 1 ==> t[i + 1].srcOffset == t[i].srcOffset as int + t[i].srcLength
    ensures t[c.count - 1].srcOffset as int + t[c.count - 1].srcLength == Packed(m, c.first, c.first + c.count)
    ensures b.output != 0 ==> forall i :: 0 <= i < c.count - 1 ==> t[i + 1].dstOffset == t[i].dstOffset as int + t[i].dstLength
    ensures b.output != 0 ==>
      t[c.count - 1].dstOffset as int + t[c.count - 1].dstLength == Unpacked(m, c.first, c.first + c.count) <= b.output
  {
    forall i | 0 <= i < c.count ensures b.output != 0 ==> t[i].dstOffset == Unpacked(m, c.first, c.first + i) {
      UnpackedMonotone(m, c.first, c.first + i, c.first + c.count);
    }
    assert Packed(m, c.first, c.first) == 0 && Unpacked(m, c.first, c.first) == 0;
    forall i | 0 <= i < c.count - 1
      ensures t[i + 1].srcOffset == t[i].srcOffset as int + t[i].srcLength
      ensures b.output != 0 ==> t[i + 1].dstOffset == t[i].dstOffset as int + t[i].dstLength
    {
      assert Packed(m, c.first, c.first + i + 1) == Packed(m, c.first, c.first + i) + m[c.first + i].packed;
      assert Unpacked(m, c.first, c.first + i + 1) == Unpacked(m, c.first, c.first + i) + m[c.first + i].unpacked;
    }
  }
}
