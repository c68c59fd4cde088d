/** Flattening the substreams of 7z folders into entries (sdk/tools/zz9k-archive.c). */
module Substreams {
  import opened Words
  import opened Names
  import opened SplitWriters

  datatype Folder = Folder(dataOffset: u32, packSize: u32, unpackSize: u32, copied: bool, crc: Option<bv32>)

  datatype Sub = Sub(folder: nat, dataOffset: u32, decodedOffset: u32, packSize: u32, unpackSize: u32, crc: Option<bv32>,
                     unsupportedSplit: bool)

  /** The sum of the numbers from `a` to `b - 1`. */
  function Sum(s: seq<u32>, a: nat, b: nat): (n: nat)
    requires a <= b <= |s|
    decreases b
  {
    if a == b then 0 else Sum(s, a, b - 1) + s[b - 1]
  }

  lemma {:induction false} SumSplits(s: seq<u32>, a: nat, m: nat, b: nat)
    requires a <= m <= b <= |s|
    ensures Sum(s, a, b) == Sum(s, a, m) + Sum(s, m, b)
    decreases b
  {
    if m < b { SumSplits(s, a, m, b - 1); }
  }

  /** Where the substreams of folder `f` start. */
  function First(counts: seq<u32>, f: nat): (n: nat)
    requires f <= |counts|
  {
    Sum(counts, 0, f)
  }

  /** A folder whose substreams cannot be addressed one by one in the packed data. */
  predicate Unsplittable(folder: Folder, count: u32)
  {
    count > 1 && (!folder.copied || folder.packSize != folder.unpackSize)
  }

  /** Substream `j` of folder `f`, which starts at substream `first`. */
  function SubOf(folder: Folder, f: nat, count: u32, sizes: seq<u32>, crcs: seq<Option<bv32>>, first: nat, j: nat): (s: Sub)
    requires first <= j < |sizes| == |crcs| && Sum(sizes, first, j) < TWO32
  {
    var unsplit := Unsplittable(folder, count);
    Sub(f,
        if unsplit || count == 1 then folder.dataOffset else Trunc32(folder.dataOffset as int + Sum(sizes, first, j)),
        Sum(sizes, first, j),
        if !unsplit && folder.copied then sizes[j] else folder.packSize,
        sizes[j],
        if crcs[j].Some? then crcs[j] else if count == 1 then folder.crc else None,
        unsplit)
  }

  predicate IsSub(s: Sub, folder: Folder, f: nat, count: u32, sizes: seq<u32>, crcs: seq<Option<bv32>>, first: nat, j: nat)
  {
    first <= j < |sizes| == |crcs| && Sum(sizes, first, j) < TWO32 && s == SubOf(folder, f, count, sizes, crcs, first, j)
  }

  /** Every folder has substreams, which fill it exactly, and together they are all there are. */
  predicate Fits(folders: seq<Folder>, counts: seq<u32>, sizes: seq<u32>)
    requires |counts| == |folders|
  {
    0 < |sizes| <= 65535 && First(counts, |counts|) == |sizes|
    && forall f :: 0 <= f < |folders| ==> FolderFits(folders, counts, sizes, f)
  }

  predicate FolderFits(folders: seq<Folder>, counts: seq<u32>, sizes: seq<u32>, f: nat)
    requires |counts| == |folders| && f < |folders|
  {
    counts[f] > 0 && First(counts, f + 1) <= |sizes|
    && Sum(sizes, First(counts, f), First(counts, f + 1)) == folders[f].unpackSize
  }

  /** What has been laid out of the folders before `f`. */
  ghost predicate LaidOut(folders: seq<Folder>, counts: seq<u32>, sizes: seq<u32>, crcs: seq<Option<bv32>>, subs: seq<Sub>, f: nat)
    requires |counts| == |folders| && |crcs| == |sizes|
  {
    && f <= |folders| && |subs| == First(counts, f) && |subs| <= |sizes|
    && forall g :: 0 <= g < f ==> FolderFits(folders, counts, sizes, g) && Placed(folders, counts, sizes, crcs, subs, g)
  }

  ghost predicate Placed(folders: seq<Folder>, counts: seq<u32>, sizes: seq<u32>, crcs: seq<Option<bv32>>, subs: seq<Sub>, g: nat)
    requires |counts| == |folders| && |crcs| == |sizes| && g < |folders|
  {
    && First(counts, g + 1) <= |subs| <= |sizes|
    && forall j :: First(counts, g) <= j < First(counts, g + 1) ==>
      IsSub(subs[j], folders[g], g, counts[g], sizes, crcs, First(counts, g), j)
  }

  /** `zz9k_archive_7z_streams_flatten_substreams`; `crcs` holds the CRCs that are defined. */
  method Flatten(folders: seq<Folder>, counts: seq<u32>, sizes: seq<u32>, crcs: seq<Option<bv32>>) returns (r: Option<seq<Sub>>)
    requires |counts| == |folders| && |crcs| == |sizes|
    ensures r.Some? <==> Fits(folders, counts, sizes)
    ensures r.Some? ==> LaidOut(folders, counts, sizes, crcs, r.value, |folders|) && |r.value| == |sizes|
  {
    if |sizes| == 0 || |sizes| > 65535 { return None; }
    var subs: seq<Sub> := [];
    for f := 0 to |folders|
      invariant LaidOut(folders, counts, sizes, crcs, subs, f)
    {
      var count := counts[f];
      assert First(counts, f + 1) == |subs| + count;
      if count == 0 || |subs| + count > |sizes| {
        assert !FolderFits(folders, counts, sizes, f);
        return None;
      }
      var some, more := LayOut(folders, counts, sizes, crcs, f, |subs|);
      if !some { return None; }
      ghost var was := subs;
      subs := subs + more;
      forall g | 0 <= g < f + 1 ensures FolderFits(folders, counts, sizes, g) && Placed(folders, counts, sizes, crcs, subs, g) {
        if g < f {
          StillPlaced(folders, counts, sizes, crcs, was, more, g);
        } else {
          JustPlaced(folders, counts, sizes, crcs, was, more, f);
        }
      }
    }
    if |subs| != |sizes| { return None; }
    r := Some(subs);
  }

  lemma StillPlaced(folders: seq<Folder>, counts: seq<u32>, sizes: seq<u32>, crcs: seq<Option<bv32>>, subs: seq<Sub>,
                    more: seq<Sub>, g: nat)
    requires |counts| == |folders| && |crcs| == |sizes| && g < |folders|
    requires Placed(folders, counts, sizes, crcs, subs, g) && |subs + more| <= |sizes|
    ensures Placed(folders, counts, sizes, crcs, subs + more, g)
  {
  }

  lemma JustPlaced(folders: seq<Folder>, counts: seq<u32>, sizes: seq<u32>, crcs: seq<Option<bv32>>, subs: seq<Sub>,
                   more: seq<Sub>, f: nat)
    requires |counts| == |folders| && |crcs| == |sizes| && f < |folders|
    requires |subs| == First(counts, f) && |more| == counts[f] && |subs + more| <= |sizes|
    requires forall i :: 0 <= i < |more| ==> IsSub(more[i], folders[f], f, counts[f], sizes, crcs, |subs|, |subs| + i)
    ensures Placed(folders, counts, sizes, crcs, subs + more, f)
  {
    var all, first := subs + more, |subs|;
    assert First(counts, f + 1) == first + |more|;
    forall j | first <= j < first + |more|
      ensures IsSub(all[j], folders[f], f, counts[f], sizes, crcs, first, j)
    {
      assert all[j] == more[j - first];
    }
  }

  /** The inner loop: the substreams of one folder, with running totals. */
  method LayOut(folders: seq<Folder>, counts: seq<u32>, sizes: seq<u32>, crcs: seq<Option<bv32>>, f: nat, first: nat)
    returns (ok: bool, more: seq<Sub>)
    requires |counts| == |folders| && |crcs| == |sizes| && f < |folders|
    requires first == First(counts, f) && first + counts[f] <= |sizes| && counts[f] > 0
    ensures ok <==> FolderFits(folders, counts, sizes, f)
    ensures ok ==> |more| == counts[f]
    ensures ok ==> forall i :: 0 <= i < |more| ==> IsSub(more[i], folders[f], f, counts[f], sizes, crcs, first, first + i)
  {
    var folder, count := folders[f], counts[f];
    assert First(counts, f + 1) == first + count;
    var offset: u32, total: u32 := folder.dataOffset, 0;
    var unsplit := count > 1 && (!folder.copied || folder.packSize != folder.unpackSize);
    more := [];
    for i := 0 to count
      invariant |more| == i && total == Sum(sizes, first, first + i) && total <= folder.unpackSize
      invariant offset == Trunc32(folder.dataOffset as int + total)
      invariant forall k :: 0 <= k < i ==> IsSub(more[k], folder, f, count, sizes, crcs, first, first + k)
    {
      var size := sizes[first + i];
      if total > folder.unpackSize || size > folder.unpackSize - total {
        SumSplits(sizes, first, first + i + 1, first + count as int);
        assert Sum(sizes, first, first + i + 1) == total as int + size;
        return false, more;
      }
      more := more + [Sub(f,
        if unsplit then folder.dataOffset else if count == 1 then folder.dataOffset else offset,
        total,
        if unsplit then folder.packSize else if folder.copied then size else folder.packSize,
        size,
        if crcs[first + i].Some? then crcs[first + i] else if count == 1 && folder.crc.Some? then folder.crc else None,
        unsplit)];
      WrapTwice(folder.dataOffset as int + total, size);
      offset := Trunc32(offset as int + size);
      total := total as int + size;
    }
    ok := total == folder.unpackSize;
  }

  /** The entries made of one folder's substreams. */
  function Group(subs: seq<Sub>, first: nat, end: nat): (e: seq<Entry>)
    requires first <= end <= |subs|
  {
    seq(end - first, i requires 0 <= i < end - first =>
      Entry(subs[first + i].unpackSize, subs[first + i].crc, true, subs[first + i].decodedOffset))
  }

  predicate InPlace(e: seq<Entry>, k: nat)
    requires k < |e|
  {
    e[k].decodedOffset == Start(e, k)
  }

  /** `zz9k_archive_7z_split_group_unpacked_size`: the decoded offsets must tile. */
  method GroupSize(e: seq<Entry>) returns (r: Option<u32>)
    ensures r.Some? <==> |e| > 0 && Total(e) <= 0x7FFF_FFFF && forall k :: 0 <= k < |e| ==> InPlace(e, k)
    ensures r.Some? ==> r.value == Total(e)
  {
    if |e| == 0 { return None; }
    var total: u32 := 0;
    for i := 0 to |e|
      invariant total == Start(e, i) && total <= 0x7FFF_FFFF
      invariant forall k :: 0 <= k < i ==> InPlace(e, k)
    {
      assert InPlace(e, i) <==> e[i].decodedOffset == total;
      if e[i].decodedOffset != total || e[i].size > 0x7FFF_FFFF - total {
        StartMonotone(e, i + 1, |e|);
        return None;
      }
      total := total as int + e[i].size;
    }
    r := Some(total);
  }

  /** Entries of the given sizes at the running totals of those sizes. */
  ghost predicate Tiling(e: seq<Entry>, sizes: seq<u32>, first: nat)
    requires first + |e| <= |sizes|
  {
    forall k :: 0 <= k < |e| ==> e[k].size == sizes[first + k] && e[k].decodedOffset == Sum(sizes, first, first + k)
  }

  lemma {:induction false} StartIsSum(e: seq<Entry>, sizes: seq<u32>, first: nat, k: nat)
    requires first + |e| <= |sizes| && k <= |e| && Tiling(e, sizes, first)
    ensures Start(e, k) == Sum(sizes, first, first + k)
  {
    if k > 0 { StartIsSum(e, sizes, first, k - 1); }
  }

  lemma GroupTiles(e: seq<Entry>, sizes: seq<u32>, first: nat)
    requires first + |e| <= |sizes| && Tiling(e, sizes, first)
    ensures Total(e) == Sum(sizes, first, first + |e|) && forall k :: 0 <= k < |e| ==> InPlace(e, k)
  {
    StartIsSum(e, sizes, first, |e|);
    forall k | 0 <= k < |e| ensures InPlace(e, k) {
      StartIsSum(e, sizes, first, k);
    }
  }

  /** The substreams of a flattened folder tile it: they pass the check of the splitter, and the
      stream the splitter expects is the folder's whole unpacked size. */
  lemma FolderTiles(folders: seq<Folder>, counts: seq<u32>, sizes: seq<u32>, crcs: seq<Option<bv32>>, subs: seq<Sub>, f: nat)
    requires |counts| == |folders| && |crcs| == |sizes| && |subs| == |sizes| && f < |folders|
    requires LaidOut(folders, counts, sizes, crcs, subs, |folders|)
    ensures First(counts, f) < First(counts, f + 1) <= |subs|
    ensures var e := Group(subs, First(counts, f), First(counts, f + 1));
      Total(e) == folders[f].unpackSize && forall k :: 0 <= k < |e| ==> InPlace(e, k)
  {
    var first, end := First(counts, f), First(counts, f + 1);
    assert FolderFits(folders, counts, sizes, f) && Placed(folders, counts, sizes, crcs, subs, f);
    var e := Group(subs, first, end);
    forall k | 0 <= k < |e| ensures e[k].size == sizes[first + k] && e[k].decodedOffset == Sum(sizes, first, first + k) {
      assert IsSub(subs[first + k], folders[f], f, counts[f], sizes, crcs, first, first + k);
    }
    GroupTiles(e, sizes, first);
  }
}
