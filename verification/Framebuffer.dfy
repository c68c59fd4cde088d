/** Saving, drawing over and restoring a rectangle of a framebuffer
    (sdk/tools/zz9k-fb-common.c): rows of `pitch` bytes, pixels of `bpp` bytes. */
module Framebuffer {
  import opened Words

  datatype Rect = Rect(x: u32, y: u32, w: u32, h: u32)

  /** `zz9k_fb_rect_extents` succeeds: not empty, and its far corner does not wrap. */
  predicate HasExtents(r: Rect)
  {
    r.w != 0 && r.h != 0 && r.x as int + r.w < TWO32 && r.y as int + r.h < TWO32
  }

  /** `zz9k_fb_rect_contains_rect`. */
  predicate Contains(outer: Rect, inner: Rect)
  {
    && HasExtents(outer) && HasExtents(inner) && inner.x >= outer.x && inner.y >= outer.y
    && inner.x as int + inner.w <= outer.x as int + outer.w && inner.y as int + inner.h <= outer.y as int + outer.h
  }

  /** Containment is containment of every pixel. */
  lemma ContainsEveryPixel(outer: Rect, inner: Rect)
    requires HasExtents(outer) && HasExtents(inner)
    ensures Contains(outer, inner) <==> forall x: nat, y: nat :: HasPixel(inner, x, y) ==> HasPixel(outer, x, y)
  {
    var right, bottom: nat := inner.x as int + inner.w - 1, inner.y as int + inner.h - 1;
    assert HasPixel(inner, inner.x, inner.y) && HasPixel(inner, right, bottom);
    if Contains(outer, inner) {
      forall x: nat, y: nat | HasPixel(inner, x, y) ensures HasPixel(outer, x, y) { }
    }
  }

  predicate HasPixel(r: Rect, x: nat, y: nat)
  {
    r.x <= x < r.x as int + r.w && r.y <= y < r.y as int + r.h
  }

  /** A surface: its row length, pixel size, and number of bytes, which an address can reach. */
  datatype Shape = Shape(pitch: u32, bpp: u32, length: nat)

  /** The rectangle lies on the surface, row by row, down to its last byte. */
  predicate OnSurface(r: Rect, s: Shape)
  {
    && s.length < TWO32 && 0 < s.bpp && (r.x as int + r.w) * s.bpp <= s.pitch
    && (r.y as int + r.h - 1) * s.pitch + (r.x as int + r.w) * s.bpp <= s.length
  }

  /** Byte `p` of the surface belongs to the rectangle. */
  predicate Inside(r: Rect, s: Shape, p: nat)
    requires s.pitch > 0
  {
    && r.y <= p / s.pitch < r.y as int + r.h
    && r.x as int * s.bpp <= p % s.pitch < (r.x as int + r.w) * s.bpp
  }

  /** The address of byte `col` of row `row` of the rectangle. */
  function Address(r: Rect, s: Shape, row: nat, col: nat): (p: nat)
  {
    MulNonneg(r.y as int + row, s.pitch);
    MulNonneg(r.x, s.bpp);
    (r.y as int + row) * s.pitch + (r.x as int * s.bpp + col)
  }

  lemma MulNonneg(a: nat, b: nat)
    ensures a * b >= 0
  {
  }

  function RowBytes(r: Rect, s: Shape): (n: nat)
  {
    MulNonneg(r.w, s.bpp);
    r.w as int * s.bpp
  }

  /** Where a row starts on the surface, and its first byte, fit a word, and so does its place in a
      copy of the rectangle. */
  lemma RowStart(r: Rect, s: Shape, row: nat)
    requires OnSurface(r, s) && row < r.h
    ensures 0 <= (r.y as int + row) * s.pitch < TWO32 && 0 <= r.x as int * s.bpp < TWO32
    ensures RowBytes(r, s) < TWO32 && 0 <= row * RowBytes(r, s) < TWO32
  {
    var last := r.y as int + r.h - 1;
    assert (r.x as int + r.w) * s.bpp == r.x as int * s.bpp + RowBytes(r, s);
    MulLe(r.x, r.x, s.bpp, s.bpp);
    MulLe(r.w, r.w, s.bpp, s.bpp);
    MulLe(r.y as int + row, last, s.pitch, s.pitch);
    MulLe(row, last, RowBytes(r, s), s.pitch);
  }

  /** An address tells its row and column, and lies on the surface. */
  lemma AddressParts(r: Rect, s: Shape, row: nat, col: nat)
    requires OnSurface(r, s) && row < r.h && col < RowBytes(r, s)
    ensures s.pitch > 0 && Address(r, s, row, col) < s.length && Inside(r, s, Address(r, s, row, col))
    ensures Address(r, s, row, col) / s.pitch == r.y as int + row && Address(r, s, row, col) % s.pitch == r.x as int * s.bpp + col
  {
    var q, c := r.y as int + row, r.x as int * s.bpp + col;
    assert (r.x as int + r.w) * s.bpp == r.x as int * s.bpp + r.w as int * s.bpp;
    assert q * s.pitch == s.pitch * q;
    DivModUnique(q * s.pitch + c, s.pitch, q, c);
    MulLe(q, r.y as int + r.h - 1, s.pitch, s.pitch);
  }

  /** The bytes of the rectangle before byte `col` of row `row`, in the order of the loops. */
  predicate UpTo(r: Rect, s: Shape, p: nat, row: nat, col: nat)
    requires s.pitch > 0
  {
    Inside(r, s, p) && (p / s.pitch < r.y as int + row || (p / s.pitch == r.y as int + row && p % s.pitch < r.x as int * s.bpp + col))
  }

  lemma NextByte(r: Rect, s: Shape, p: nat, row: nat, col: nat)
    requires OnSurface(r, s) && row < r.h && col < RowBytes(r, s)
    ensures s.pitch > 0 && (UpTo(r, s, p, row, col + 1) <==> UpTo(r, s, p, row, col) || p == Address(r, s, row, col))
    ensures !UpTo(r, s, Address(r, s, row, col), row, col)
  {
    AddressParts(r, s, row, col);
    if p / s.pitch == r.y as int + row && p % s.pitch == r.x as int * s.bpp + col {
      assert p == s.pitch * (p / s.pitch) + p % s.pitch;
      assert s.pitch * (r.y as int + row) == (r.y as int + row) * s.pitch;
    }
  }

  lemma NextRow(r: Rect, s: Shape, p: nat, row: nat)
    requires OnSurface(r, s) && row < r.h && s.pitch > 0
    ensures UpTo(r, s, p, row, RowBytes(r, s)) <==> UpTo(r, s, p, row + 1, 0)
  {
    assert (r.x as int + r.w) * s.bpp == r.x as int * s.bpp + r.w as int * s.bpp;
  }

  lemma StartOfRect(r: Rect, s: Shape, p: nat)
    requires s.pitch > 0
    ensures !UpTo(r, s, p, 0, 0)
  {
  }

  lemma EndOfRect(r: Rect, s: Shape, p: nat)
    requires s.pitch > 0
    ensures UpTo(r, s, p, r.h, 0) <==> Inside(r, s, p)
  {
  }

  /** Byte `i` of a saved rectangle, whose rows follow each other without gaps. */
  function SavedByte(surface: seq<u8>, r: Rect, s: Shape, i: nat): (b: u8)
    requires OnSurface(r, s) && |surface| == s.length && RowBytes(r, s) > 0 && i < r.h * RowBytes(r, s)
  {
    SavedRow(r, s, i);
    AddressParts(r, s, i / RowBytes(r, s), i % RowBytes(r, s));
    surface[Address(r, s, i / RowBytes(r, s), i % RowBytes(r, s))]
  }

  lemma SavedRow(r: Rect, s: Shape, i: nat)
    requires RowBytes(r, s) > 0 && i < r.h * RowBytes(r, s)
    ensures 0 <= i / RowBytes(r, s) < r.h && 0 <= i % RowBytes(r, s) < RowBytes(r, s)
  {
    QuotientParts(i, RowBytes(r, s));
    QuotientBelow(i, RowBytes(r, s), r.h, i / RowBytes(r, s), i % RowBytes(r, s));
  }

  lemma QuotientParts(c: nat, d: nat)
    requires d > 0
    ensures 0 <= c / d && 0 <= c % d < d && c == d * (c / d) + c % d
  {
  }

  lemma QuotientBelow(i: nat, n: nat, h: nat, q: nat, m: nat)
    requires i == n * q + m && i < h * n
    ensures q < h
  {
    if q >= h { MulLe(h, q, n, n); }
  }

  ghost predicate Saved(surface: seq<u8>, r: Rect, s: Shape, saved: seq<u8>, n: nat)
  {
    && OnSurface(r, s) && |surface| == s.length && n <= r.h * RowBytes(r, s) && n <= |saved|
    && forall i :: 0 <= i < n ==> RowBytes(r, s) > 0 && saved[i] == SavedByte(surface, r, s, i)
  }

  lemma RowFits(r: Rect, s: Shape, row: nat, col: nat)
    requires row < r.h && col < RowBytes(r, s)
    ensures row * RowBytes(r, s) + col < r.h * RowBytes(r, s)
    ensures (row * RowBytes(r, s) + col) / RowBytes(r, s) == row && (row * RowBytes(r, s) + col) % RowBytes(r, s) == col
    ensures (row + 1) * RowBytes(r, s) == row * RowBytes(r, s) + RowBytes(r, s)
  {
    var n := RowBytes(r, s);
    MulLe(row + 1, r.h, n, n);
    assert (row + 1) * n == row * n + n;
    assert row * n == n * row;
    DivModUnique(row * n + col, n, row, col);
  }

  /** `zz9k_fb_copy_rect_from_surface`. */
  method CopyFromSurface(dst: array<u8>, src: seq<u8>, r: Rect, s: Shape)
    requires OnSurface(r, s) && |src| == s.length && r.h * RowBytes(r, s) <= dst.Length
    modifies dst
    ensures Saved(src, r, s, dst[..], r.h * RowBytes(r, s))
  {
    var rowBytes := r.w as int * s.bpp;
    for row := 0 to r.h
      invariant row * rowBytes <= r.h * rowBytes && Saved(src, r, s, dst[..], row * rowBytes)
    {
      for col := 0 to rowBytes
        invariant row * rowBytes + col <= r.h * rowBytes && Saved(src, r, s, dst[..], row * rowBytes + col)
      {
        SaveOne(dst, src, r, s, row, col);
      }
      assert (row + 1) * rowBytes == row * rowBytes + rowBytes;
    }
  }

  method SaveOne(dst: array<u8>, src: seq<u8>, r: Rect, s: Shape, row: nat, col: nat)
    requires row < r.h && col < RowBytes(r, s) && r.h * RowBytes(r, s) <= dst.Length
    requires Saved(src, r, s, dst[..], row * RowBytes(r, s) + col)
    modifies dst
    ensures Saved(src, r, s, dst[..], row * RowBytes(r, s) + col + 1)
  {
    RowFits(r, s, row, col);
    AddressParts(r, s, row, col);
    RowStart(r, s, row);
    ghost var was := dst[..];
    var srcRow: u32 := (r.y as int + row) * s.pitch;
    var left: u32 := r.x as int * s.bpp;
    var dstRow: u32 := row * (r.w as int * s.bpp);
    dst[dstRow + col] := src[srcRow + (left + col)];
    assert dst[..] == was[dstRow + col := src[Address(r, s, row, col)]];
  }

  /** Where a byte of the rectangle is in the saved copy. */
  function SavedIndex(r: Rect, s: Shape, p: nat): (i: nat)
    requires s.pitch > 0 && Inside(r, s, p)
    ensures i < r.h * RowBytes(r, s)
  {
    SavedIndexFits(r, s, p);
    (p / s.pitch - r.y) * RowBytes(r, s) + (p % s.pitch - r.x as int * s.bpp)
  }

  lemma SavedIndexFits(r: Rect, s: Shape, p: nat)
    requires s.pitch > 0 && Inside(r, s, p)
    ensures 0 <= p / s.pitch - r.y < r.h && 0 <= p % s.pitch - r.x as int * s.bpp < RowBytes(r, s)
    ensures 0 <= (p / s.pitch - r.y) * RowBytes(r, s) + (p % s.pitch - r.x as int * s.bpp) < r.h * RowBytes(r, s)
  {
    assert (r.x as int + r.w) * s.bpp == r.x as int * s.bpp + r.w as int * s.bpp;
    RowFits(r, s, p / s.pitch - r.y, p % s.pitch - r.x as int * s.bpp);
    MulLe(0, p / s.pitch - r.y, RowBytes(r, s), RowBytes(r, s));
  }

  lemma InsideContained(outer: Rect, inner: Rect, s: Shape, p: nat)
    requires Contains(outer, inner) && s.pitch > 0 && Inside(inner, s, p)
    ensures Inside(outer, s, p)
  {
    MulLe(outer.x, inner.x, s.bpp, s.bpp);
    MulLe(inner.x as int + inner.w, outer.x as int + outer.w, s.bpp, s.bpp);
  }

  /** Where the restoring loops read that byte: the start of its row in the copy is computed in 32
      bits. */
  function ReadIndex(r: Rect, s: Shape, p: nat): (i: nat)
    requires s.pitch > 0 && Inside(r, s, p)
    ensures i <= SavedIndex(r, s, p)
    ensures i == SavedIndex(r, s, p) <==> (p / s.pitch - r.y) * RowBytes(r, s) < TWO32
  {
    SavedIndexFits(r, s, p);
    MulLe(0, p / s.pitch - r.y, RowBytes(r, s), RowBytes(r, s));
    TruncBelow((p / s.pitch - r.y) * RowBytes(r, s));
    Trunc32((p / s.pitch - r.y) * RowBytes(r, s)) + (p % s.pitch - r.x as int * s.bpp)
  }

  lemma TruncBelow(x: nat)
    ensures Trunc32(x) <= x && (Trunc32(x) == x <==> x < TWO32)
  {
  }

  /** The bytes of `clip` up to the given row and column are those saved of `r`; all others are as
      they were. */
  ghost predicate RestoredUpTo(now: seq<u8>, was: seq<u8>, saved: seq<u8>, r: Rect, clip: Rect, s: Shape, row: nat, col: nat)
  {
    && s.pitch > 0 && |now| == |was| == s.length && r.h * RowBytes(r, s) <= |saved|
    && forall p :: 0 <= p < s.length ==>
      now[p] == if UpTo(clip, s, p, row, col) && Inside(r, s, p) then saved[ReadIndex(r, s, p)] else was[p]
  }

  /** One byte of a restoring loop. */
  method RestoreOne(dst: array<u8>, saved: seq<u8>, r: Rect, clip: Rect, s: Shape, row: nat, col: nat, i: nat, a: nat,
                    ghost was: seq<u8>)
    requires OnSurface(clip, s) && row < clip.h && col < RowBytes(clip, s)
    requires dst.Length == s.length && RestoredUpTo(dst[..], was, saved, r, clip, s, row, col)
    requires a == Address(clip, s, row, col) < s.length && Inside(r, s, a) && i == ReadIndex(r, s, a)
    modifies dst
    ensures RestoredUpTo(dst[..], was, saved, r, clip, s, row, col + 1)
  {
    ghost var before := dst[..];
    dst[a] := saved[i];
    RestoredGrows(before, dst[..], was, saved, r, clip, s, row, col, a);
  }

  lemma RestoredGrows(before: seq<u8>, now: seq<u8>, was: seq<u8>, saved: seq<u8>, r: Rect, clip: Rect, s: Shape,
                      row: nat, col: nat, a: nat)
    requires OnSurface(clip, s) && row < clip.h && col < RowBytes(clip, s)
    requires RestoredUpTo(before, was, saved, r, clip, s, row, col)
    requires a == Address(clip, s, row, col) < s.length && Inside(r, s, a) && now == before[a := saved[ReadIndex(r, s, a)]]
    ensures RestoredUpTo(now, was, saved, r, clip, s, row, col + 1)
  {
    forall p | 0 <= p < s.length
      ensures now[p] == if UpTo(clip, s, p, row, col + 1) && Inside(r, s, p) then saved[ReadIndex(r, s, p)] else was[p]
    {
      NextByte(clip, s, p, row, col);
    }
  }

  lemma IndexOfAddress(r: Rect, clip: Rect, s: Shape, row: nat, col: nat)
    requires OnSurface(clip, s) && (Contains(r, clip) || r == clip) && row < clip.h && col < RowBytes(clip, s)
    ensures s.pitch > 0 && Inside(r, s, Address(clip, s, row, col)) && Address(clip, s, row, col) < s.length
    ensures ReadIndex(r, s, Address(clip, s, row, col))
      == Trunc32((clip.y - r.y as int + row) * RowBytes(r, s)) + ((clip.x as int - r.x) * s.bpp + col)
  {
    AddressParts(clip, s, row, col);
    if r != clip { InsideContained(r, clip, s, Address(clip, s, row, col)); }
    assert (clip.x as int - r.x) * s.bpp == clip.x as int * s.bpp - r.x as int * s.bpp;
  }

  lemma LeftFits(r: Rect, clip: Rect, s: Shape)
    requires (Contains(r, clip) || r == clip) && RowBytes(r, s) < TWO32
    ensures 0 <= (clip.x as int - r.x) * s.bpp < TWO32 && 0 <= RowBytes(clip, s) < TWO32
  {
    MulLe(clip.x as int - r.x, r.w, s.bpp, s.bpp);
    MulLe(clip.w, r.w, s.bpp, s.bpp);
  }

  method RestoreRows(dst: array<u8>, saved: seq<u8>, r: Rect, clip: Rect, s: Shape)
    requires OnSurface(clip, s) && s.pitch > 0 && dst.Length == s.length && r.h * RowBytes(r, s) <= |saved|
    requires (Contains(r, clip) || r == clip) && RowBytes(r, s) < TWO32
    modifies dst
    ensures RestoredUpTo(dst[..], old(dst[..]), saved, r, clip, s, clip.h, 0)
  {
    LeftFits(r, clip, s);
    var srcPitch: u32 := r.w as int * s.bpp;
    var rowBytes: u32 := clip.w as int * s.bpp;
    var left: u32 := (clip.x as int - r.x) * s.bpp;
    ghost var was := dst[..];
    forall p | 0 <= p < s.length ensures !UpTo(clip, s, p, 0, 0) { StartOfRect(clip, s, p); }
    for row := 0 to clip.h
      invariant RestoredUpTo(dst[..], was, saved, r, clip, s, row, 0)
    {
      RowStart(clip, s, row);
      var srcRow := Trunc32((clip.y - r.y as int + row) * srcPitch);
      var dstRow: u32 := (clip.y as int + row) * s.pitch;
      var dstLeft: u32 := clip.x as int * s.bpp;
      RestoreRow(dst, saved, r, clip, s, row, srcRow, left, dstRow, dstLeft, rowBytes, was);
    }
  }

  /** One row, from `left` bytes after `srcRow` in the copy to `dstLeft` bytes after `dstRow`. */
  method RestoreRow(dst: array<u8>, saved: seq<u8>, r: Rect, clip: Rect, s: Shape, row: nat, srcRow: u32, left: u32,
                    dstRow: u32, dstLeft: u32, rowBytes: u32, ghost was: seq<u8>)
    requires OnSurface(clip, s) && row < clip.h && dst.Length == s.length && (Contains(r, clip) || r == clip)
    requires srcRow == Trunc32((clip.y - r.y as int + row) * RowBytes(r, s)) && left == (clip.x as int - r.x) * s.bpp
    requires dstRow == (clip.y as int + row) * s.pitch && dstLeft == clip.x as int * s.bpp && rowBytes == RowBytes(clip, s)
    requires RestoredUpTo(dst[..], was, saved, r, clip, s, row, 0)
    modifies dst
    ensures RestoredUpTo(dst[..], was, saved, r, clip, s, row + 1, 0)
  {
    for col := 0 to rowBytes
      invariant RestoredUpTo(dst[..], was, saved, r, clip, s, row, col)
    {
      IndexOfAddress(r, clip, s, row, col);
      RestoreOne(dst, saved, r, clip, s, row, col, srcRow + (left + col), dstRow + (dstLeft + col), was);
    }
    RowRestored(dst[..], was, saved, r, clip, s, row);
  }

  lemma RowRestored(now: seq<u8>, was: seq<u8>, saved: seq<u8>, r: Rect, clip: Rect, s: Shape, row: nat)
    requires OnSurface(clip, s) && row < clip.h && RestoredUpTo(now, was, saved, r, clip, s, row, RowBytes(clip, s))
    ensures RestoredUpTo(now, was, saved, r, clip, s, row + 1, 0)
  {
    forall p | 0 <= p < s.length ensures UpTo(clip, s, p, row, RowBytes(clip, s)) <==> UpTo(clip, s, p, row + 1, 0) {
      NextRow(clip, s, p, row);
    }
  }

  /** `zz9k_fb_copy_rect_to_surface`. */
  method CopyToSurface(dst: array<u8>, saved: seq<u8>, r: Rect, s: Shape)
    requires OnSurface(r, s) && s.pitch > 0 && dst.Length == s.length && r.h * RowBytes(r, s) <= |saved|
    modifies dst
    ensures RestoredUpTo(dst[..], old(dst[..]), saved, r, r, s, r.h, 0)
  {
    if r.h == 0 {
      forall p | 0 <= p < s.length ensures !UpTo(r, s, p, 0, 0) { StartOfRect(r, s, p); }
      return;
    }
    RowStart(r, s, 0);
    RestoreRows(dst, saved, r, r, s);
  }

  /** `zz9k_fb_copy_backup_clip_to_surface`: refuses a clip that is not inside the backup. */
  method CopyBackupClip(dst: array<u8>, saved: seq<u8>, s: Shape, r: Rect, clip: Rect) returns (ok: int)
    requires Contains(r, clip) && s.bpp > 0 ==>
      OnSurface(clip, s) && dst.Length == s.length && r.h * RowBytes(r, s) <= |saved|
    modifies dst
    ensures ok == 1 <==> Contains(r, clip) && s.bpp != 0 && RowBytes(r, s) < TWO32 && RowBytes(clip, s) < TWO32
    ensures ok == 0 || ok == 1
    ensures ok == 1 ==> RestoredUpTo(dst[..], old(dst[..]), saved, r, clip, s, clip.h, 0)
    ensures ok == 0 ==> dst[..] == old(dst[..])
  {
    if s.bpp == 0 || !Contains(r, clip) { return 0; }
    WidthCheck(r.w, s.bpp);
    WidthCheck(clip.w, s.bpp);
    if r.w > 0xFFFF_FFFF / s.bpp || clip.w > 0xFFFF_FFFF / s.bpp { return 0; }
    AddressPitch(clip, s);
    RestoreRows(dst, saved, r, clip, s);
    ok := 1;
  }

  /** What is restored of a clip is what was saved of it exactly when the start of its last row in
      the backup fits 32 bits. */
  lemma BackupReadExactly(r: Rect, clip: Rect, s: Shape)
    requires Contains(r, clip) && OnSurface(clip, s)
    ensures s.pitch > 0
    ensures (forall p: nat :: Inside(clip, s, p) ==> Inside(r, s, p) && ReadIndex(r, s, p) == SavedIndex(r, s, p))
      <==> (clip.y as int + clip.h - 1 - r.y) * RowBytes(r, s) < TWO32
  {
    AddressPitch(clip, s);
    var last := clip.y as int + clip.h - 1 - r.y;
    MulPos(clip.w, s.bpp);
    IndexOfAddress(r, clip, s, clip.h - 1, 0);
    AddressParts(clip, s, clip.h - 1, 0);
    if last * RowBytes(r, s) < TWO32 {
      forall p: nat | Inside(clip, s, p) ensures Inside(r, s, p) && ReadIndex(r, s, p) == SavedIndex(r, s, p) {
        InsideContained(r, clip, s, p);
        MulLe(p / s.pitch - r.y, last, RowBytes(r, s), RowBytes(r, s));
      }
    } else {
      var p := Address(clip, s, clip.h - 1, 0);
      assert Inside(clip, s, p) && ReadIndex(r, s, p) != SavedIndex(r, s, p);
    }
  }

  /** For instance, a backup of 65537 rows of 65536 bytes: its last row is read from its first. */
  lemma BackupCanWrap()
    ensures var r, clip, s := Rect(0, 0, 0x1_0000, 0x1_0001), Rect(0, 0x1_0000, 1, 1), Shape(1, 1, 0x1_0001);
      && Contains(r, clip) && OnSurface(clip, s) && RowBytes(r, s) < TWO32 && Inside(r, s, 0x1_0000)
      && SavedIndex(r, s, 0x1_0000) == TWO32 && ReadIndex(r, s, 0x1_0000) == 0
  {
  }

  lemma WidthCheck(w: nat, bpp: nat)
    requires bpp > 0
    ensures w > 0xFFFF_FFFF / bpp <==> w * bpp > 0xFFFF_FFFF
  {
    var q := 0xFFFF_FFFF / bpp;
    assert 0xFFFF_FFFF == bpp * q + 0xFFFF_FFFF % bpp;
    if w > q { MulLe(q + 1, w, bpp, bpp); } else { MulLe(w, q, bpp, bpp); }
    assert (q + 1) * bpp == bpp * q + bpp;
  }

  lemma AddressPitch(r: Rect, s: Shape)
    requires OnSurface(r, s) && r.w > 0 && r.h > 0
    ensures s.pitch > 0
  {
    MulPos(r.w, s.bpp);
    AddressParts(r, s, 0, 0);
  }

  /** What drawing makes of a byte: a pixel's bytes inside the rectangle, nothing else. */
  ghost predicate DrawnUpTo(now: seq<u8>, was: seq<u8>, r: Rect, s: Shape, pixel: (nat, nat) -> seq<u8>, row: nat, col: nat)
  {
    && s.pitch > 0 && s.bpp > 0 && |now| == |was| == s.length
    && forall p :: 0 <= p < s.length ==>
      now[p] == if UpTo(r, s, p, row, col) then DrawnByte(r, s, pixel, p, was[p]) else was[p]
  }

  function DrawnByte(r: Rect, s: Shape, pixel: (nat, nat) -> seq<u8>, p: nat, before: u8): (b: u8)
    requires s.pitch > 0 && s.bpp > 0 && Inside(r, s, p)
  {
    var c: nat := p % s.pitch - r.x as int * s.bpp;
    QuotientParts(c, s.bpp);
    var bytes := pixel(c / s.bpp, p / s.pitch - r.y);
    if c % s.bpp < |bytes| then bytes[c % s.bpp] else before
  }

  /** `zz9k_fb_draw_rect` over any pixel writer that writes at most one pixel's bytes. */
  method DrawRect(dst: array<u8>, r: Rect, s: Shape, pixel: (nat, nat) -> seq<u8>)
    requires OnSurface(r, s) && s.pitch > 0 && dst.Length == s.length
    requires forall x, y :: |pixel(x, y)| <= s.bpp
    modifies dst
    ensures DrawnUpTo(dst[..], old(dst[..]), r, s, pixel, r.h, 0)
  {
    ghost var was := dst[..];
    forall p | 0 <= p < s.length ensures !UpTo(r, s, p, 0, 0) { StartOfRect(r, s, p); }
    for y := 0 to r.h
      invariant DrawnUpTo(dst[..], was, r, s, pixel, y, 0)
    {
      DrawRow(dst, r, s, pixel, y, was);
    }
  }

  method DrawRow(dst: array<u8>, r: Rect, s: Shape, pixel: (nat, nat) -> seq<u8>, y: nat, ghost was: seq<u8>)
    requires OnSurface(r, s) && dst.Length == s.length && y < r.h
    requires forall x, y :: |pixel(x, y)| <= s.bpp
    requires DrawnUpTo(dst[..], was, r, s, pixel, y, 0)
    modifies dst
    ensures DrawnUpTo(dst[..], was, r, s, pixel, y + 1, 0)
  {
    for x := 0 to r.w
      invariant DrawnUpTo(dst[..], was, r, s, pixel, y, x * s.bpp)
    {
      DrawPixel(dst, r, s, pixel, x, y, was);
    }
    forall p | 0 <= p < s.length ensures UpTo(r, s, p, y, RowBytes(r, s)) <==> UpTo(r, s, p, y + 1, 0) {
      NextRow(r, s, p, y);
    }
  }

  lemma PixelFits(x: nat, w: nat, bpp: nat)
    requires x < w
    ensures (x + 1) * bpp == x * bpp + bpp <= w * bpp
  {
    MulLe(x + 1, w, bpp, bpp);
  }

  /** One pixel, byte by byte. */
  method DrawPixel(dst: array<u8>, r: Rect, s: Shape, pixel: (nat, nat) -> seq<u8>, x: nat, y: nat, ghost was: seq<u8>)
    requires OnSurface(r, s) && dst.Length == s.length && x < r.w && y < r.h && |pixel(x, y)| <= s.bpp
    requires DrawnUpTo(dst[..], was, r, s, pixel, y, x * s.bpp)
    modifies dst
    ensures DrawnUpTo(dst[..], was, r, s, pixel, y, (x + 1) * s.bpp)
  {
    var bytes := pixel(x, y);
    PixelFits(x, r.w, s.bpp);
    for k := 0 to s.bpp
      invariant DrawnUpTo(dst[..], was, r, s, pixel, y, x * s.bpp + k)
    {
      DrawByte(dst, r, s, pixel, x, y, k, x * s.bpp + k, was);
    }
  }

  /** Byte `k` of the pixel, which is byte `c` of the row. */
  method DrawByte(dst: array<u8>, r: Rect, s: Shape, pixel: (nat, nat) -> seq<u8>, x: nat, y: nat, k: nat, c: nat,
                  ghost was: seq<u8>)
    requires OnSurface(r, s) && dst.Length == s.length && x < r.w && y < r.h && k < s.bpp && c == x * s.bpp + k
    requires c < RowBytes(r, s) && DrawnUpTo(dst[..], was, r, s, pixel, y, c)
    modifies dst
    ensures DrawnUpTo(dst[..], was, r, s, pixel, y, c + 1)
  {
    AddressParts(r, s, y, c);
    var a := Address(r, s, y, c);
    ghost var before := dst[..];
    PixelByte(r, s, pixel, x, y, k, c, was[a]);
    NextByte(r, s, a, y, c);
    RowStart(r, s, y);
    var dstRow: u32 := (r.y as int + y) * s.pitch;
    var left: u32 := r.x as int * s.bpp;
    var bytes := pixel(x, y);
    if k < |bytes| { dst[dstRow + (left + c)] := bytes[k]; }
    DrawnGrows(before, dst[..], was, r, s, pixel, y, c);
  }

  /** The byte of its pixel that an address stands for. */
  lemma PixelByte(r: Rect, s: Shape, pixel: (nat, nat) -> seq<u8>, x: nat, y: nat, k: nat, c: nat, b: u8)
    requires OnSurface(r, s) && x < r.w && y < r.h && k < s.bpp && c == x * s.bpp + k && c < RowBytes(r, s)
    ensures s.pitch > 0 && Inside(r, s, Address(r, s, y, c))
    ensures DrawnByte(r, s, pixel, Address(r, s, y, c), b) == if k < |pixel(x, y)| then pixel(x, y)[k] else b
  {
    AddressParts(r, s, y, c);
    assert x * s.bpp == s.bpp * x;
    DivModUnique(c, s.bpp, x, k);
  }

  lemma DrawnGrows(before: seq<u8>, now: seq<u8>, was: seq<u8>, r: Rect, s: Shape, pixel: (nat, nat) -> seq<u8>, y: nat, c: nat)
    requires OnSurface(r, s) && y < r.h && c < RowBytes(r, s) && DrawnUpTo(before, was, r, s, pixel, y, c)
    requires Address(r, s, y, c) < s.length && Inside(r, s, Address(r, s, y, c))
    requires now == before[Address(r, s, y, c) := DrawnByte(r, s, pixel, Address(r, s, y, c), was[Address(r, s, y, c)])]
    ensures DrawnUpTo(now, was, r, s, pixel, y, c + 1)
  {
    forall p | 0 <= p < s.length
      ensures now[p] == if UpTo(r, s, p, y, c + 1) then DrawnByte(r, s, pixel, p, was[p]) else was[p]
    {
      NextByte(r, s, p, y, c);
    }
  }

  lemma SavedAtIndex(before: seq<u8>, saved: seq<u8>, r: Rect, s: Shape, p: nat)
    requires Saved(before, r, s, saved, r.h * RowBytes(r, s)) && p < s.length && s.pitch > 0 && Inside(r, s, p)
    ensures ReadIndex(r, s, p) == SavedIndex(r, s, p) && saved[SavedIndex(r, s, p)] == before[p]
  {
    RowStart(r, s, p / s.pitch - r.y);
    SavedIndexFits(r, s, p);
    var row, col := p / s.pitch - r.y, p % s.pitch - r.x as int * s.bpp;
    RowFits(r, s, row, col);
    assert SavedIndex(r, s, p) == row * RowBytes(r, s) + col;
    assert p == s.pitch * (p / s.pitch) + p % s.pitch;
    assert s.pitch * (p / s.pitch) == (p / s.pitch) * s.pitch;
    assert Address(r, s, row, col) == p;
  }

  /** Saving a rectangle, drawing only inside it, and restoring a clip of it brings back the
      clip's original bytes and changes no other byte; restoring all of it undoes the drawing. */
  lemma RestoreUndoesDrawing(before: seq<u8>, drawn: seq<u8>, after: seq<u8>, saved: seq<u8>, r: Rect, clip: Rect, s: Shape)
    requires Contains(r, clip) || r == clip
    requires Saved(before, r, s, saved, r.h * RowBytes(r, s)) && s.pitch > 0 && |drawn| == s.length
    requires forall p :: 0 <= p < s.length && !Inside(r, s, p) ==> drawn[p] == before[p]
    requires RestoredUpTo(after, drawn, saved, r, clip, s, clip.h, 0)
    ensures forall p :: 0 <= p < s.length ==> after[p] == if Inside(clip, s, p) then before[p] else drawn[p]
    ensures clip == r ==> after == before
  {
    forall p | 0 <= p < s.length ensures after[p] == if Inside(clip, s, p) then before[p] else drawn[p] {
      EndOfRect(clip, s, p);
      if Inside(clip, s, p) {
        if r != clip { InsideContained(r, clip, s, p); }
        SavedAtIndex(before, saved, r, s, p);
      }
    }
  }

  /** Drawing changes nothing outside its rectangle. */
  lemma DrawingStaysInside(now: seq<u8>, was: seq<u8>, r: Rect, s: Shape, pixel: (nat, nat) -> seq<u8>)
    requires DrawnUpTo(now, was, r, s, pixel, r.h, 0)
    ensures forall p :: 0 <= p < s.length && !Inside(r, s, p) ==> now[p] == was[p]
  {
    forall p | 0 <= p < s.length && !Inside(r, s, p) ensures now[p] == was[p] { EndOfRect(r, s, p); }
  }
}
