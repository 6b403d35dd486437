/**
 * `Set<TDim, DevCpu>::set`: filling a 1- to 3-dimensional sub-extent of a
 * pitched CPU buffer with one byte value, and its deferred form on an
 * asynchronous CPU stream.
 *
 * The destination storage is a flat byte array starting at the view's native
 * pointer; byte (x, y, z) of the view lies at z * slice + y * pitch + x, where
 * `pitch` is the row pitch in bytes and `slice = pitch * height`.
 */
module CpuSet {
  import opened Arith
  import opened Extents
  import opened Pitched

  /**
   * A destination view: its extent, its row pitch in bytes
   * (`getPitchBytes<Dim - 1>`), the extent of the buffer it belongs to
   * (`getBuf`) and the element size in bytes.
   */
  datatype DstView = DstView(extent: Vec, pitchBytes: nat, bufExtent: Vec, elemSize: nat)

  function SliceBytes(view: DstView): nat
  {
    view.pitchBytes * Height(view.extent)
  }

  function ExtentWidthBytes(view: DstView, extent: Vec): nat
  {
    Width(extent) * view.elemSize
  }

  /** Byte offset of element byte `x` in row `y` of slice `z`. */
  function Offset(view: DstView, z: nat, y: nat, x: nat): nat
  {
    z * SliceBytes(view) + y * view.pitchBytes + x
  }

  /**
   * What `set` demands of its caller (its own assertions): same rank, extent
   * at most the view on each axis, extent width in bytes at most the pitch;
   * the storage holds every slice of the view; and the view's bytes number
   * fewer than 2^32, so that none of `set`'s `std::uint32_t` lengths and
   * offsets (slice size, its multiples, row offsets) wraps around, and the
   * view's and its buffer's extents are below 2^32, so that the
   * `getWidth<UInt>`-style reads the path choice compares are exact.
   */
  predicate SetPre(view: DstView, extent: Vec, storage: nat)
  {
    && |extent| == |view.extent|
    && Width(extent) <= Width(view.extent)
    && Height(extent) <= Height(view.extent)
    && Depth(extent) <= Depth(view.extent)
    && ExtentWidthBytes(view, extent) <= view.pitchBytes
    && SliceBytes(view) * Depth(view.extent) <= storage
    && SliceBytes(view) * Depth(view.extent) < U32
    && Width(view.extent) < U32 && Height(view.extent) < U32 && Depth(view.extent) < U32
    && Width(view.bufExtent) < U32 && Height(view.bufExtent) < U32
  }

  /** The three strategies of `set`. */
  datatype SetPath =
    | WholeSlices   // one memset over `extentDepth` whole slices, pitch bytes included
    | PerSlice      // one memset of `extentHeight` whole rows per slice
    | PerRow        // one memset of the extent's width in bytes per row

  function ChoosePath(view: DstView, extent: Vec): (p: SetPath)
    ensures p == WholeSlices <==>
      Width(extent) == Width(view.extent) && Height(extent) == Height(view.extent)
      && Width(extent) == Width(view.bufExtent) && Height(extent) == Height(view.bufExtent)
    ensures p == PerSlice <==>
      Width(extent) == Width(view.extent) && Width(extent) == Width(view.bufExtent)
      && !(Height(extent) == Height(view.extent) && Height(extent) == Height(view.bufExtent))
  {
    if Width(extent) == Width(view.extent) && Height(extent) == Height(view.extent)
       && Width(extent) == Width(view.bufExtent) && Height(extent) == Height(view.bufExtent)
    then WholeSlices
    else if Width(extent) == Width(view.extent) && Width(extent) == Width(view.bufExtent)
    then PerSlice
    else PerRow
  }

  // ---------------------------------------------------------------------------
  // memset and repeated memsets on a byte sequence

  /** `std::memset(p + start, b, len)`: bytes `[start, start + len)` become `b`. */
  function Fill(s: seq<bv8>, start: nat, len: nat, b: bv8): (r: seq<bv8>)
    requires start + len <= |s|
    ensures |r| == |s|
    ensures forall i :: 0 <= i < |s| ==> r[i] == if start <= i < start + len then b else s[i]
  {
    s[..start] + seq(len, _ => b) + s[start + len..]
  }

  /** One memset per block, in block order. */
  function FillStrided(s: seq<bv8>, base: nat, stride: nat, count: nat, len: nat, b: bv8): (r: seq<bv8>)
    requires StridedFits(base, stride, count, len, |s|)
    ensures |r| == |s|
    decreases count
  {
    if count == 0 then s
    else
      StridedFitsFewer(base, stride, count, len, |s|);
      Fill(FillStrided(s, base, stride, count - 1, len, b), At(base, stride, count - 1), len, b)
  }

  /** Exactly the bytes inside the blocks are `b`; every other byte keeps its value. */
  lemma {:induction false} FillStridedExact(s: seq<bv8>, base: nat, stride: nat, count: nat, len: nat, b: bv8, i: nat)
    requires StridedFits(base, stride, count, len, |s|) && i < |s|
    ensures FillStrided(s, base, stride, count, len, b)[i] == if InBlocks(base, stride, count, len, i) then b else s[i]
    decreases count
  {
    if count > 0 {
      StridedFitsFewer(base, stride, count, len, |s|);
      FillStridedExact(s, base, stride, count - 1, len, b, i);
    }
  }

  /** Rows `y < height` of slices `z < depth`, `len` bytes each at `z * slice + y * pitch`, fit in `n` bytes. */
  predicate RowsFit(slice: nat, pitch: nat, depth: nat, height: nat, len: nat, n: nat)
  {
    depth == 0 || height == 0 || At(0, slice, depth - 1) + At(0, pitch, height - 1) + len <= n
  }

  lemma RowsFitFewer(slice: nat, pitch: nat, depth: nat, height: nat, len: nat, n: nat)
    requires depth > 0 && RowsFit(slice, pitch, depth, height, len, n)
    ensures RowsFit(slice, pitch, depth - 1, height, len, n)
    ensures StridedFits(At(0, slice, depth - 1), pitch, height, len, n)
  {
    if depth >= 2 { MulLeRight(depth - 2, depth - 1, slice); }
  }

  lemma RowsFitPrefix(slice: nat, pitch: nat, depth: nat, height: nat, len: nat, n: nat, c: nat)
    requires c <= depth && RowsFit(slice, pitch, depth, height, len, n)
    ensures RowsFit(slice, pitch, c, height, len, n)
  {
    if 0 < c { MulLeRight(c - 1, depth - 1, slice); }
  }

  predicate InRows(slice: nat, pitch: nat, depth: nat, height: nat, len: nat, i: nat)
    decreases depth
  {
    depth > 0 &&
    (InRows(slice, pitch, depth - 1, height, len, i) || InBlocks(At(0, slice, depth - 1), pitch, height, len, i))
  }

  /** One memset per row, slice by slice: the body of the per-row strategy. */
  function FillRows(s: seq<bv8>, slice: nat, pitch: nat, depth: nat, height: nat, len: nat, b: bv8): (r: seq<bv8>)
    requires RowsFit(slice, pitch, depth, height, len, |s|)
    ensures |r| == |s|
    decreases depth
  {
    if depth == 0 then s
    else
      RowsFitFewer(slice, pitch, depth, height, len, |s|);
      FillStrided(FillRows(s, slice, pitch, depth - 1, height, len, b), At(0, slice, depth - 1), pitch, height, len, b)
  }

  lemma {:induction false} FillRowsExact(s: seq<bv8>, slice: nat, pitch: nat, depth: nat, height: nat, len: nat, b: bv8, i: nat)
    requires RowsFit(slice, pitch, depth, height, len, |s|) && i < |s|
    ensures FillRows(s, slice, pitch, depth, height, len, b)[i] == if InRows(slice, pitch, depth, height, len, i) then b else s[i]
    decreases depth
  {
    if depth > 0 {
      RowsFitFewer(slice, pitch, depth, height, len, |s|);
      FillRowsExact(s, slice, pitch, depth - 1, height, len, b, i);
      FillStridedExact(FillRows(s, slice, pitch, depth - 1, height, len, b), At(0, slice, depth - 1), pitch, height, len, b, i);
    }
  }

  lemma {:induction false} InRowsAt(slice: nat, pitch: nat, depth: nat, height: nat, len: nat, z: nat, y: nat, x: nat)
    requires z < depth && y < height && x < len
    ensures InRows(slice, pitch, depth, height, len, At(0, slice, z) + At(0, pitch, y) + x)
    decreases depth
  {
    if z < depth - 1 {
      InRowsAt(slice, pitch, depth - 1, height, len, z, y, x);
    } else {
      InBlocksAt(At(0, slice, z), pitch, height, len, y, x);
    }
  }

  lemma {:induction false} InRowsWitness(slice: nat, pitch: nat, depth: nat, height: nat, len: nat, i: nat)
    returns (z: nat, y: nat, x: nat)
    requires InRows(slice, pitch, depth, height, len, i)
    ensures z < depth && y < height && x < len && i == At(0, slice, z) + At(0, pitch, y) + x
    decreases depth
  {
    if InRows(slice, pitch, depth - 1, height, len, i) {
      z, y, x := InRowsWitness(slice, pitch, depth - 1, height, len, i);
    } else {
      z := depth - 1;
      y, x := InBlocksWitness(At(0, slice, z), pitch, height, len, i);
    }
  }

  // ---------------------------------------------------------------------------
  // The synchronous set

  /** The memsets of every strategy stay inside the storage. */
  lemma SetFits(view: DstView, extent: Vec, storage: nat)
    requires SetPre(view, extent, storage)
    ensures SliceBytes(view) * Depth(extent) <= storage
    ensures StridedFits(0, SliceBytes(view), Depth(extent), view.pitchBytes * Height(extent), storage)
    ensures RowsFit(SliceBytes(view), view.pitchBytes, Depth(extent), Height(extent), ExtentWidthBytes(view, extent), storage)
  {
    var slice, pitch := SliceBytes(view), view.pitchBytes;
    var ed, eh := Depth(extent), Height(extent);
    MulLeRight(ed, Depth(view.extent), slice);
    MulLeRight(eh, Height(view.extent), pitch);
    if ed > 0 && eh > 0 {
      MulLeRight(ed - 1 + 1, ed, slice);
      MulLeRight(eh - 1 + 1, eh, pitch);
      assert At(0, slice, ed - 1) + slice == ed * slice;
      assert At(0, pitch, eh - 1) + pitch == eh * pitch;
    }
  }

  /** The whole effect of `set` on the destination bytes. */
  function SetResult(s: seq<bv8>, view: DstView, b: bv8, extent: Vec): (r: seq<bv8>)
    requires SetPre(view, extent, |s|)
    ensures |r| == |s|
  {
    SetFits(view, extent, |s|);
    match ChoosePath(view, extent)
    case WholeSlices => Fill(s, 0, SliceBytes(view) * Depth(extent), b)
    case PerSlice => FillStrided(s, 0, SliceBytes(view), Depth(extent), view.pitchBytes * Height(extent), b)
    case PerRow => FillRows(s, SliceBytes(view), view.pitchBytes, Depth(extent), Height(extent), ExtentWidthBytes(view, extent), b)
  }

  /** Whether `set` writes byte (x, y, z) of the view. */
  predicate Written(view: DstView, extent: Vec, z: nat, y: nat, x: nat)
  {
    z < Depth(extent) && y < Height(extent) && (ChoosePath(view, extent) == PerRow ==> x < ExtentWidthBytes(view, extent))
  }

  /** A byte before the end of row `eh - 1` lies in a row before `eh`. */
  lemma BelowRow(y: nat, x: nat, pitch: nat, eh: nat)
    requires y * pitch + x < pitch * eh
    ensures y < eh
  {
    if eh <= y {
      MulLeRight(eh, y, pitch);
      assert false;
    }
  }

  /** A byte the per-slice strategy writes lies in a row and slice of the extent. */
  lemma SlicesOnly(slice: nat, pitch: nat, ed: nat, eh: nat, z: nat, y: nat, x: nat, i: nat)
    requires eh * pitch <= slice && x < pitch && y * pitch + x < slice
    requires i == z * slice + (y * pitch + x) && InBlocks(0, slice, ed, pitch * eh, i)
    ensures z < ed && y < eh
  {
    var k, u := InBlocksWitness(0, slice, ed, pitch * eh, i);
    BlockUnique(z, y * pitch + x, k, u, slice);
    BelowRow(y, x, pitch, eh);
  }

  /** The per-slice strategy's blocks cover every row of the extent's slices. */
  lemma SlicesIn(slice: nat, pitch: nat, ed: nat, eh: nat, z: nat, y: nat, x: nat)
    requires z < ed && y < eh && x < pitch
    ensures InBlocks(0, slice, ed, pitch * eh, z * slice + (y * pitch + x))
  {
    MulLeRight(y + 1, eh, pitch);
    InBlocksAt(0, slice, ed, pitch * eh, z, y * pitch + x);
  }

  /** A byte of the view lies in the per-slice strategy's blocks exactly when it is within the extent's slices and rows. */
  lemma SlicesExactly(slice: nat, pitch: nat, ed: nat, eh: nat, z: nat, y: nat, x: nat, i: nat)
    requires eh * pitch <= slice && x < pitch && y * pitch + x < slice
    requires i == z * slice + (y * pitch + x)
    ensures InBlocks(0, slice, ed, pitch * eh, i) <==> z < ed && y < eh
  {
    if z < ed && y < eh {
      SlicesIn(slice, pitch, ed, eh, z, y, x);
    } else if InBlocks(0, slice, ed, pitch * eh, i) {
      SlicesOnly(slice, pitch, ed, eh, z, y, x, i);
    }
  }

  /** The per-slice strategy writes exactly rows `y < eh` of slices `z < ed`, pitch bytes included. */
  lemma SlicesExact(s: seq<bv8>, slice: nat, pitch: nat, ed: nat, eh: nat, b: bv8, z: nat, y: nat, x: nat, i: nat)
    requires eh * pitch <= slice && StridedFits(0, slice, ed, pitch * eh, |s|)
    requires x < pitch && y * pitch + x < slice && i == z * slice + (y * pitch + x) && i < |s|
    ensures FillStrided(s, 0, slice, ed, pitch * eh, b)[i] == if z < ed && y < eh then b else s[i]
  {
    FillStridedExact(s, 0, slice, ed, pitch * eh, b, i);
    SlicesExactly(slice, pitch, ed, eh, z, y, x, i);
  }

  /** Two offsets `z * slice + y * pitch + x` with in-row positions name the same slice, row and byte only if they are equal. */
  lemma RowUnique(slice: nat, pitch: nat, eh: nat, z: nat, y: nat, x: nat, z': nat, y': nat, x': nat)
    requires x < pitch && y * pitch + x < slice
    requires x' < pitch && y' < eh && eh * pitch <= slice
    requires z * slice + (y * pitch + x) == z' * slice + (y' * pitch + x')
    ensures z == z' && y == y' && x == x'
  {
    MulLeRight(y' + 1, eh, pitch);
    BlockUnique(z, y * pitch + x, z', y' * pitch + x', slice);
    BlockUnique(y, x, y', x', pitch);
  }

  /** A byte the per-row strategy writes lies in a row and slice of the extent, within its width. */
  lemma RowsOnly(slice: nat, pitch: nat, ed: nat, eh: nat, ewb: nat, z: nat, y: nat, x: nat, i: nat)
    requires eh * pitch <= slice && ewb <= pitch && x < pitch && y * pitch + x < slice
    requires i == z * slice + (y * pitch + x) && InRows(slice, pitch, ed, eh, ewb, i)
    ensures z < ed && y < eh && x < ewb
  {
    var z', y', x' := InRowsWitness(slice, pitch, ed, eh, ewb, i);
    RowUnique(slice, pitch, eh, z, y, x, z', y', x');
  }

  /** A byte of the view lies in the per-row strategy's rows exactly when it is within the extent's slices, rows and width. */
  lemma RowsExactly(slice: nat, pitch: nat, ed: nat, eh: nat, ewb: nat, z: nat, y: nat, x: nat, i: nat)
    requires eh * pitch <= slice && ewb <= pitch && x < pitch && y * pitch + x < slice
    requires i == z * slice + (y * pitch + x)
    ensures InRows(slice, pitch, ed, eh, ewb, i) <==> z < ed && y < eh && x < ewb
  {
    if z < ed && y < eh && x < ewb {
      InRowsAt(slice, pitch, ed, eh, ewb, z, y, x);
    } else if InRows(slice, pitch, ed, eh, ewb, i) {
      RowsOnly(slice, pitch, ed, eh, ewb, z, y, x, i);
    }
  }

  /** The per-row strategy writes exactly the first `ewb` bytes of rows `y < eh` of slices `z < ed`. */
  lemma RowsExact(s: seq<bv8>, slice: nat, pitch: nat, ed: nat, eh: nat, ewb: nat, b: bv8, z: nat, y: nat, x: nat, i: nat)
    requires eh * pitch <= slice && ewb <= pitch && RowsFit(slice, pitch, ed, eh, ewb, |s|)
    requires x < pitch && y * pitch + x < slice && i == z * slice + (y * pitch + x) && i < |s|
    ensures FillRows(s, slice, pitch, ed, eh, ewb, b)[i] == if z < ed && y < eh && x < ewb then b else s[i]
  {
    FillRowsExact(s, slice, pitch, ed, eh, ewb, b, i);
    RowsExactly(slice, pitch, ed, eh, ewb, z, y, x, i);
  }

  /** The single memset writes exactly the slices `z < ed`, pitch bytes included. */
  lemma WholeExact(s: seq<bv8>, slice: nat, ed: nat, b: bv8, z: nat, u: nat, i: nat)
    requires slice * ed <= |s| && u < slice && i == z * slice + u && i < |s|
    ensures Fill(s, 0, slice * ed, b)[i] == if z < ed then b else s[i]
  {
    if z < ed {
      MulLeRight(z + 1, ed, slice);
    } else {
      MulLeRight(ed, z, slice);
    }
  }

  /** Where byte (x, y, z) of the view lies: inside its slice, and inside the storage. */
  lemma OffsetInStorage(view: DstView, extent: Vec, storage: nat, z: nat, y: nat, x: nat)
    requires SetPre(view, extent, storage)
    requires z < Depth(view.extent) && y < Height(view.extent) && x < view.pitchBytes
    ensures y * view.pitchBytes + x < SliceBytes(view)
    ensures Offset(view, z, y, x) == z * SliceBytes(view) + (y * view.pitchBytes + x)
    ensures Offset(view, z, y, x) < storage
  {
    RowInSlice(y, x, view.pitchBytes, Height(view.extent));
    MulLeRight(z + 1, Depth(view.extent), SliceBytes(view));
  }

  /**
   * Under `SetPre`, every `std::uint32_t` length and offset `set` computes for
   * a row y of a slice z of the extent equals its unbounded value: the whole
   * memset length, the per-slice length, the slice and row offsets, and the
   * extents of the set, of the view and of its buffer that `set` reads as
   * `UInt`; the width in bytes (a `std::size_t`) stays below 2^32 too.
   */
  lemma SetLengthsFit(view: DstView, extent: Vec, storage: nat, z: nat, y: nat)
    requires SetPre(view, extent, storage)
    requires z < Depth(extent) && y < Height(extent)
    ensures Trunc32(SliceBytes(view) * Depth(extent)) == SliceBytes(view) * Depth(extent)
    ensures Trunc32(view.pitchBytes * Height(extent)) == view.pitchBytes * Height(extent)
    ensures Trunc32(z * SliceBytes(view)) == z * SliceBytes(view)
    ensures Trunc32(y * view.pitchBytes) == y * view.pitchBytes
    ensures Trunc32(ExtentWidthBytes(view, extent)) == ExtentWidthBytes(view, extent)
    ensures && Trunc32(Width(extent)) == Width(extent) && Trunc32(Height(extent)) == Height(extent)
            && Trunc32(Depth(extent)) == Depth(extent)
    ensures && Trunc32(Width(view.extent)) == Width(view.extent) && Trunc32(Height(view.extent)) == Height(view.extent)
            && Trunc32(Depth(view.extent)) == Depth(view.extent)
    ensures Trunc32(Width(view.bufExtent)) == Width(view.bufExtent) && Trunc32(Height(view.bufExtent)) == Height(view.bufExtent)
  {
    var slice := SliceBytes(view);
    var dv := Depth(view.extent);
    var hv := Height(view.extent);
    var p := view.pitchBytes;
    assert slice * dv < U32;
    MulMonoBound(Depth(extent), dv, slice, U32);
    MulMonoBound(z, dv, slice, U32);
    MulMonoBound(1, dv, slice, U32);
    assert p * hv == slice;
    MulMonoBound(Height(extent), hv, p, U32);
    MulMonoBound(y, hv, p, U32);
    MulMonoBound(1, hv, p, U32);
  }

  lemma SetExactWhole(s: seq<bv8>, view: DstView, b: bv8, extent: Vec, z: nat, y: nat, x: nat)
    requires SetPre(view, extent, |s|) && ChoosePath(view, extent) == WholeSlices
    requires z < Depth(view.extent) && y < Height(view.extent) && x < view.pitchBytes
    ensures Offset(view, z, y, x) < |s|
    ensures SetResult(s, view, b, extent)[Offset(view, z, y, x)] ==
            if Written(view, extent, z, y, x) then b else s[Offset(view, z, y, x)]
  {
    OffsetInStorage(view, extent, |s|, z, y, x);
    SetFits(view, extent, |s|);
    // the extent has the view's height: every row of the view is written
    assert Height(extent) == Height(view.extent);
    WholeExact(s, SliceBytes(view), Depth(extent), b, z, y * view.pitchBytes + x, Offset(view, z, y, x));
  }

  lemma SetExactSlices(s: seq<bv8>, view: DstView, b: bv8, extent: Vec, z: nat, y: nat, x: nat)
    requires SetPre(view, extent, |s|) && ChoosePath(view, extent) == PerSlice
    requires z < Depth(view.extent) && y < Height(view.extent) && x < view.pitchBytes
    ensures Offset(view, z, y, x) < |s|
    ensures SetResult(s, view, b, extent)[Offset(view, z, y, x)] ==
            if Written(view, extent, z, y, x) then b else s[Offset(view, z, y, x)]
  {
    OffsetInStorage(view, extent, |s|, z, y, x);
    SetFits(view, extent, |s|);
    MulLeRight(Height(extent), Height(view.extent), view.pitchBytes);
    SlicesExact(s, SliceBytes(view), view.pitchBytes, Depth(extent), Height(extent), b, z, y, x, Offset(view, z, y, x));
  }

  lemma SetExactRows(s: seq<bv8>, view: DstView, b: bv8, extent: Vec, z: nat, y: nat, x: nat)
    requires SetPre(view, extent, |s|) && ChoosePath(view, extent) == PerRow
    requires z < Depth(view.extent) && y < Height(view.extent) && x < view.pitchBytes
    ensures Offset(view, z, y, x) < |s|
    ensures SetResult(s, view, b, extent)[Offset(view, z, y, x)] ==
            if Written(view, extent, z, y, x) then b else s[Offset(view, z, y, x)]
  {
    OffsetInStorage(view, extent, |s|, z, y, x);
    SetFits(view, extent, |s|);
    MulLeRight(Height(extent), Height(view.extent), view.pitchBytes);
    RowsExact(s, SliceBytes(view), view.pitchBytes, Depth(extent), Height(extent), ExtentWidthBytes(view, extent),
              b, z, y, x, Offset(view, z, y, x));
  }

  /**
   * Byte by byte over the whole view: the bytes of the extent's slices and
   * rows become `b`, the pitch bytes of those rows too unless the per-row
   * strategy is taken, and every other byte keeps its value.
   */
  lemma SetExact(s: seq<bv8>, view: DstView, b: bv8, extent: Vec, z: nat, y: nat, x: nat)
    requires SetPre(view, extent, |s|)
    requires z < Depth(view.extent) && y < Height(view.extent) && x < view.pitchBytes
    ensures Offset(view, z, y, x) < |s|
    ensures SetResult(s, view, b, extent)[Offset(view, z, y, x)] ==
            if Written(view, extent, z, y, x) then b else s[Offset(view, z, y, x)]
  {
    match ChoosePath(view, extent)
    case WholeSlices => SetExactWhole(s, view, b, extent, z, y, x);
    case PerSlice => SetExactSlices(s, view, b, extent, z, y, x);
    case PerRow => SetExactRows(s, view, b, extent, z, y, x);
  }

  /** Whichever strategy is taken, every byte of the extent becomes `b`. */
  lemma SetFillsExtent(s: seq<bv8>, view: DstView, b: bv8, extent: Vec, z: nat, y: nat, x: nat)
    requires SetPre(view, extent, |s|)
    requires z < Depth(extent) && y < Height(extent) && x < ExtentWidthBytes(view, extent)
    ensures Offset(view, z, y, x) < |s|
    ensures SetResult(s, view, b, extent)[Offset(view, z, y, x)] == b
  {
    SetExact(s, view, b, extent, z, y, x);
  }

  /** No strategy writes at or beyond `slice * extentDepth`. */
  lemma SetStaysInExtentSlices(s: seq<bv8>, view: DstView, b: bv8, extent: Vec, i: nat)
    requires SetPre(view, extent, |s|)
    requires SliceBytes(view) * Depth(extent) <= i < |s|
    ensures SetResult(s, view, b, extent)[i] == s[i]
  {
    SetFits(view, extent, |s|);
    match ChoosePath(view, extent)
    case WholeSlices =>
    case PerSlice =>
      MulLeRight(Height(extent), Height(view.extent), view.pitchBytes);
      SlicesBelow(s, SliceBytes(view), view.pitchBytes, Depth(extent), Height(extent), b, i);
    case PerRow =>
      MulLeRight(Height(extent), Height(view.extent), view.pitchBytes);
      RowsBelow(s, SliceBytes(view), view.pitchBytes, Depth(extent), Height(extent), ExtentWidthBytes(view, extent), b, i);
  }

  /** The per-slice strategy leaves every byte from `slice * ed` on alone. */
  lemma SlicesBelow(s: seq<bv8>, slice: nat, pitch: nat, ed: nat, eh: nat, b: bv8, i: nat)
    requires eh * pitch <= slice && StridedFits(0, slice, ed, pitch * eh, |s|)
    requires slice * ed <= i < |s|
    ensures FillStrided(s, 0, slice, ed, pitch * eh, b)[i] == s[i]
  {
    FillStridedExact(s, 0, slice, ed, pitch * eh, b, i);
    if InBlocks(0, slice, ed, pitch * eh, i) {
      var k, u := InBlocksWitness(0, slice, ed, pitch * eh, i);
      StepAfter(k, ed, slice);
      assert false;
    }
  }

  /** The per-row strategy leaves every byte from `slice * ed` on alone. */
  lemma RowsBelow(s: seq<bv8>, slice: nat, pitch: nat, ed: nat, eh: nat, ewb: nat, b: bv8, i: nat)
    requires eh * pitch <= slice && ewb <= pitch && RowsFit(slice, pitch, ed, eh, ewb, |s|)
    requires slice * ed <= i < |s|
    ensures FillRows(s, slice, pitch, ed, eh, ewb, b)[i] == s[i]
  {
    FillRowsExact(s, slice, pitch, ed, eh, ewb, b, i);
    if InRows(slice, pitch, ed, eh, ewb, i) {
      InRowsBelow(slice, pitch, ed, eh, ewb, i);
      assert false;
    }
  }

  /** The per-row strategy's rows all lie before `slice * ed`. */
  lemma InRowsBelow(slice: nat, pitch: nat, ed: nat, eh: nat, ewb: nat, i: nat)
    requires eh * pitch <= slice && ewb <= pitch && InRows(slice, pitch, ed, eh, ewb, i)
    ensures i < slice * ed
  {
    var z', y', x' := InRowsWitness(slice, pitch, ed, eh, ewb, i);
    assert y' * pitch + x' < slice by { MulLeRight(y' + 1, eh, pitch); }
    StepAfter(z', ed, slice);
  }

  /** `std::memset` on the destination storage. */
  method Memset(mem: array<bv8>, start: nat, len: nat, b: bv8)
    requires start + len <= mem.Length
    modifies mem
    ensures mem[..] == Fill(old(mem[..]), start, len, b)
  {
    for i := start to start + len
      invariant mem[..] == Fill(old(mem[..]), start, i - start, b)
    {
      mem[i] := b;
    }
  }

  /** The row loop of the per-row strategy for slice `z`. */
  method SetRowsOfSlice(mem: array<bv8>, sliceStart: nat, pitch: nat, eh: nat, ewb: nat, b: bv8)
    requires StridedFits(sliceStart, pitch, eh, ewb, mem.Length)
    modifies mem
    ensures mem[..] == FillStrided(old(mem[..]), sliceStart, pitch, eh, ewb, b)
  {
    for y := 0 to eh
      invariant mem[..] == FillStrided(old(mem[..]), sliceStart, pitch, y, ewb, b)
    {
      MulLeRight(y + 1, eh, pitch);
      Memset(mem, At(sliceStart, pitch, y), ewb, b);
    }
  }

  /**
   * The slice loop of `set`: whole rows per slice when `widthMatches` (the
   * view's and the buffer's width equal the extent's), else row by row.
   */
  method SetSlices(mem: array<bv8>, slice: nat, pitch: nat, ed: nat, eh: nat, ewb: nat, widthMatches: bool, b: bv8)
    requires StridedFits(0, slice, ed, pitch * eh, mem.Length)
    requires RowsFit(slice, pitch, ed, eh, ewb, mem.Length)
    modifies mem
    ensures widthMatches ==> mem[..] == FillStrided(old(mem[..]), 0, slice, ed, pitch * eh, b)
    ensures !widthMatches ==> mem[..] == FillRows(old(mem[..]), slice, pitch, ed, eh, ewb, b)
  {
    ghost var s0 := mem[..];
    forall c | 0 <= c <= ed
      ensures StridedFits(0, slice, c, pitch * eh, mem.Length)
      ensures RowsFit(slice, pitch, c, eh, ewb, mem.Length)
    {
      StridedFitsPrefix(0, slice, ed, pitch * eh, mem.Length, c);
      RowsFitPrefix(slice, pitch, ed, eh, ewb, mem.Length, c);
    }
    for z := 0 to ed
      invariant widthMatches ==> mem[..] == FillStrided(s0, 0, slice, z, pitch * eh, b)
      invariant !widthMatches ==> mem[..] == FillRows(s0, slice, pitch, z, eh, ewb, b)
    {
      if widthMatches {
        StridedFitsPrefix(0, slice, ed, pitch * eh, mem.Length, z + 1);
        Memset(mem, At(0, slice, z), pitch * eh, b);
      } else {
        RowsFitPrefix(slice, pitch, ed, eh, ewb, mem.Length, z + 1);
        RowsFitFewer(slice, pitch, z + 1, eh, ewb, mem.Length);
        SetRowsOfSlice(mem, At(0, slice, z), pitch, eh, ewb, b);
      }
    }
  }

  /** `Set<TDim, DevCpu>::set(buf, byte, extents)`. */
  method Set(mem: array<bv8>, view: DstView, b: bv8, extent: Vec)
    requires SetPre(view, extent, mem.Length)
    modifies mem
    ensures mem[..] == SetResult(old(mem[..]), view, b, extent)
  {
    var ew, eh, ed := Width(extent), Height(extent), Depth(extent);
    var dw, dh := Width(view.extent), Height(view.extent);
    var bw, bh := Width(view.bufExtent), Height(view.bufExtent);
    SetFits(view, extent, mem.Length);
    if ew == dw && eh == dh && ew == bw && eh == bh {
      Memset(mem, 0, SliceBytes(view) * ed, b);
    } else {
      SetSlices(mem, SliceBytes(view), view.pitchBytes, ed, eh, ExtentWidthBytes(view, extent), ew == dw && ew == bw, b);
    }
  }

  // ---------------------------------------------------------------------------
  // The asynchronous overload: the set becomes a task of the stream's worker thread

  datatype Option<T> = None | Some(value: T)

  /** How a deferred task refers to the byte: a copy of its value, or the address of the caller's variable. */
  datatype ByteArg = ByValue(value: bv8) | ByReference(address: nat)

  /** A `set` deferred to the worker thread of a `StreamCpuAsync`. */
  datatype SetTask = SetTask(view: DstView, byte: ByteArg, extent: Vec)

  /** The caller's variables when a task runs: address to current value; a missing address is destroyed. */
  type Frame = map<nat, bv8>

  /**
   * The worker thread running a task: the synchronous `set` with the byte the
   * task refers to, or `None` when it refers to a destroyed variable.
   */
  function RunSetTask(s: seq<bv8>, task: SetTask, frame: Frame): (r: Option<seq<bv8>>)
    requires SetPre(task.view, task.extent, |s|)
    ensures r.None? <==> task.byte.ByReference? && task.byte.address !in frame
    ensures r.Some? ==> |r.value| == |s|
  {
    match task.byte
    case ByValue(v) => Some(SetResult(s, task.view, v, task.extent))
    case ByReference(a) => if a in frame then Some(SetResult(s, task.view, frame[a], task.extent)) else None
  }

  /** The asynchronous overload as written: the set task captures the byte's address (`&byte`). */
  function EnqueueSetAsWritten(queue: seq<SetTask>, view: DstView, byteAddress: nat, extent: Vec): (q: seq<SetTask>)
    ensures |q| == |queue| + 1 && q[..|queue|] == queue
  {
    queue + [SetTask(view, ByReference(byteAddress), extent)]
  }

  /** The asynchronous overload with the byte captured by value, like the extents. */
  function EnqueueSet(queue: seq<SetTask>, view: DstView, b: bv8, extent: Vec): (q: seq<SetTask>)
    ensures |q| == |queue| + 1 && q[..|queue|] == queue
  {
    queue + [SetTask(view, ByValue(b), extent)]
  }

  /**
   * The enqueued task does exactly the synchronous `set` with the same view,
   * byte and extent, whatever the caller's variables hold when it runs.
   */
  lemma EnqueueSetDefersSet(queue: seq<SetTask>, view: DstView, b: bv8, extent: Vec, s: seq<bv8>, frame: Frame)
    requires SetPre(view, extent, |s|)
    ensures var q := EnqueueSet(queue, view, b, extent);
            q[|queue|].view == view && q[|queue|].extent == extent &&
            RunSetTask(s, q[|queue|], frame) == Some(SetResult(s, view, b, extent))
  {
  }

  /**
   * As written, the set task reads the caller's byte variable when it runs: a
   * caller that passed 7 and then reused the variable for 9 gets 9 written,
   * and a caller whose variable is gone (a temporary) gets an invalid read.
   */
  lemma EnqueueSetAsWrittenReadsLateByte()
    ensures var view := DstView([1], 1, [1], 1);
            var q := EnqueueSetAsWritten([], view, 0, [1]);
            SetPre(view, [1], 1) &&
            SetResult([0], view, 7, [1]) == [7] &&
            RunSetTask([0], q[0], map[0 := 9]) == Some([9]) &&
            RunSetTask([0], q[0], map[]) == None
  {
    var view := DstView([1], 1, [1], 1);
    assert ChoosePath(view, [1]) == WholeSlices;
    assert SetResult([0], view, 7, [1]) == Fill([0], 0, 1, 7);
    assert Fill([0], 0, 1, 7) == [7];
    assert SetResult([0], view, 9, [1]) == Fill([0], 0, 1, 9);
    assert Fill([0], 0, 1, 9) == [9];
  }
}
