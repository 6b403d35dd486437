/**
 * HIP memory copies: the `TaskCopyHip` descriptor of a 1- to 3-dimensional
 * copy, the three `createTaskCopy` specialisations (device to host, host to
 * device, device to device), and the enqueue of 1D and 2D copies into
 * synchronous and asynchronous HIP queues.
 *
 * Memory is modelled per device as a flat byte sequence; a native pointer is
 * an offset into the memory of its view's device. The HIP runtime calls are
 * values of `CopyCall`; `CallEffect` gives each copy call its meaning on the
 * destination memory.
 */
module HipCopy {
  import opened Arith
  import opened Extents
  import opened Pitched

  datatype Device = DevCpu | DevHipRt(id: int)

  /**
   * A view: its device, extent, pitch vector, element size and native
   * pointer. `pitchBytes[a]` is `getPitchBytes<a>`: index `dim` is the element
   * size, `dim - 1` the row pitch and `dim - 2` the slice pitch.
   */
  datatype View = View(dev: Device, extent: Vec, pitchBytes: seq<nat>, elemSize: nat, ptr: nat)

  predicate WellFormedView(v: View)
  {
    |v.pitchBytes| == |v.extent| + 1
  }

  /** `getPitchBytes<Dim - 1>`: the row pitch. */
  function RowPitch(v: View): nat
    requires WellFormedView(v) && |v.extent| >= 1
  {
    v.pitchBytes[|v.extent| - 1]
  }

  /** `getPitchBytes<Dim - (2 % Dim)>`: the slice pitch of a 3D view, the element size of a 2D view. */
  function PitchBytesY(v: View): nat
    requires WellFormedView(v) && |v.extent| >= 1
  {
    v.pitchBytes[|v.extent| - 2 % |v.extent|]
  }

  datatype MemcpyKind = HipMemcpyHostToDevice | HipMemcpyDeviceToHost | HipMemcpyDeviceToDevice

  /**
   * What the `TaskCopyHip` constructors demand: views and extent of one rank
   * (1 to 3) and one element type; in debug builds, the extent at most both
   * views on every axis and, from 2D on, the width in bytes at most both row
   * pitches.
   */
  predicate CopyPre(dst: View, src: View, extent: Vec)
  {
    && 1 <= |extent| <= 3
    && |dst.extent| == |extent| && |src.extent| == |extent|
    && WellFormedView(dst) && WellFormedView(src)
    && dst.elemSize == src.elemSize
    && Width(extent) <= Width(dst.extent) && Width(extent) <= Width(src.extent)
    && (|extent| >= 2 ==>
          && Height(extent) <= Height(dst.extent) && Height(extent) <= Height(src.extent)
          && Width(extent) * dst.elemSize <= RowPitch(dst)
          && Width(extent) * dst.elemSize <= RowPitch(src))
    && (|extent| == 3 ==> Depth(extent) <= Depth(dst.extent) && Depth(extent) <= Depth(src.extent))
  }

  /** The release-build fields of `TaskCopyHip<DimInt<1>>`, `<DimInt<2>>` and `<DimInt<3>>`. */
  datatype TaskCopyHip =
    | TaskCopy1D(kind: MemcpyKind, dstDevice: int, srcDevice: int, extentWidthBytes: nat,
                 dstMem: nat, srcMem: nat)
    | TaskCopy2D(kind: MemcpyKind, dstDevice: int, srcDevice: int, extentWidthBytes: nat,
                 dstWidth: nat, srcWidth: nat, extentHeight: nat, dstHeight: nat, srcHeight: nat,
                 dstPitchBytesX: nat, srcPitchBytesX: nat, dstPitchBytesY: nat, srcPitchBytesY: nat,
                 dstMem: nat, srcMem: nat)
    | TaskCopy3D(kind: MemcpyKind, dstDevice: int, srcDevice: int, extentWidth: nat, extentWidthBytes: nat,
                 dstWidth: nat, srcWidth: nat, extentHeight: nat, dstHeight: nat, srcHeight: nat,
                 extentDepth: nat,
                 dstPitchBytesX: nat, srcPitchBytesX: nat, dstPitchBytesY: nat, srcPitchBytesY: nat,
                 dstMem: nat, srcMem: nat)

  /** The `TaskCopyHip` constructor of the extent's rank. */
  function MakeTaskCopy(dst: View, src: View, extent: Vec, kind: MemcpyKind, dstDevice: int, srcDevice: int)
    : (t: TaskCopyHip)
    requires CopyPre(dst, src, extent)
    ensures t.kind == kind && t.dstDevice == dstDevice && t.srcDevice == srcDevice
    ensures t.dstMem == dst.ptr && t.srcMem == src.ptr
    ensures t.extentWidthBytes == Width(extent) * dst.elemSize
    ensures t.TaskCopy1D? <==> |extent| == 1
    ensures t.TaskCopy2D? <==> |extent| == 2
    ensures !t.TaskCopy1D? ==>
              && t.extentHeight == Height(extent)
              && t.extentHeight <= t.dstHeight && t.extentHeight <= t.srcHeight
              && t.dstPitchBytesX == RowPitch(dst) && t.srcPitchBytesX == RowPitch(src)
              && t.extentWidthBytes <= t.dstPitchBytesX && t.extentWidthBytes <= t.srcPitchBytesX
    ensures t.TaskCopy3D? ==>
              && t.extentWidth == Width(extent) && t.extentDepth == Depth(extent)
              && t.dstPitchBytesY == dst.pitchBytes[1] && t.srcPitchBytesY == src.pitchBytes[1]
  {
    var ewb := Width(extent) * dst.elemSize;
    if |extent| == 1 then
      TaskCopy1D(kind, dstDevice, srcDevice, ewb, dst.ptr, src.ptr)
    else if |extent| == 2 then
      TaskCopy2D(kind, dstDevice, srcDevice, ewb,
                 Width(dst.extent), Width(src.extent), Height(extent), Height(dst.extent), Height(src.extent),
                 RowPitch(dst), RowPitch(src), PitchBytesY(dst), PitchBytesY(src), dst.ptr, src.ptr)
    else
      TaskCopy3D(kind, dstDevice, srcDevice, Width(extent), ewb,
                 Width(dst.extent), Width(src.extent), Height(extent), Height(dst.extent), Height(src.extent),
                 Depth(extent),
                 RowPitch(dst), RowPitch(src), PitchBytesY(dst), PitchBytesY(src), dst.ptr, src.ptr)
  }

  /** `CreateTaskCopy<TDim, DevCpu, DevHipRt>`: HIP device to host, run on the source device. */
  function CreateTaskCopyDevToHost(dst: View, src: View, extent: Vec): (t: TaskCopyHip)
    requires CopyPre(dst, src, extent) && dst.dev == DevCpu && src.dev.DevHipRt?
    ensures t.kind == HipMemcpyDeviceToHost
    ensures t.dstDevice == src.dev.id && t.srcDevice == src.dev.id
    ensures t == MakeTaskCopy(dst, src, extent, t.kind, t.dstDevice, t.srcDevice)
  {
    MakeTaskCopy(dst, src, extent, HipMemcpyDeviceToHost, src.dev.id, src.dev.id)
  }

  /** `CreateTaskCopy<TDim, DevHipRt, DevCpu>`: host to HIP device, run on the destination device. */
  function CreateTaskCopyHostToDev(dst: View, src: View, extent: Vec): (t: TaskCopyHip)
    requires CopyPre(dst, src, extent) && dst.dev.DevHipRt? && src.dev == DevCpu
    ensures t.kind == HipMemcpyHostToDevice
    ensures t.dstDevice == dst.dev.id && t.srcDevice == dst.dev.id
    ensures t == MakeTaskCopy(dst, src, extent, t.kind, t.dstDevice, t.srcDevice)
  {
    MakeTaskCopy(dst, src, extent, HipMemcpyHostToDevice, dst.dev.id, dst.dev.id)
  }

  /** `CreateTaskCopy<TDim, DevHipRt, DevHipRt>`: between HIP devices, each id from its view. */
  function CreateTaskCopyDevToDev(dst: View, src: View, extent: Vec): (t: TaskCopyHip)
    requires CopyPre(dst, src, extent) && dst.dev.DevHipRt? && src.dev.DevHipRt?
    ensures t.kind == HipMemcpyDeviceToDevice
    ensures t.dstDevice == dst.dev.id && t.srcDevice == src.dev.id
    ensures t == MakeTaskCopy(dst, src, extent, t.kind, t.dstDevice, t.srcDevice)
  {
    MakeTaskCopy(dst, src, extent, HipMemcpyDeviceToDevice, dst.dev.id, src.dev.id)
  }

  // ---------------------------------------------------------------------------
  // Enqueue: the HIP runtime calls of a copy

  datatype Option<T> = None | Some(value: T)

  /** A synchronous queue, or an asynchronous one with its HIP stream. */
  datatype Queue = QueueHipRtSync | QueueHipRtAsync(stream: nat)

  function StreamOf(q: Queue): Option<nat>
  {
    if q.QueueHipRtAsync? then Some(q.stream) else None
  }

  /** HIP runtime calls; `stream` is `Some` for the `...Async` variant of a copy. */
  datatype CopyCall =
    | SetDevice(device: int)
    | Memcpy(dst: nat, src: nat, bytes: nat, kind: MemcpyKind, stream: Option<nat>)
    | MemcpyPeer(dst: nat, dstDevice: int, src: nat, srcDevice: int, bytes: nat, stream: Option<nat>)
    | Memcpy2D(dst: nat, dpitch: nat, src: nat, spitch: nat, width: nat, height: nat, kind: MemcpyKind,
               stream: Option<nat>)

  /** 1D and 2D tasks can be enqueued; there is no enqueue of a 3D copy. */
  predicate Enqueueable(t: TaskCopyHip)
  {
    t.TaskCopy1D? || t.TaskCopy2D?
  }

  /** The 1D enqueue: a copy on the shared device, or a peer copy between two devices. */
  function Enqueue1DCalls(q: Queue, t: TaskCopyHip): (calls: seq<CopyCall>)
    requires t.TaskCopy1D?
    ensures t.dstDevice == t.srcDevice ==>
              calls == [SetDevice(t.dstDevice), Memcpy(t.dstMem, t.srcMem, t.extentWidthBytes, t.kind, StreamOf(q))]
    ensures t.dstDevice != t.srcDevice ==>
              calls == [MemcpyPeer(t.dstMem, t.dstDevice, t.srcMem, t.srcDevice, t.extentWidthBytes, StreamOf(q))]
  {
    if t.dstDevice == t.srcDevice then
      [SetDevice(t.dstDevice), Memcpy(t.dstMem, t.srcMem, t.extentWidthBytes, t.kind, StreamOf(q))]
    else
      [MemcpyPeer(t.dstMem, t.dstDevice, t.srcMem, t.srcDevice, t.extentWidthBytes, StreamOf(q))]
  }

  /** The pitched copy of a 2D task on its (shared) device. */
  function SameDevice2DCalls(q: Queue, t: TaskCopyHip): seq<CopyCall>
    requires t.TaskCopy2D?
  {
    [SetDevice(t.dstDevice),
     Memcpy2D(t.dstMem, t.dstPitchBytesX, t.srcMem, t.srcPitchBytesX, t.extentWidthBytes, t.extentHeight,
              t.kind, StreamOf(q))]
  }

  /** The 1D and 2D enqueue as written: a 2D copy between different devices issues nothing. */
  function EnqueueCallsAsWritten(q: Queue, t: TaskCopyHip): seq<CopyCall>
    requires Enqueueable(t)
  {
    if t.TaskCopy1D? then Enqueue1DCalls(q, t)
    else if t.dstDevice == t.srcDevice then SameDevice2DCalls(q, t)
    else []
  }

  /**
   * One peer copy per row: row `y` of `width` bytes from `At(sOff, sPitch, y)`
   * on device `sDev` to `At(dOff, dPitch, y)` on device `dDev`, rows `0 .. rows - 1`.
   */
  function PeerRowCalls(dOff: nat, dPitch: nat, dDev: int, sOff: nat, sPitch: nat, sDev: int, width: nat,
                        stream: Option<nat>, rows: nat): (calls: seq<CopyCall>)
    ensures |calls| == rows
    decreases rows
  {
    if rows == 0 then []
    else
      PeerRowCalls(dOff, dPitch, dDev, sOff, sPitch, sDev, width, stream, rows - 1)
      + [MemcpyPeer(At(dOff, dPitch, rows - 1), dDev, At(sOff, sPitch, rows - 1), sDev, width, stream)]
  }

  /** Call `j` of the peer copies is the peer copy of row `j`. */
  lemma {:induction false} PeerRowCallsAt(dOff: nat, dPitch: nat, dDev: int, sOff: nat, sPitch: nat, sDev: int, width: nat,
                                          stream: Option<nat>, rows: nat, j: nat)
    requires j < rows
    ensures PeerRowCalls(dOff, dPitch, dDev, sOff, sPitch, sDev, width, stream, rows)[j]
         == MemcpyPeer(At(dOff, dPitch, j), dDev, At(sOff, sPitch, j), sDev, width, stream)
    decreases rows
  {
    if j < rows - 1 {
      PeerRowCallsAt(dOff, dPitch, dDev, sOff, sPitch, sDev, width, stream, rows - 1, j);
    }
  }

  /** The enqueue with the 2D peer case filled in: one peer copy per row. */
  function EnqueueCalls(q: Queue, t: TaskCopyHip): seq<CopyCall>
    requires Enqueueable(t)
  {
    if t.TaskCopy2D? && t.dstDevice != t.srcDevice then
      PeerRowCalls(t.dstMem, t.dstPitchBytesX, t.dstDevice, t.srcMem, t.srcPitchBytesX, t.srcDevice,
                   t.extentWidthBytes, StreamOf(q), t.extentHeight)
    else EnqueueCallsAsWritten(q, t)
  }

  // ---------------------------------------------------------------------------
  // What the copy calls do to the destination memory

  /** `part` written over `d` from offset `at`. */
  function Splice(d: seq<bv8>, at: nat, part: seq<bv8>): (r: seq<bv8>)
    requires at + |part| <= |d|
    ensures |r| == |d|
  {
    d[..at] + part + d[at + |part|..]
  }

  lemma SpliceAt(d: seq<bv8>, at: nat, part: seq<bv8>, i: nat)
    requires at + |part| <= |d| && i < |d|
    ensures Splice(d, at, part)[i] == if at <= i < at + |part| then part[i - at] else d[i]
  {
  }

  /** `height` rows of `width` bytes, `sPitch` apart in `s`, written `dPitch` apart over `d`. */
  function CopyRows(d: seq<bv8>, dOff: nat, dPitch: nat, s: seq<bv8>, sOff: nat, sPitch: nat, width: nat, height: nat)
    : (r: seq<bv8>)
    requires StridedFits(dOff, dPitch, height, width, |d|) && StridedFits(sOff, sPitch, height, width, |s|)
    ensures |r| == |d|
    decreases height
  {
    if height == 0 then d
    else
      StridedFitsFewer(dOff, dPitch, height, width, |d|);
      StridedFitsFewer(sOff, sPitch, height, width, |s|);
      var row := At(sOff, sPitch, height - 1);
      Splice(CopyRows(d, dOff, dPitch, s, sOff, sPitch, width, height - 1), At(dOff, dPitch, height - 1), s[row..row + width])
  }

  /** One more row: the copy of `height + 1` rows is the copy of `height` rows, then row `height`. */
  lemma CopyRowsStep(d: seq<bv8>, dOff: nat, dPitch: nat, s: seq<bv8>, sOff: nat, sPitch: nat, width: nat, height: nat)
    requires StridedFits(dOff, dPitch, height + 1, width, |d|) && StridedFits(sOff, sPitch, height + 1, width, |s|)
    ensures StridedFits(dOff, dPitch, height, width, |d|) && StridedFits(sOff, sPitch, height, width, |s|)
    ensures At(sOff, sPitch, height) + width <= |s|
    ensures CopyRows(d, dOff, dPitch, s, sOff, sPitch, width, height + 1)
         == Splice(CopyRows(d, dOff, dPitch, s, sOff, sPitch, width, height), At(dOff, dPitch, height),
                   s[At(sOff, sPitch, height)..At(sOff, sPitch, height) + width])
  {
    StridedFitsFewer(dOff, dPitch, height + 1, width, |d|);
    StridedFitsFewer(sOff, sPitch, height + 1, width, |s|);
  }

  /** Row `y` of the destination holds row `y` of the source, rows not overlapping. */
  lemma {:induction false} CopyRowsInside(d: seq<bv8>, dOff: nat, dPitch: nat, s: seq<bv8>, sOff: nat, sPitch: nat,
                                          width: nat, height: nat, y: nat, x: nat)
    requires StridedFits(dOff, dPitch, height, width, |d|) && StridedFits(sOff, sPitch, height, width, |s|)
    requires width <= dPitch && y < height && x < width
    ensures At(dOff, dPitch, y) + x < |d| && At(sOff, sPitch, y) + x < |s|
    ensures CopyRows(d, dOff, dPitch, s, sOff, sPitch, width, height)[At(dOff, dPitch, y) + x] == s[At(sOff, sPitch, y) + x]
    decreases height
  {
    StridedFitsPrefix(dOff, dPitch, height, width, |d|, y + 1);
    StridedFitsPrefix(sOff, sPitch, height, width, |s|, y + 1);
    StridedFitsFewer(dOff, dPitch, height, width, |d|);
    StridedFitsFewer(sOff, sPitch, height, width, |s|);
    var rest := CopyRows(d, dOff, dPitch, s, sOff, sPitch, width, height - 1);
    var at := At(dOff, dPitch, height - 1);
    var row := At(sOff, sPitch, height - 1);
    var i := At(dOff, dPitch, y) + x;
    assert CopyRows(d, dOff, dPitch, s, sOff, sPitch, width, height) == Splice(rest, at, s[row..row + width]);
    SpliceAt(rest, at, s[row..row + width], i);
    if y < height - 1 {
      assert i < at by { StepAfter(y, height - 1, dPitch); }
      CopyRowsInside(d, dOff, dPitch, s, sOff, sPitch, width, height - 1, y, x);
    }
  }

  /** Bytes outside the destination rows keep their values. */
  lemma {:induction false} CopyRowsOutside(d: seq<bv8>, dOff: nat, dPitch: nat, s: seq<bv8>, sOff: nat, sPitch: nat,
                                           width: nat, height: nat, i: nat)
    requires StridedFits(dOff, dPitch, height, width, |d|) && StridedFits(sOff, sPitch, height, width, |s|)
    requires i < |d| && !InBlocks(dOff, dPitch, height, width, i)
    ensures CopyRows(d, dOff, dPitch, s, sOff, sPitch, width, height)[i] == d[i]
    decreases height
  {
    if height > 0 {
      StridedFitsFewer(dOff, dPitch, height, width, |d|);
      StridedFitsFewer(sOff, sPitch, height, width, |s|);
      CopyRowsOutside(d, dOff, dPitch, s, sOff, sPitch, width, height - 1, i);
      var row := At(sOff, sPitch, height - 1);
      SpliceAt(CopyRows(d, dOff, dPitch, s, sOff, sPitch, width, height - 1), At(dOff, dPitch, height - 1),
               s[row..row + width], i);
    }
  }

  /** The source and destination ranges a call reads and writes lie inside the two memories. */
  predicate CallFits(c: CopyCall, dLen: nat, sLen: nat)
  {
    match c
    case SetDevice(_) => true
    case Memcpy(dst, src, bytes, _, _) => dst + bytes <= dLen && src + bytes <= sLen
    case MemcpyPeer(dst, _, src, _, bytes, _) => dst + bytes <= dLen && src + bytes <= sLen
    case Memcpy2D(dst, dpitch, src, spitch, width, height, _, _) =>
      StridedFits(dst, dpitch, height, width, dLen) && StridedFits(src, spitch, height, width, sLen)
  }

  /** The effect of one call on the destination memory `d`, reading the source memory `s`. */
  function CallEffect(d: seq<bv8>, s: seq<bv8>, c: CopyCall): (r: seq<bv8>)
    requires CallFits(c, |d|, |s|)
    ensures |r| == |d|
  {
    match c
    case SetDevice(_) => d
    case Memcpy(dst, src, bytes, _, _) => Splice(d, dst, s[src..src + bytes])
    case MemcpyPeer(dst, _, src, _, bytes, _) => Splice(d, dst, s[src..src + bytes])
    case Memcpy2D(dst, dpitch, src, spitch, width, height, _, _) => CopyRows(d, dst, dpitch, s, src, spitch, width, height)
  }

  predicate AllFit(calls: seq<CopyCall>, dLen: nat, sLen: nat)
  {
    forall j :: 0 <= j < |calls| ==> CallFits(calls[j], dLen, sLen)
  }

  /** The effect of a sequence of calls, in order. */
  function Effects(d: seq<bv8>, s: seq<bv8>, calls: seq<CopyCall>): (r: seq<bv8>)
    requires AllFit(calls, |d|, |s|)
    ensures |r| == |d|
    decreases |calls|
  {
    if |calls| == 0 then d
    else CallEffect(Effects(d, s, calls[..|calls| - 1]), s, calls[|calls| - 1])
  }

  /** Running one more call after a sequence of calls. */
  lemma EffectsAppend(d: seq<bv8>, s: seq<bv8>, calls: seq<CopyCall>, c: CopyCall)
    requires AllFit(calls, |d|, |s|) && CallFits(c, |d|, |s|)
    ensures AllFit(calls + [c], |d|, |s|)
    ensures Effects(d, s, calls + [c]) == CallEffect(Effects(d, s, calls), s, c)
  {
    assert (calls + [c])[..|calls|] == calls;
  }

  /** Rows of a task (1 for a 1D task) and its row pitches (the width for a 1D task). */
  function TaskHeight(t: TaskCopyHip): nat
  {
    if t.TaskCopy1D? then 1 else t.extentHeight
  }

  function DstPitch(t: TaskCopyHip): nat
  {
    if t.TaskCopy1D? then t.extentWidthBytes else t.dstPitchBytesX
  }

  function SrcPitch(t: TaskCopyHip): nat
  {
    if t.TaskCopy1D? then t.extentWidthBytes else t.srcPitchBytesX
  }

  /** The copy task's rows lie inside the destination and source memories, and do not overlap. */
  predicate TaskFits(t: TaskCopyHip, dLen: nat, sLen: nat)
  {
    && StridedFits(t.dstMem, DstPitch(t), TaskHeight(t), t.extentWidthBytes, dLen)
    && StridedFits(t.srcMem, SrcPitch(t), TaskHeight(t), t.extentWidthBytes, sLen)
    && t.extentWidthBytes <= DstPitch(t)
  }

  /** What a copy task is for: its rows of the source written over the destination's. */
  function CopyRegion(d: seq<bv8>, s: seq<bv8>, t: TaskCopyHip): (r: seq<bv8>)
    requires TaskFits(t, |d|, |s|)
    ensures |r| == |d|
  {
    CopyRows(d, t.dstMem, DstPitch(t), s, t.srcMem, SrcPitch(t), t.extentWidthBytes, TaskHeight(t))
  }

  /** The peer copies of the first `rows` rows copy exactly those rows. */
  lemma {:induction false} PeerRowsCopyRows(d: seq<bv8>, s: seq<bv8>, dOff: nat, dPitch: nat, dDev: int,
                                            sOff: nat, sPitch: nat, sDev: int, width: nat, stream: Option<nat>,
                                            rows: nat)
    requires StridedFits(dOff, dPitch, rows, width, |d|) && StridedFits(sOff, sPitch, rows, width, |s|)
    ensures AllFit(PeerRowCalls(dOff, dPitch, dDev, sOff, sPitch, sDev, width, stream, rows), |d|, |s|)
    ensures Effects(d, s, PeerRowCalls(dOff, dPitch, dDev, sOff, sPitch, sDev, width, stream, rows))
         == CopyRows(d, dOff, dPitch, s, sOff, sPitch, width, rows)
    decreases rows
  {
    if rows > 0 {
      var y := rows - 1;
      CopyRowsStep(d, dOff, dPitch, s, sOff, sPitch, width, y);
      PeerRowsCopyRows(d, s, dOff, dPitch, dDev, sOff, sPitch, sDev, width, stream, y);
      var calls := PeerRowCalls(dOff, dPitch, dDev, sOff, sPitch, sDev, width, stream, y);
      var c := MemcpyPeer(At(dOff, dPitch, y), dDev, At(sOff, sPitch, y), sDev, width, stream);
      EffectsAppend(d, s, calls, c);
      var row := s[At(sOff, sPitch, y)..At(sOff, sPitch, y) + width];
      assert CallEffect(Effects(d, s, calls), s, c) == Splice(CopyRows(d, dOff, dPitch, s, sOff, sPitch, width, y), At(dOff, dPitch, y), row);
    }
  }

  /** Selecting the device and issuing one copy call has that call's effect. */
  lemma SetDeviceThen(d: seq<bv8>, s: seq<bv8>, device: int, c: CopyCall)
    requires CallFits(c, |d|, |s|)
    ensures AllFit([SetDevice(device), c], |d|, |s|)
    ensures Effects(d, s, [SetDevice(device), c]) == CallEffect(d, s, c)
  {
    EffectsAppend(d, s, [], SetDevice(device));
    EffectsAppend(d, s, [SetDevice(device)], c);
  }

  /** A 1D task copies one row of `extentWidthBytes` bytes. */
  lemma OneRow(t: TaskCopyHip, d: seq<bv8>, s: seq<bv8>)
    requires t.TaskCopy1D? && TaskFits(t, |d|, |s|)
    ensures t.dstMem + t.extentWidthBytes <= |d| && t.srcMem + t.extentWidthBytes <= |s|
    ensures CopyRegion(d, s, t) == Splice(d, t.dstMem, s[t.srcMem..t.srcMem + t.extentWidthBytes])
  {
    var w := t.extentWidthBytes;
    assert At(t.dstMem, w, 0) == t.dstMem && At(t.srcMem, w, 0) == t.srcMem;
    CopyRowsStep(d, t.dstMem, w, s, t.srcMem, w, w, 0);
  }

  /** The 1D enqueue, on one device or between two, copies the copy task's row. */
  lemma Enqueue1DCopiesRegion(q: Queue, t: TaskCopyHip, d: seq<bv8>, s: seq<bv8>)
    requires t.TaskCopy1D? && TaskFits(t, |d|, |s|)
    ensures AllFit(Enqueue1DCalls(q, t), |d|, |s|)
    ensures Effects(d, s, Enqueue1DCalls(q, t)) == CopyRegion(d, s, t)
  {
    OneRow(t, d, s);
    var w := t.extentWidthBytes;
    if t.dstDevice == t.srcDevice {
      SetDeviceThen(d, s, t.dstDevice, Memcpy(t.dstMem, t.srcMem, w, t.kind, StreamOf(q)));
    } else {
      EffectsAppend(d, s, [], MemcpyPeer(t.dstMem, t.dstDevice, t.srcMem, t.srcDevice, w, StreamOf(q)));
    }
  }

  /** Every enqueued copy, on either kind of queue, copies exactly the copy task's rows. */
  lemma EnqueueCopiesRegion(q: Queue, t: TaskCopyHip, d: seq<bv8>, s: seq<bv8>)
    requires Enqueueable(t) && TaskFits(t, |d|, |s|)
    ensures AllFit(EnqueueCalls(q, t), |d|, |s|)
    ensures Effects(d, s, EnqueueCalls(q, t)) == CopyRegion(d, s, t)
  {
    if t.TaskCopy1D? {
      Enqueue1DCopiesRegion(q, t, d, s);
    } else if t.dstDevice != t.srcDevice {
      PeerRowsCopyRows(d, s, t.dstMem, t.dstPitchBytesX, t.dstDevice, t.srcMem, t.srcPitchBytesX, t.srcDevice,
                       t.extentWidthBytes, StreamOf(q), t.extentHeight);
    } else {
      SetDeviceThen(d, s, t.dstDevice, SameDevice2DCalls(q, t)[1]);
    }
  }

  /** The destination memory after the calls of a copy task ran on queue `q`. */
  function RunCopy(q: Queue, t: TaskCopyHip, d: seq<bv8>, s: seq<bv8>): (r: seq<bv8>)
    requires Enqueueable(t) && TaskFits(t, |d|, |s|)
    ensures |r| == |d|
  {
    EnqueueCopiesRegion(q, t, d, s);
    Effects(d, s, EnqueueCalls(q, t))
  }

  /** Each destination row receives its source row. */
  lemma EnqueueWritesRows(q: Queue, t: TaskCopyHip, d: seq<bv8>, s: seq<bv8>, y: nat, x: nat)
    requires Enqueueable(t) && TaskFits(t, |d|, |s|)
    requires y < TaskHeight(t) && x < t.extentWidthBytes
    ensures At(t.dstMem, DstPitch(t), y) + x < |d| && At(t.srcMem, SrcPitch(t), y) + x < |s|
    ensures RunCopy(q, t, d, s)[At(t.dstMem, DstPitch(t), y) + x] == s[At(t.srcMem, SrcPitch(t), y) + x]
  {
    EnqueueCopiesRegion(q, t, d, s);
    CopyRowsInside(d, t.dstMem, DstPitch(t), s, t.srcMem, SrcPitch(t), t.extentWidthBytes, TaskHeight(t), y, x);
  }

  /** Bytes outside the destination rows are left alone. */
  lemma EnqueueKeepsRest(q: Queue, t: TaskCopyHip, d: seq<bv8>, s: seq<bv8>, i: nat)
    requires Enqueueable(t) && TaskFits(t, |d|, |s|)
    requires i < |d| && !InBlocks(t.dstMem, DstPitch(t), TaskHeight(t), t.extentWidthBytes, i)
    ensures RunCopy(q, t, d, s)[i] == d[i]
  {
    EnqueueCopiesRegion(q, t, d, s);
    CopyRowsOutside(d, t.dstMem, DstPitch(t), s, t.srcMem, SrcPitch(t), t.extentWidthBytes, TaskHeight(t), i);
  }

  /** A synchronous and an asynchronous queue copy the same bytes. */
  lemma SyncAsyncSameCopy(t: TaskCopyHip, stream: nat, d: seq<bv8>, s: seq<bv8>)
    requires Enqueueable(t) && TaskFits(t, |d|, |s|)
    ensures RunCopy(QueueHipRtSync, t, d, s) == RunCopy(QueueHipRtAsync(stream), t, d, s)
  {
    EnqueueCopiesRegion(QueueHipRtSync, t, d, s);
    EnqueueCopiesRegion(QueueHipRtAsync(stream), t, d, s);
  }

  /** A call with its stream dropped: the synchronous variant of an asynchronous call. */
  function Unstreamed(c: CopyCall): CopyCall
  {
    match c
    case SetDevice(_) => c
    case Memcpy(dst, src, bytes, kind, _) => Memcpy(dst, src, bytes, kind, None)
    case MemcpyPeer(dst, dDev, src, sDev, bytes, _) => MemcpyPeer(dst, dDev, src, sDev, bytes, None)
    case Memcpy2D(dst, dpitch, src, spitch, width, height, kind, _) =>
      Memcpy2D(dst, dpitch, src, spitch, width, height, kind, None)
  }

  /**
   * The synchronous and the asynchronous enqueue of one task take the same
   * branch and issue the same calls with the same sizes and pitches; the
   * asynchronous calls carry the queue's stream.
   */
  lemma SyncAsyncSameCalls(t: TaskCopyHip, stream: nat)
    requires Enqueueable(t)
    ensures |EnqueueCalls(QueueHipRtSync, t)| == |EnqueueCalls(QueueHipRtAsync(stream), t)|
    ensures forall j :: 0 <= j < |EnqueueCalls(QueueHipRtSync, t)| ==>
              EnqueueCalls(QueueHipRtSync, t)[j] == Unstreamed(EnqueueCalls(QueueHipRtAsync(stream), t)[j])
    ensures forall j :: 0 <= j < |EnqueueCalls(QueueHipRtAsync(stream), t)| ==>
              EnqueueCalls(QueueHipRtAsync(stream), t)[j].SetDevice? ||
              EnqueueCalls(QueueHipRtAsync(stream), t)[j].stream == Some(stream)
  {
    if t.TaskCopy2D? && t.dstDevice != t.srcDevice {
      forall j | 0 <= j < t.extentHeight
        ensures EnqueueCalls(QueueHipRtSync, t)[j] == Unstreamed(EnqueueCalls(QueueHipRtAsync(stream), t)[j])
        ensures EnqueueCalls(QueueHipRtAsync(stream), t)[j].MemcpyPeer?
        ensures EnqueueCalls(QueueHipRtAsync(stream), t)[j].stream == Some(stream)
      {
        PeerRowCallsAt(t.dstMem, t.dstPitchBytesX, t.dstDevice, t.srcMem, t.srcPitchBytesX, t.srcDevice,
                       t.extentWidthBytes, None, t.extentHeight, j);
        PeerRowCallsAt(t.dstMem, t.dstPitchBytesX, t.dstDevice, t.srcMem, t.srcPitchBytesX, t.srcDevice,
                       t.extentWidthBytes, Some(stream), t.extentHeight, j);
      }
    }
  }

  /** Outside the 2D peer case, the enqueue as written copies the copy task's rows. */
  lemma AsWrittenCopiesRegion(q: Queue, t: TaskCopyHip, d: seq<bv8>, s: seq<bv8>)
    requires Enqueueable(t) && TaskFits(t, |d|, |s|)
    requires !(t.TaskCopy2D? && t.dstDevice != t.srcDevice)
    ensures AllFit(EnqueueCallsAsWritten(q, t), |d|, |s|)
    ensures Effects(d, s, EnqueueCallsAsWritten(q, t)) == CopyRegion(d, s, t)
  {
    EnqueueCopiesRegion(q, t, d, s);
  }

  /**
   * A host/device copy runs on the HIP device of the copy task: it selects that
   * device and issues one (pitched) copy, on both kinds of queue.
   */
  lemma HostDeviceCopyIsLocal(q: Queue, dst: View, src: View, extent: Vec, t: TaskCopyHip)
    requires CopyPre(dst, src, extent) && |extent| <= 2
    requires || (dst.dev == DevCpu && src.dev.DevHipRt? && t == CreateTaskCopyDevToHost(dst, src, extent))
             || (dst.dev.DevHipRt? && src.dev == DevCpu && t == CreateTaskCopyHostToDev(dst, src, extent))
    ensures Enqueueable(t)
    ensures EnqueueCallsAsWritten(q, t) == EnqueueCalls(q, t)
    ensures |EnqueueCalls(q, t)| == 2
    ensures EnqueueCalls(q, t)[0] == SetDevice(if dst.dev == DevCpu then src.dev.id else dst.dev.id)
    ensures EnqueueCalls(q, t)[1].stream == StreamOf(q)
    ensures EnqueueCalls(q, t)[1].kind == if dst.dev == DevCpu then HipMemcpyDeviceToHost else HipMemcpyHostToDevice
  {
  }

  /** Copying a region to a device and back to the host restores the host's rows. */
  lemma HostDeviceRoundTrip(q1: Queue, q2: Queue, devView: View, host: View, back: View, extent: Vec,
                            dev0: seq<bv8>, h0: seq<bv8>, h1: seq<bv8>, y: nat, x: nat)
    requires CopyPre(devView, host, extent) && devView.dev.DevHipRt? && host.dev == DevCpu
    requires CopyPre(back, devView, extent) && back.dev == DevCpu
    requires |extent| <= 2
    requires TaskFits(CreateTaskCopyHostToDev(devView, host, extent), |dev0|, |h0|)
    requires TaskFits(CreateTaskCopyDevToHost(back, devView, extent), |h1|, |dev0|)
    requires y < Height(extent) && x < Width(extent) * host.elemSize
    ensures var t1 := CreateTaskCopyHostToDev(devView, host, extent);
            var t2 := CreateTaskCopyDevToHost(back, devView, extent);
            var h2 := RunCopy(q2, t2, h1, RunCopy(q1, t1, dev0, h0));
            && At(back.ptr, DstPitch(t2), y) + x < |h2|
            && At(host.ptr, SrcPitch(t1), y) + x < |h0|
            && h2[At(back.ptr, DstPitch(t2), y) + x] == h0[At(host.ptr, SrcPitch(t1), y) + x]
  {
    var t1 := CreateTaskCopyHostToDev(devView, host, extent);
    var t2 := CreateTaskCopyDevToHost(back, devView, extent);
    var dev1 := RunCopy(q1, t1, dev0, h0);
    assert DstPitch(t1) == SrcPitch(t2);
    EnqueueWritesRows(q1, t1, dev0, h0, y, x);
    EnqueueWritesRows(q2, t2, h1, dev1, y, x);
  }

  /**
   * The 2D copy between two devices as written: no call is issued and the
   * destination keeps its bytes, where the copy should have written the
   * source's byte 5.
   */
  lemma AsWrittenPeer2DCopiesNothing(q: Queue)
    ensures var dst := View(DevHipRt(0), [1, 1], [1, 1, 1], 1, 0);
            var src := View(DevHipRt(1), [1, 1], [1, 1, 1], 1, 0);
            && CopyPre(dst, src, [1, 1])
            && var t := CreateTaskCopyDevToDev(dst, src, [1, 1]);
            && TaskFits(t, 1, 1)
            && EnqueueCallsAsWritten(q, t) == []
            && Effects([0], [5], EnqueueCallsAsWritten(q, t)) == [0]
            && RunCopy(q, t, [0], [5]) == [5]
  {
    var dst := View(DevHipRt(0), [1, 1], [1, 1, 1], 1, 0);
    var src := View(DevHipRt(1), [1, 1], [1, 1, 1], 1, 0);
    var t := CreateTaskCopyDevToDev(dst, src, [1, 1]);
    EnqueueWritesRows(q, t, [0], [5], 0, 0);
    var r := RunCopy(q, t, [0], [5]);
    assert r == [r[0]];
  }

  // ---------------------------------------------------------------------------
  // Running the calls on device memory

  /** A contiguous copy of `part` to offset `at` of `mem`, as `hipMemcpy` performs it. */
  method CopyBytes(mem: array<bv8>, at: nat, part: seq<bv8>)
    requires at + |part| <= mem.Length
    modifies mem
    ensures mem[..] == Splice(old(mem[..]), at, part)
  {
    var i := 0;
    while i < |part|
      invariant 0 <= i <= |part|
      invariant mem[..] == old(mem[..])[..at] + part[..i] + old(mem[..])[at + i..]
    {
      mem[at + i] := part[i];
      i := i + 1;
      assert part[..i] == part[..i - 1] + [part[i - 1]];
    }
  }

  /** The HIP runtime performing one call on the destination memory. */
  method ExecuteCall(c: CopyCall, mem: array<bv8>, s: seq<bv8>)
    requires CallFits(c, mem.Length, |s|)
    modifies mem
    ensures mem[..] == CallEffect(old(mem[..]), s, c)
  {
    match c
    case SetDevice(_) =>
    case Memcpy(dst, src, bytes, _, _) =>
      CopyBytes(mem, dst, s[src..src + bytes]);
    case MemcpyPeer(dst, _, src, _, bytes, _) =>
      CopyBytes(mem, dst, s[src..src + bytes]);
    case Memcpy2D(dst, dpitch, src, spitch, width, height, _, _) =>
      CopyRowsInPlace(mem, dst, dpitch, s, src, spitch, width, height);
  }

  /** A pitched copy of `height` rows, row by row, as `hipMemcpy2D` performs it. */
  method CopyRowsInPlace(mem: array<bv8>, dOff: nat, dPitch: nat, s: seq<bv8>, sOff: nat, sPitch: nat,
                         width: nat, height: nat)
    requires StridedFits(dOff, dPitch, height, width, mem.Length) && StridedFits(sOff, sPitch, height, width, |s|)
    modifies mem
    ensures mem[..] == CopyRows(old(mem[..]), dOff, dPitch, s, sOff, sPitch, width, height)
  {
    ghost var d := mem[..];
    for y := 0 to height
      invariant StridedFits(dOff, dPitch, y, width, mem.Length) && StridedFits(sOff, sPitch, y, width, |s|)
      invariant mem[..] == CopyRows(d, dOff, dPitch, s, sOff, sPitch, width, y)
    {
      StridedFitsPrefix(dOff, dPitch, height, width, mem.Length, y + 1);
      StridedFitsPrefix(sOff, sPitch, height, width, |s|, y + 1);
      CopyRowsStep(d, dOff, dPitch, s, sOff, sPitch, width, y);
      var row := At(sOff, sPitch, y);
      CopyBytes(mem, At(dOff, dPitch, y), s[row..row + width]);
    }
  }

  /** The HIP runtime performing a sequence of calls, in order, on the destination memory. */
  method RunCalls(calls: seq<CopyCall>, mem: array<bv8>, s: seq<bv8>)
    requires AllFit(calls, mem.Length, |s|)
    modifies mem
    ensures mem[..] == Effects(old(mem[..]), s, calls)
  {
    ghost var d := mem[..];
    var i := 0;
    while i < |calls|
      invariant 0 <= i <= |calls|
      invariant mem[..] == Effects(d, s, calls[..i])
    {
      assert calls[..i + 1][..i] == calls[..i];
      ExecuteCall(calls[i], mem, s);
      i := i + 1;
    }
    assert calls[..i] == calls;
  }

  /** Issues the calls of a copy (the corrected enqueue) and runs them, in order, on the destination memory. */
  method Enqueue(q: Queue, t: TaskCopyHip, mem: array<bv8>, s: seq<bv8>) returns (calls: seq<CopyCall>)
    requires Enqueueable(t) && TaskFits(t, mem.Length, |s|)
    modifies mem
    ensures calls == EnqueueCalls(q, t)
    ensures mem[..] == CopyRegion(old(mem[..]), s, t)
  {
    ghost var d := mem[..];
    calls := EnqueueCalls(q, t);
    EnqueueCopiesRegion(q, t, d, s);
    RunCalls(calls, mem, s);
    assert mem[..] == Effects(d, s, calls);
  }
}
