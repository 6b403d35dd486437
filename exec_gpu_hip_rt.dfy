/**
 * The HIP kernel executor `ExecGpuHipRt`: construction, and the mapping of a
 * work division onto a HIP launch in the synchronous and asynchronous queues.
 */
module ExecGpuHipRt {
  import opened Arith
  import opened Extents
  import opened Acc
  import opened WorkDiv

  /** The kernel launch task: work division, kernel function object and argument tuple. */
  datatype ExecGpuHipRt<K, A> = ExecGpuHipRt(dim: nat, workDiv: WorkDivMembers, kernelFnObj: K, args: A)

  /** The executor's constructor: the work division has the executor's dimensionality. */
  function MakeExec<K, A>(dim: nat, workDiv: WorkDivMembers, kernelFnObj: K, args: A): (e: ExecGpuHipRt<K, A>)
    requires HasDim(workDiv, dim)
    ensures e.dim == dim && HasDim(e.workDiv, e.dim)
    ensures e.workDiv == workDiv && e.kernelFnObj == kernelFnObj && e.args == args
  {
    ExecGpuHipRt(dim, workDiv, kernelFnObj, args)
  }

  /** `CreateTaskExec<AccHipRt>`: an executor carrying exactly the given work division, kernel and arguments. */
  function CreateTaskExec<K, A>(dim: nat, workDiv: WorkDivMembers, kernelFnObj: K, args: A): (e: ExecGpuHipRt<K, A>)
    requires HasDim(workDiv, dim)
    ensures e.dim == dim && HasDim(e.workDiv, e.dim)
    ensures e.workDiv == workDiv && e.kernelFnObj == kernelFnObj && e.args == args
  {
    MakeExec(dim, workDiv, kernelFnObj, args)
  }

  datatype QueueKind = QueueHipRtSync | QueueHipRtAsync

  /**
   * The build configuration: whether `BOOST_VERIFY` aborts (assertions
   * compiled in) and whether `ALPAKA_DEBUG >= ALPAKA_DEBUG_MINIMAL`.
   */
  datatype Build = Build(assertions: bool, debugMinimal: bool)

  /** The HIP runtime calls an enqueue issues, in order. */
  datatype ExecCall<K, A> =
    | SetDevice(device: int)
    | LaunchKernel(gridDim: seq<nat>, blockDim: seq<nat>, sharedMemBytes: nat, stream: nat,
                   threadElemExtent: Vec, kernelFnObj: K, args: A)
    | StreamSynchronize(stream: nat)
    | CheckLastError(message: string)

  datatype EnqueueOutcome<K, A> =
    | VerifyFailed                    // a `BOOST_VERIFY` on the axes above the third failed
    | Thrown(message: string)         // `std::runtime_error`
    | Issued(calls: seq<ExecCall<K, A>>)

  /** The `dim3` slot `i` (x, y, z) of the launch: axis `|v| - 1 - i` cast to `unsigned int`, or 1. */
  function LaunchGeometry(v: Vec): seq<nat>
  {
    seq(3, i requires 0 <= i < 3 => if i < |v| then Trunc32(v[|v| - 1 - i]) else 1)
  }

  /** HIP launches have at most three axes: every axis above the third is 1. */
  predicate HigherAxesAreOne(wd: WorkDivMembers, dim: nat)
    requires HasDim(wd, dim)
  {
    forall j :: 0 <= j < dim - 3 ==>
      wd.gridBlockExtent[j] == 1 && wd.blockThreadExtent[j] == 1 && wd.threadElemExtent[j] == 1
  }

  function InvalidWorkDivMessage(accName: string): string
  {
    "The given work division is not valid or not supported by the device of type " + accName + "!"
  }

  function KernelFailedMessage(kernelTypeName: string): string
  {
    "'execution of kernel: '" + kernelTypeName + "' failed with"
  }

  /** `hipLaunchKernel` of `hipKernel` with the geometry of the executor's work division. */
  function Launch<K, A>(task: ExecGpuHipRt<K, A>, sharedMemBytes: nat, stream: nat): ExecCall<K, A>
  {
    LaunchKernel(LaunchGeometry(task.workDiv.gridBlockExtent), LaunchGeometry(task.workDiv.blockThreadExtent),
                 sharedMemBytes, stream, task.workDiv.threadElemExtent, task.kernelFnObj, task.args)
  }

  /**
   * What follows the launch: the wait and the error check of each queue kind.
   * The synchronous queue always waits; the asynchronous one waits only in a
   * debug build, where the source's wait is taken to be `hipStreamSynchronize`.
   */
  function AfterLaunch<K, A>(queue: QueueKind, build: Build, stream: nat, kernelTypeName: string): (r: seq<ExecCall<K, A>>)
    ensures (|r| >= 1 && r[0] == StreamSynchronize(stream)) <==> (queue == QueueHipRtSync || build.debugMinimal)
    ensures queue == QueueHipRtAsync ==> (r == [] <==> !build.debugMinimal)
    ensures build.debugMinimal <==> |r| >= 1 && r[|r| - 1] == CheckLastError(KernelFailedMessage(kernelTypeName))
    ensures forall j :: 0 <= j < |r| ==> r[j].StreamSynchronize? || r[j].CheckLastError?
  {
    (if queue == QueueHipRtSync || build.debugMinimal then [StreamSynchronize(stream)] else [])
    + (if build.debugMinimal then [CheckLastError(KernelFailedMessage(kernelTypeName))] else [])
  }

  /** The `for` loop filling one `dim3`: slot `i` takes axis `|v| - 1 - i`, the slots above `|v|` stay 1. */
  method Dim3Of(v: Vec) returns (d: array<nat>)
    ensures fresh(d)
    ensures d[..] == LaunchGeometry(v)
  {
    d := new nat[3](_ => 1);
    var m := if |v| < 3 then |v| else 3;
    for i := 0 to m
      invariant forall j :: 0 <= j < i ==> d[j] == Trunc32(v[|v| - 1 - j])
      invariant forall j :: i <= j < 3 ==> d[j] == 1
    {
      d[i] := Trunc32(v[|v| - 1 - i]);
    }
    assert d[..] == LaunchGeometry(v);
  }

  /** The `BOOST_VERIFY` loop over the axes above the third. */
  method AxesAboveThirdAreOne(wd: WorkDivMembers, dim: nat) returns (ones: bool)
    requires HasDim(wd, dim)
    ensures ones <==> HigherAxesAreOne(wd, dim)
  {
    var m := if dim < 3 then dim else 3;
    ones := true;
    for i := m to dim
      invariant ones <==> forall j :: dim - i <= j < dim - m ==>
        wd.gridBlockExtent[j] == 1 && wd.blockThreadExtent[j] == 1 && wd.threadElemExtent[j] == 1
    {
      ones := ones && wd.gridBlockExtent[dim - 1 - i] == 1 && wd.blockThreadExtent[dim - 1 - i] == 1
                   && wd.threadElemExtent[dim - 1 - i] == 1;
    }
  }

  /**
   * `Enqueue<QueueHipRtSync / QueueHipRtAsync, ExecGpuHipRt>::enqueue`. The
   * device limits `props` stand for `getAccDevProps` of the queue's device,
   * `sharedMemBytes` for the kernel's dynamic shared memory trait, and
   * `kernelTypeName` for `typeid(TKernelFnObj).name()`.
   */
  method Enqueue<K, A>(queue: QueueKind, build: Build, device: int, stream: nat, t: IdxType,
                       props: AccDevProps, sharedMemBytes: nat, kernelTypeName: string,
                       task: ExecGpuHipRt<K, A>)
    returns (r: EnqueueOutcome<K, A>)
    requires HasDim(task.workDiv, task.dim)
    ensures r.VerifyFailed? <==> build.assertions && !HigherAxesAreOne(task.workDiv, task.dim)
    ensures r.Thrown? <==>
      !r.VerifyFailed? && build.debugMinimal && !IsValidWorkDiv(props, task.workDiv)
    ensures r.Thrown? ==> r.message == InvalidWorkDivMessage(GetAccName(AccGpuHipRt, task.dim, t))
    ensures r.Issued? ==>
              r.calls == [SetDevice(device), Launch(task, sharedMemBytes, stream)]
                         + AfterLaunch(queue, build, stream, kernelTypeName)
  {
    var wd := task.workDiv;
    var dim := task.dim;
    var gridDim := Dim3Of(wd.gridBlockExtent);
    var blockDim := Dim3Of(wd.blockThreadExtent);
    var ones := AxesAboveThirdAreOne(wd, dim);
    if build.assertions && !ones {
      return VerifyFailed;
    }
    if build.debugMinimal && !IsValidWorkDiv(props, wd) {
      return Thrown(InvalidWorkDivMessage(GetAccName(AccGpuHipRt, dim, t)));
    }
    var launch := LaunchKernel(gridDim[..], blockDim[..], sharedMemBytes, stream, wd.threadElemExtent,
                               task.kernelFnObj, task.args);
    var calls: seq<ExecCall<K, A>> := [SetDevice(device), launch];
    if queue == QueueHipRtSync || build.debugMinimal {
      calls := calls + [StreamSynchronize(stream)];
    }
    if build.debugMinimal {
      calls := calls + [CheckLastError(KernelFailedMessage(kernelTypeName))];
    }
    return Issued(calls);
  }

  /** Product of the three `dim3` slots. */
  function Volume(g: seq<nat>): nat
    requires |g| == 3
  {
    g[0] * g[1] * g[2]
  }

  /** Slots of an extent of at most three axes whose components fit in `unsigned int`. */
  lemma GeometryExact(v: Vec)
    requires |v| <= 3 && forall j :: 0 <= j < |v| ==> v[j] < U32
    ensures forall i :: 0 <= i < |v| ==> LaunchGeometry(v)[i] == v[|v| - 1 - i]
    ensures forall i :: |v| <= i < 3 ==> LaunchGeometry(v)[i] == 1
  {
    forall i | 0 <= i < |v|
      ensures LaunchGeometry(v)[i] == v[|v| - 1 - i]
    {
      assert LaunchGeometry(v)[i] == Trunc32(v[|v| - 1 - i]);
    }
  }

  /** Three slots holding `c`, `b`, `a`, in that order, multiply to `a * b * c`. */
  lemma VolumeOfSlots(g: seq<nat>, a: nat, b: nat, c: nat)
    requires |g| == 3 && g[0] == c && g[1] == b && g[2] == a
    ensures Volume(g) == a * b * c
  {
    assert Volume(g) == c * b * a;
  }

  lemma Product3(v: Vec)
    requires |v| == 3
    ensures Product(v) == v[0] * v[1] * v[2]
  {
    assert v[..2][..1] == v[..1];
    assert Product(v[..1]) == v[0];
  }

  lemma Product2(v: Vec)
    requires |v| == 2
    ensures Product(v) == v[0] * v[1]
  {
    assert Product(v[..1]) == v[0];
  }

  lemma GeometryVolume3(v: Vec)
    requires |v| == 3 && forall j :: 0 <= j < |v| ==> v[j] < U32
    ensures Volume(LaunchGeometry(v)) == Product(v)
  {
    GeometryExact(v);
    Product3(v);
    VolumeOfSlots(LaunchGeometry(v), v[0], v[1], v[2]);
  }

  lemma GeometryVolume2(v: Vec)
    requires |v| == 2 && forall j :: 0 <= j < |v| ==> v[j] < U32
    ensures Volume(LaunchGeometry(v)) == Product(v)
  {
    GeometryExact(v);
    Product2(v);
    VolumeOfSlots(LaunchGeometry(v), 1, v[0], v[1]);
  }

  /** The launch geometry has as many slots' worth of blocks or threads as the extent has elements. */
  lemma GeometryVolume(v: Vec)
    requires |v| <= 3 && forall j :: 0 <= j < |v| ==> v[j] < U32
    ensures Volume(LaunchGeometry(v)) == Product(v)
  {
    if |v| == 3 {
      GeometryVolume3(v);
    } else if |v| == 2 {
      GeometryVolume2(v);
    } else {
      GeometryExact(v);
    }
  }

  /**
   * A work division that passes the validity gate on a device produces a launch
   * geometry within that device's hardware limits, slot by slot, and the
   * threads of a block number exactly the block-thread extent's element count.
   */
  lemma LaunchWithinDeviceLimits(dim: nat, t: IdxType, p: HipDeviceProp, wd: WorkDivMembers)
    requires dim <= 3 && WellFormed(p) && t.bits <= 32
    requires HasDim(wd, dim) && IsValidWorkDiv(GetAccDevProps(dim, t, p), wd)
    ensures forall i :: 0 <= i < 3 ==> LaunchGeometry(wd.gridBlockExtent)[i] >= 1
    ensures forall i :: 0 <= i < dim ==> LaunchGeometry(wd.gridBlockExtent)[i] <= CastIdx(t, p.maxGridSize[i])
    ensures forall i :: 0 <= i < dim ==> LaunchGeometry(wd.blockThreadExtent)[i] <= CastIdx(t, p.maxThreadsDim[i])
    ensures Volume(LaunchGeometry(wd.blockThreadExtent)) == Product(wd.blockThreadExtent)
    ensures Volume(LaunchGeometry(wd.blockThreadExtent)) <= CastIdx(t, p.maxThreadsPerBlock)
  {
    var props := GetAccDevProps(dim, t, p);
    Pow2AtMost32(t.bits);
    assert forall j :: 0 <= j < dim ==> wd.gridBlockExtent[j] < U32;
    assert forall j :: 0 <= j < dim ==> wd.blockThreadExtent[j] < U32;
    GeometryExact(wd.gridBlockExtent);
    GeometryExact(wd.blockThreadExtent);
    GeometryVolume(wd.blockThreadExtent);
  }
}
