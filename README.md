# alpaka HIP back end, CPU memset and histogram example in Dafny

This project models the host-side logic of alpaka's HIP back end and two of its users.

- **Pitched memory set on the CPU** (`CpuSet`, `cpu_set.dfy`). `Set<TDim, DevCpu>::set` fills a 1- to 3-dimensional sub-extent of a pitched byte buffer with one byte value. It takes one of three strategies: one `memset` over whole slices, one per slice, or one per row. The model works in place on an `array<bv8>`, and `SetResult` specifies it. The module also has the asynchronous overload, which defers the set to a CPU stream.
- **HIP copy tasks** (`HipCopy`, `hip_copy.dfy`).
  - The `TaskCopyHip` descriptor for 1D, 2D and 3D copies.
  - The three `createTaskCopy` specialisations: device to host, host to device, and device to device.
  - The `enqueue` of 1D and 2D copies into synchronous and asynchronous HIP queues.

  HIP runtime calls are values of `CopyCall`. `CallEffect` says what each call does to the destination memory, and `Enqueue` runs the calls on an `array<bv8>`.
- **HIP kernel executor** (`ExecGpuHipRt`, `exec_gpu_hip_rt.dfy`). This covers the `ExecGpuHipRt` constructor and `createTaskExec`. It also covers the `enqueue` of a kernel launch: the `dim3` grid and block loops, the check that axes above the third are 1, the validity gate, and the calls that follow the launch.
- **Accelerator limits and names** (`Acc`, `acc.dfy`; `WorkDiv`, `workdiv.dfy`). `getAccDevProps` maps a `hipDeviceProp_t` to the limit record; it is the same for `AccGpuHipRt` and `AccHipRt`. `getAccName` builds the accelerator's name. `isValidWorkDiv` checks a work division against those limits.
- **Histogram example** (`Histogram`, `histogram.dfy`).
  - The SWAR `bitcount`.
  - The normalisation of `A` and the kernel bounds in `ComputeHistogram`.
  - The per-thread semantics of `HistogramKernelGridStriding` and `HistogramKernelMonolithic`, as loops over arrays.
- **Test buffer** (`TestBuffer`, `test_buffer.dfy`). This is the flat multi-argument host/device buffer of the math unit tests, modelled as a class over two arrays.

Shared vocabulary:

- `Arith`: powers of two, the 32- and 64-bit ranges, and small product lemmas.
- `Extents`: extent vectors; the last axis is the width.
- `Pitched`: runs of equally spaced blocks.

## Model

| member | source | states |
|---|---|---|
| CpuSet.ChoosePath | include/alpaka/mem/buf/cpu/Set.hpp:119-157 | The whole-slice strategy is taken exactly when the extent's width and height equal both the view's and the base buffer's. The per-slice strategy is taken exactly when only the two widths match. |
| CpuSet.OffsetInStorage | include/alpaka/mem/buf/cpu/Set.hpp:91-96 | Byte (x, y, z) of the view, with x below the pitch, lies at z·slice + (y·pitch + x), where slice = pitch·height. The in-slice part is below the slice size. The offset lies inside the storage. |
| CpuSet.Memset | include/alpaka/mem/buf/cpu/Set.hpp:127-130 | `std::memset`: exactly bytes [start, start+len) become the byte, and every other byte is unchanged. |
| CpuSet.SetRowsOfSlice | include/alpaka/mem/buf/cpu/Set.hpp:149-155 | The row loop of one slice: one memset of `ewb` bytes per row, rows a pitch apart. |
| CpuSet.SetSlices | include/alpaka/mem/buf/cpu/Set.hpp:134-157 | The slice loop. When the widths match, each slice gets one memset of pitch·extentHeight bytes from its start. Otherwise each slice gets one memset per row. |
| CpuSet.Set | include/alpaka/mem/buf/cpu/Set.hpp:65-159 | Under `set`'s own assertions (Set.hpp:87-93: extent at most the view on each axis, width in bytes at most the pitch) a view of fewer than 2^32 bytes and extents below 2^32, the new destination is `SetResult` of the old one. |
| CpuSet.SetLengthsFit | include/alpaka/mem/buf/cpu/Set.hpp:79-152 | Under `SetPre`, each `std::uint32_t` quantity of `set` equals its exact value: the whole-memset length slice·extentDepth, the per-slice length pitch·extentHeight, the slice offset z·slice, the row offset y·pitch, and the widths, heights and depths of the extent, the view and its buffer that `set` reads as `UInt`. The width in bytes, a `std::size_t`, is below 2^32 as well. |
| CpuSet.FillStridedExact | include/alpaka/mem/buf/cpu/Set.hpp:139-146 | Repeated memsets at a stride: a byte becomes the value exactly when it lies in one of the blocks. Every other byte keeps its value. |
| CpuSet.FillRowsExact | include/alpaka/mem/buf/cpu/Set.hpp:134-157 | Row memsets over several slices: a byte becomes the value exactly when it lies in one of the rows. Every other byte keeps its value. |
| CpuSet.WholeExact | include/alpaka/mem/buf/cpu/Set.hpp:127-130 | The single memset writes exactly the bytes of slices z < extentDepth, pitch bytes included. |
| CpuSet.SlicesExact | include/alpaka/mem/buf/cpu/Set.hpp:139-146 | The per-slice memsets write exactly rows y < extentHeight of slices z < extentDepth, pitch padding included. |
| CpuSet.RowsExact | include/alpaka/mem/buf/cpu/Set.hpp:149-155 | The per-row memsets write exactly the first widthBytes bytes of rows y < extentHeight of slices z < extentDepth. |
| CpuSet.SetExactWhole | include/alpaka/mem/buf/cpu/Set.hpp:122-131 | Fast path, byte by byte over the view: exactly the slices z < extentDepth become the byte, and rows and pitch are overwritten as a whole. |
| CpuSet.SetExactSlices | include/alpaka/mem/buf/cpu/Set.hpp:139-146 | Per-slice path: in each slice z < extentDepth, exactly the first extentHeight rows become the byte, pitch included. Later rows and slices are unchanged. |
| CpuSet.SetExactRows | include/alpaka/mem/buf/cpu/Set.hpp:149-155 | Per-row path: only x < widthBytes of rows y < extentHeight of slices z < extentDepth becomes the byte. Pitch padding and all other bytes are unchanged. |
| CpuSet.SetExact | include/alpaka/mem/buf/cpu/Set.hpp:119-158 | Whichever path is taken, each byte of the view's storage is written exactly when `Written` holds, and otherwise keeps its value. |
| CpuSet.SetFillsExtent | include/alpaka/mem/buf/cpu/Set.hpp:122-157 | On every path, every byte with x < widthBytes, y < extentHeight and z < extentDepth equals the byte after `set`. |
| CpuSet.SetStaysInExtentSlices | include/alpaka/mem/buf/cpu/Set.hpp:122-157 | No path changes a byte at or after slice·extentDepth. |
| CpuSet.RunSetTask | include/alpaka/mem/buf/cpu/Set.hpp:176-183 | Running a deferred set fails exactly when the set task refers to a byte variable that no longer exists. Otherwise it yields a buffer of the same size. |
| CpuSet.EnqueueSetDefersSet | include/alpaka/mem/buf/cpu/Set.hpp:167-184 | With the byte captured by value, the enqueued task is exactly the synchronous `set` with the same view, byte and extent, whatever the caller's variables hold later. |
| CpuSet.EnqueueSetAsWrittenReadsLateByte | include/alpaka/mem/buf/cpu/Set.hpp:177-182 | The lambda captures `&byte`, so the set task writes whatever the variable holds when it runs. A concrete run writes 9 where 7 was passed, and reads a destroyed temporary. |
| HipCopy.MakeTaskCopy | include/alpaka/mem/buf/hip/Copy.hpp:96-340 | The descriptor of the extent's rank. It records the kind, ids and pointers. Its width in bytes is extent width × element size. From 2D on it records the extent height and the row pitches, and the debug assertions give width in bytes ≤ both row pitches and heights ≤ both views. |
| HipCopy.CreateTaskCopyDevToHost | include/alpaka/mem/buf/hip/Copy.hpp:411-449 | Device to host has kind DeviceToHost, and both ids are the source view's device. |
| HipCopy.CreateTaskCopyHostToDev | include/alpaka/mem/buf/hip/Copy.hpp:457-495 | Host to device has kind HostToDevice, and both ids are the destination view's device. |
| HipCopy.CreateTaskCopyDevToDev | include/alpaka/mem/buf/hip/Copy.hpp:503-538 | Device to device has kind DeviceToDevice, and each id is taken from its own view. |
| HipCopy.HostDeviceCopyIsLocal | include/alpaka/mem/buf/hip/Copy.hpp:746-1000 | A host/device 1D or 2D task always takes the same-device branch. It selects the HIP device, then issues one copy with the recorded direction and the queue's stream. The corrected and as-written enqueues agree on it. |
| HipCopy.Enqueue1DCopiesRegion | include/alpaka/mem/buf/hip/Copy.hpp:746-861 | Both 1D branches copy exactly the copy task's widthBytes bytes from source to destination: device selection plus `hipMemcpy(Async)` for equal ids, `hipMemcpyPeer(Async)` otherwise. |
| HipCopy.PeerRowCallsAt | include/alpaka/mem/buf/hip/Copy.hpp:919-931 | The corrected 2D peer branch: call j is the peer copy of row j, widthBytes bytes between the two devices at the two pitches. |
| HipCopy.PeerRowsCopyRows | include/alpaka/mem/buf/hip/Copy.hpp:919-931 | The per-row peer copies have exactly the effect of one pitched copy of all rows. |
| HipCopy.EnqueueCopiesRegion | include/alpaka/mem/buf/hip/Copy.hpp:746-1000 | Every 1D or 2D enqueue, on either queue kind and on one device or two, copies exactly the copy task's rows (`CopyRegion`). |
| HipCopy.AsWrittenCopiesRegion | include/alpaka/mem/buf/hip/Copy.hpp:746-1000 | Outside the 2D peer case, the enqueue as written copies exactly the copy task's rows. |
| HipCopy.AsWrittenPeer2DCopiesNothing | include/alpaka/mem/buf/hip/Copy.hpp:919-931 | For a 2D copy between devices 0 and 1, the enqueue as written issues no call and leaves the destination byte 0. The copy should have written the source's 5. |
| HipCopy.SyncAsyncSameCalls | include/alpaka/mem/buf/hip/Copy.hpp:746-1000 | The sync and async enqueue of one task issue the same number of calls, in the same branch, with the same sizes and pitches. Only the async calls carry the queue's stream. |
| HipCopy.SyncAsyncSameCopy | include/alpaka/mem/buf/hip/Copy.hpp:746-1000 | The sync and async enqueue of one task leave the same destination bytes. |
| HipCopy.EnqueueWritesRows | include/alpaka/mem/buf/hip/Copy.hpp:746-1000 | After the copy, byte x of destination row y equals byte x of source row y, for y < height and x < widthBytes. |
| HipCopy.EnqueueKeepsRest | include/alpaka/mem/buf/hip/Copy.hpp:746-1000 | Destination bytes outside the copy task's rows keep their values. |
| HipCopy.HostDeviceRoundTrip | include/alpaka/mem/buf/hip/Copy.hpp:411-495 | Copying a region host → device and then device → host gives back the host's bytes, row by row. |
| HipCopy.CopyRowsInside | include/alpaka/mem/buf/hip/Copy.hpp:909-918 | `hipMemcpy2D(Async)`: each of the `height` destination rows, `dpitch` apart, receives the `width` bytes of its source row, `spitch` apart. |
| HipCopy.CopyRowsOutside | include/alpaka/mem/buf/hip/Copy.hpp:980-987 | `hipMemcpy2D(Async)` changes no byte outside the destination rows. |
| HipCopy.CopyBytes | include/alpaka/mem/buf/hip/Copy.hpp:781-786 | A linear copy, `hipMemcpy(Async)`/`hipMemcpyPeer(Async)`, splices the source bytes into the destination at the pointer. |
| HipCopy.CopyRowsInPlace | include/alpaka/mem/buf/hip/Copy.hpp:980-987 | The row-by-row pitched copy on the destination array has the effect `CopyRows` specifies. |
| HipCopy.ExecuteCall | include/alpaka/mem/buf/hip/Copy.hpp:775-799 | One runtime call applied to the destination array has its effect `CallEffect`; device selection changes nothing. |
| HipCopy.RunCalls | include/alpaka/mem/buf/hip/Copy.hpp:746-1000 | The calls, run in order on the destination array, have their combined effect `Effects`. |
| HipCopy.Enqueue | include/alpaka/mem/buf/hip/Copy.hpp:746-1000 | The corrected enqueue issues `EnqueueCalls`, and the destination array ends up holding `CopyRegion` of the old one. |
| ExecGpuHipRt.MakeExec | include/alpaka/exec/ExecGpuHipRt.hpp:134-145 | The executor stores the given work division, kernel object and arguments. The work division has the executor's dimensionality. |
| ExecGpuHipRt.CreateTaskExec | include/alpaka/acc/AccHipRt.hpp:255-276 | `createTaskExec` returns an executor carrying exactly the given work division, kernel and arguments. |
| ExecGpuHipRt.Dim3Of | include/alpaka/exec/ExecGpuHipRt.hpp:309-317 | The `dim3` loop: slot i < min(3, Dim) holds axis Dim-1-i cast to `unsigned int`, and the remaining slots stay 1. |
| ExecGpuHipRt.AxesAboveThirdAreOne | include/alpaka/exec/ExecGpuHipRt.hpp:319-324 | The `BOOST_VERIFY` loop succeeds exactly when every axis Dim-1-i with i ≥ 3 is 1 in all three extents. |
| ExecGpuHipRt.Enqueue | include/alpaka/exec/ExecGpuHipRt.hpp:286-550 | A failed axis check (when assertions are on) stops the enqueue. Otherwise in debug builds an invalid work division throws the message naming the accelerator, before any device selection. Otherwise the enqueue selects the device, launches with the `dim3` geometry and the unchanged thread-element extent, then runs the queue's follow-up calls. |
| ExecGpuHipRt.AfterLaunch | include/alpaka/exec/ExecGpuHipRt.hpp:402-409 | The calls after the launch start with a wait exactly when the queue is synchronous or the build is a debug build, so the asynchronous queue waits only in debug builds. The last call is the error check exactly in debug builds. |
| ExecGpuHipRt.GeometryExact | include/alpaka/exec/ExecGpuHipRt.hpp:312-317 | For an extent of at most three axes that fit in `unsigned int`, slot i is axis Dim-1-i, so x is the fastest axis. Slots i ≥ Dim are 1. |
| ExecGpuHipRt.GeometryVolume | include/alpaka/exec/ExecGpuHipRt.hpp:309-317 | The product of the three slots equals the extent's element count. |
| ExecGpuHipRt.LaunchWithinDeviceLimits | include/alpaka/exec/ExecGpuHipRt.hpp:333-339 | With a work division of at most three axes that passes the gate, every grid and block slot lies within the device's per-axis maximum, and the threads of a block lie within `maxThreadsPerBlock`. |
| Acc.CastIdx | include/alpaka/acc/AccGpuHipRt.hpp:178 | `static_cast<TIdx>` is the identity on values the index type holds, and never exceeds its maximum. |
| Acc.GetAccDevProps | include/alpaka/acc/AccGpuHipRt.hpp:167-199 | Axis j of the grid-block and block-thread maxima is hardware axis Dim-1-j of `maxGridSize` / `maxThreadsDim`, the last-Dim projection of the reversed triple. The block-thread count is `maxThreadsPerBlock`. The multiprocessor count passes through. Both counts and every thread-element axis are the index maximum. The definition is identical at AccHipRt.hpp:153-185. |
| Extents.ExtentVecEnd | include/alpaka/acc/AccGpuHipRt.hpp:180-184 | `getExtentVecEnd<Dim>` keeps the last Dim components, in order. |
| Extents.All | include/alpaka/acc/AccGpuHipRt.hpp:196 | `Vec::all(x)` has Dim components, all equal to x. |
| Acc.GetAccName | include/alpaka/acc/AccGpuHipRt.hpp:213-217 | The name starts with the accelerator's prefix and ends with '>'. |
| Acc.NatToString | include/alpaka/acc/AccGpuHipRt.hpp:216 | `std::to_string` produces decimal digits without a leading zero. |
| Acc.DecimalRoundTrip | include/alpaka/acc/AccGpuHipRt.hpp:216 | The digits of `std::to_string(n)` read back as n. |
| Acc.AccNameDim | include/alpaka/acc/AccHipRt.hpp:196-200 | The dimension can be read back from either accelerator's name. |
| Acc.AccNamesDiffer | include/alpaka/acc/AccHipRt.hpp:199 | An `AccHipRt` name is never an `AccGpuHipRt` name. |
| Histogram.Bitcount | example/histogram/src/main.cpp:70-78 | The five SWAR stages return the number of set bits of the 32-bit input. |
| Histogram.SwarIsOnes | example/histogram/src/main.cpp:72-76 | The composed stages equal the population count. |
| Histogram.OnesAtMost32 | example/histogram/src/main.cpp:70-78 | The population count of a 32-bit word is at most 32. |
| Histogram.PowerOfTwoTest | example/histogram/src/main.cpp:246 | `(A & (A-1)) == 0` holds exactly when A has at most one set bit, i.e. A is 0 or a power of two. |
| Histogram.NormalizeA | example/histogram/src/main.cpp:246-247 | A is replaced by 1 when it is 0 or a power of two, and kept otherwise. |
| Histogram.ComputeHistogramArgs | example/histogram/src/main.cpp:246-298 | The kernel receives the normalised A, end = 2^k and Aend = A·2^k modulo 2^32, so `Aend` wraps when A·2^k does not fit in 32 bits. |
| Histogram.ShiftedArgs | example/histogram/src/main.cpp:250-298 | For k < 32, `1u << k` is 2^k, and `A << k` is A·2^k modulo 2^32. |
| Histogram.ShlValue | example/histogram/src/main.cpp:298 | A 32-bit unsigned `x << k` with k < 32 is x·2^k modulo 2^32. |
| Histogram.ShlOne | example/histogram/src/main.cpp:298 | A one-bit shift of a 32-bit unsigned value doubles it modulo 2^32. |
| Histogram.ExampleArgs | example/histogram/src/main.cpp:334-335 | With k = 16 and A = 61, A stays 61, end = 65536 and Aend = 3997696, and no 32-bit arithmetic of the kernels wraps. |
| Histogram.VisitsExactly | example/histogram/src/main.cpp:143-147 | A grid-striding thread visits exactly the i < end with i ≡ threadIdx (mod numThreads). |
| Histogram.ProgressionIncreasing | example/histogram/src/main.cpp:145-147 | The indices of a grid-striding thread are visited in increasing order. |
| Histogram.ProgressionMembers | example/histogram/src/main.cpp:145-150 | `for (x = start; x < bound; x += step)` visits exactly the x in [start, bound) with x ≡ start (mod step). |
| Histogram.PartnersExactly | example/histogram/src/main.cpp:149-150 | For w = A·i, the inner loop's v are exactly the multiples of A above w and below Aend. |
| Histogram.InnerCounts | example/histogram/src/main.cpp:150-153 | The inner loop adds to local bin c, modulo 2^32, the number of visited v whose bin for (w, v) is c. |
| Histogram.CountBelow32 | example/histogram/src/main.cpp:150-153 | Without wrap-around, no local bin reaches 2^32 in one iteration. |
| Histogram.CountPartners | example/histogram/src/main.cpp:150-153 | The inner `v` loop on the local array counts every partner into its bin. |
| Histogram.AddLocal | example/histogram/src/main.cpp:155-158 | Only global bins 1 .. Bins-1 receive the local counts, modulo 2^64. Bin 0 is not written. |
| Histogram.Monolithic | example/histogram/src/main.cpp:193-206 | A thread with i ≥ end leaves the histogram unchanged. Bin 0 is never changed. |
| Histogram.MonolithicCounts | example/histogram/src/main.cpp:193-206 | A monolithic thread with i < end adds to every bin c ≥ 1 the number of partners of w = A·i in bin c. |
| Histogram.MonolithicKernel | example/histogram/src/main.cpp:191-206 | The monolithic kernel on arrays, with a fresh zeroed local histogram, performs `Monolithic`. |
| Histogram.StridingAsWritten | example/histogram/src/main.cpp:141-159 | The grid-striding thread as written, whose local histogram carries over from one index to the next, never changes global bin 0 and keeps the histogram's size. |
| Histogram.StridingIteration | example/histogram/src/main.cpp:149-158 | One iteration of the loop on the arrays (inner loop, then the adds) leaves a state from which the rest of the as-written loop ends where the whole loop would have. |
| Histogram.GridStridingKernel | example/histogram/src/main.cpp:141-159 | The as-written grid-striding kernel on arrays performs `StridingAsWritten` from a zeroed local histogram. |
| Histogram.OneVisitAgrees | example/histogram/src/main.cpp:141-159 | A thread that visits at most one index gets the same result from the as-written and corrected kernels as from the monolithic one. |
| Histogram.AsWrittenCountsTwice | example/histogram/src/main.cpp:141-159 | One thread, end = 2, A = 1, Aend = 2: as written, bin 1 ends at 2, although only the pair (0, 1) exists. The corrected kernel gives 1. |
| Histogram.Striding | example/histogram/src/main.cpp:141-159 | The corrected grid-striding thread, with the local histogram cleared per index, never changes bin 0. |
| Histogram.StridingIsMonolithicPerVisit | example/histogram/src/main.cpp:143-159 | The corrected grid-striding thread does exactly what the monolithic kernel does for each index it visits, in order. |
| TestBuffer.Buffer.constructor | test/unit/math/mathOps/include/Buffer.hpp:39-64 | Both buffers are freshly allocated with count × extent elements. |
| TestBuffer.SlotInRange | test/unit/math/mathOps/include/Buffer.hpp:98 | For idx < extent and offset < count, the slot offset·extent + idx is below size. |
| TestBuffer.SlotInjective | test/unit/math/mathOps/include/Buffer.hpp:113 | Distinct (offset, idx) pairs with idx < extent address distinct slots. |
| TestBuffer.Coords | test/unit/math/mathOps/include/Buffer.hpp:96-98 | Every slot below size belongs to exactly one (offset, idx) in range: the inverse of the slot formula. |
| TestBuffer.CoordsOfSlot | test/unit/math/mathOps/include/Buffer.hpp:96-98 | The inverse undoes the slot formula for every in-range pair. |
| TestBuffer.Buffer.SetArg | test/unit/math/mathOps/include/Buffer.hpp:110-114 | `setArg` writes exactly the slot offset·extent + idx, and the host `getArg` then returns arg. All other slots are unchanged. |
| TestBuffer.Buffer.CopyToDevice | test/unit/math/mathOps/include/Buffer.hpp:68-77 | All count × extent host elements replace the device elements, and the host is unchanged. |
| TestBuffer.Buffer.CopyFromDevice | test/unit/math/mathOps/include/Buffer.hpp:80-89 | All count × extent device elements replace the host elements, and the device is unchanged. |
| TestBuffer.SetThenCopy | test/unit/math/mathOps/include/Buffer.hpp:68-114 | The device `getArg` reads back the argument that `setArg` wrote on the host before `copyToDevice`. |

## Left out

**Runtimes, concurrency and I/O**

- HIP runtime calls (`hipSetDevice`, `hipMemcpy*`, `hipLaunchKernel`, `hipStreamSynchronize`, `hipGetDeviceProperties`) are modelled as call values. Copies get the byte semantics above. The device properties are an input record.
- Every HIP runtime call is assumed to succeed. In the source, `ALPAKA_HIP_RT_CHECK` throws when `hipSetDevice` (ExecGpuHipRt.hpp:377-379, 517-519), a `hipMemcpy*` (Copy.hpp:776-799, 839-861, 904-917, 975-987) or `hipGetDeviceProperties` (AccGpuHipRt.hpp:172) fails. `ExecGpuHipRt.Enqueue`, `HipCopy.Enqueue`, `HipCopy.EnqueueCopiesRegion` and `Acc.GetAccDevProps` do not model these exceptions. The return value of `hipLaunchKernel` is not checked by the source either. A failed launch surfaces only through the last-error check of debug builds, which is modelled as the call `CheckLastError`, not as its outcome.
- ExecGpuHipRt.AfterLaunch: the asynchronous queue's debug wait calls `hipQueueSynchronize` (ExecGpuHipRt.hpp:405). That is not a HIP runtime function and is defined nowhere in this model's sources. Under the same `ALPAKA_DEBUG >= ALPAKA_DEBUG_MINIMAL` guard the header includes `<ioqueue>` (ExecGpuHipRt.hpp:67-69), which is not a standard header. So the debug build of this path does not compile as written. The model assumes the wait is `hipStreamSynchronize`, as in the synchronous queue (ExecGpuHipRt.hpp:542-543).
- Queues and the CPU stream's worker thread are modelled as the sequence of calls or tasks they receive. There is no concurrency, and no interleaving with other host work.
- Atomic adds in the kernels are sequential updates. Threads run one after another.
- `printDebug`, `std::cout` logging, timing (`measureKernelRunTimeMs`) and the `floor(log(A)/log(2.0))` bin estimate are left out: I/O, clocks and floating point.
- The kernel's dynamic shared memory size and `typeid(...).name()` are parameters, because they come from other traits and the compiler.

**Set and copy**

- HipCopy.MakeTaskCopy: the width in bytes is the exact product extent width × element size. The source stores it in an `Idx` (`m_extentWidthBytes`, Copy.hpp:111, 194 and 310), where the product wraps at `Idx`'s width. The 1D enqueue then passes the wrapped value to `hipMemcpy*` as the byte count. With a 32-bit unsigned `Idx`, a 1D copy of 2^30 four-byte elements records 0 bytes and copies nothing. The model does not cover copies whose width in bytes reaches 2^bits of `Idx`. For those, `Enqueue1DCopiesRegion`, `EnqueueCopiesRegion`, `EnqueueWritesRows` and `HipCopy.Enqueue` claim the full copy, which the source does not make.
- HipCopy.CopyPre: requires the extent bounds and width-in-bytes ≤ pitch in every build. In the source these are `assert`s compiled only under `ALPAKA_DEBUG >= ALPAKA_DEBUG_FULL` (Copy.hpp:115-117, 210-216, 332-340). A release build accepts a width in bytes above the pitch and passes it on to the HIP runtime, whose call then fails. The model says nothing about such copies.
- The commented-out 3D copy parameter builders and the 3D enqueue in `Copy.hpp` are dead code, so a 3D task can be built but not enqueued.
- CpuSet.SetPre: also requires the view to hold fewer than 2^32 bytes (slice·depth < 2^32). `set` computes its lengths and offsets in `std::uint32_t` (`UInt`, core/Common.hpp:108), and above that size they wrap: a view of pitch 65536 and height 65536 gets a whole-slice memset of 0 bytes. The model does not cover views of 2^32 bytes or more, so `CpuSet.Set`, `SetExact`, `SetFillsExtent` and `SetStaysInExtentSlices` say nothing about them. It also requires the widths, heights and depths of the view and of its buffer (`getBuf`, Set.hpp:98-100) to be below 2^32, because `set` reads them with `getWidth<UInt>`/`getHeight<UInt>`, which truncate, and its path choice compares the truncated values. `CpuSet.SetLengthsFit` states that below these bounds none of the 32-bit quantities wraps.
- CpuSet.OffsetInStorage: the slice stride is the row pitch times the view's own height, exactly as `set` computes `uiDstSliceSizeBytes` (Set.hpp:96). For a 3D sub-view shorter than its buffer, the memory's real slice stride may be the pitch times the buffer's height, and then the source's offsets z·slice (Set.hpp:143, 152) address other bytes. The model follows the source's arithmetic and does not model the buffer's own memory layout, so it cannot tell these cases apart.
- `CpuSet.RunSetTask`: the async set also captures `&buf` by reference. Only the byte's lifetime is modelled, not the buffer's.

**Executor and accelerator limits**

- The kernel entry `hipKernel` (construction of the accelerator from the thread-element extent, and the kernel call) is not modelled beyond the extent being passed to the launch unchanged.
- `isValidWorkDiv` is not part of this model's sources. `WorkDiv.IsValidWorkDiv` states it from its documented meaning: positive extents, each axis within the per-axis maximum, and each product within the count maximum.
- `getExtentVecEnd` is not part of this model's sources. It is taken to keep the last Dim components.
- `Acc.GetAccDevProps` and `ExecGpuHipRt.LaunchWithinDeviceLimits` are restricted to Dim ≤ 3. `LaunchWithinDeviceLimits` also assumes index types of at most 32 bits.
- Acc.CastIdx: models an unsigned `TIdx` only (maximum 2^bits − 1, casts reduce modulo 2^bits). For a signed `TIdx` the maximum is 2^(bits−1) − 1 and negative values exist; the model does not cover that case.
- Acc.GetAccDevProps: states the limits for an unsigned `TIdx` only. For a signed `TIdx`, `gridBlockCountMax`, `threadElemExtentMax` and `threadElemCountMax` would be 2^(bits−1) − 1, which the model does not state.

**Histogram kernels**

- `Bitcount<TAcc>` is a parameter of the kernels (`BinFn`). It is instantiated with the SWAR `bitcount` (`Histogram.Bin`), which is proved equal to the population count. `__builtin_popcount` and `__popc` compute that same count by their documentation, and are not modelled separately.
- Histogram kernels: the arguments `n` and `offset` are unused by the source and are not modelled.
- An increment of `hist_local` past `TBins` is undefined behaviour in the source. It is dropped in the model.
- Histogram.NoWrap: the kernels' `uint_t` arithmetic (`A*i`, `v += A`, `i += num_threads`) is modelled without 32-bit wrap-around, under the `NoWrap`/`StrideNoWrap` preconditions. With wrap-around the source's loops need not terminate.
- The claim that a power-of-two A "yields the same result as with A==1" is the source's own comment. It is not proved.

**Test buffer**

- TestBuffer.Buffer.SetArg requires the slot to be below `size`. The C++ does not check this and would write out of bounds.
- TestBuffer.Buffer.GetArg and TestBuffer.Buffer.GetArgDev are plain reads without contracts of their own. Their meaning is stated by `SetArg` and `SetThenCopy`.
- The test buffer's elements start at the element type's default value. The source leaves them uninitialised.

## Findings

| source | as written | input that shows it | evidently intended | confidence | as-written member | corrected member |
|---|---|---|---|---|---|---|
| example/histogram/src/main.cpp:141-159 | `hist_local` is zeroed once per thread and is added to `hist` after every iteration of the grid-striding loop, so the counts of earlier indices are added again | one thread, end = 2, A = 1, Aend = 2: bin 1 ends at 2 instead of 1 | each iteration adds only the counts of its own index, the same as the monolithic kernel | not executed | Histogram.AsWrittenCountsTwice | Histogram.StridingIsMonolithicPerVisit |
| include/alpaka/mem/buf/cpu/Set.hpp:177 | the deferred task captures `&byte`, so it reads the caller's byte variable when the worker runs it | pass 7, then the variable holds 9 when the set task runs: 9 is written; a temporary byte is read after its lifetime | capture the byte by value, like `extents` | not executed | CpuSet.EnqueueSetAsWrittenReadsLateByte | CpuSet.EnqueueSetDefersSet |
| include/alpaka/mem/buf/hip/Copy.hpp:919-931 | the 2D enqueue between two devices has an empty branch (the 3D peer copy is commented out), so nothing is copied | 1×1 copy from device 1 (byte 5) to device 0 (byte 0): the destination stays 0 | copy the rows between the devices | not executed | HipCopy.AsWrittenPeer2DCopiesNothing | HipCopy.EnqueueCopiesRegion |
