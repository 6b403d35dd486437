/**
 * The histogram example: a SWAR population count, the argument setup of
 * `ComputeHistogram`, and the per-thread semantics of the grid-striding and
 * monolithic histogram kernels.
 *
 * For a thread index `i < end` and `w = A * i`, a kernel increments the local
 * bin `bitcount(w ^ v)` for every `v = w + A, w + 2A, ...` below `Aend`, then
 * adds its local bins `1 .. Bins - 1` atomically to the global histogram.
 * Threads run one after another here; the kernels' `uint_t` arithmetic is
 * modelled on `nat` under preconditions that rule out 32-bit wrap-around
 * (with wrap-around the source's loops need not terminate).
 */
module Histogram {
  import opened Arith

  // ---------------------------------------------------------------------------
  // bitcount

  /** Number of set bits of the low byte of `y`. */
  function Ones8(y: bv32): bv32
  {
    (y & 1) + ((y >> 1) & 1) + ((y >> 2) & 1) + ((y >> 3) & 1)
    + ((y >> 4) & 1) + ((y >> 5) & 1) + ((y >> 6) & 1) + ((y >> 7) & 1)
  }

  /** Number of set bits of `x`: the sum of its 32 bits, byte by byte. */
  function Ones(x: bv32): bv32
  {
    Ones8(x & 0xff) + Ones8((x >> 8) & 0xff) + Ones8((x >> 16) & 0xff) + Ones8((x >> 24) & 0xff)
  }

  /** The first three SWAR stages restricted to one byte. */
  function Lane3(y: bv32): bv32
  {
    var n1 := ((0xaa & y) >> 1) + (0x55 & y);
    var n2 := ((0xcc & n1) >> 2) + (0x33 & n1);
    ((0xf0 & n2) >> 4) + (0x0f & n2)
  }

  lemma LaneOnes(y: bv32)
    requires y < 256
    ensures Lane3(y) == Ones8(y)
  {
  }

  lemma Ones8AtMost8(y: bv32)
    ensures Ones8(y) <= 8
  {
  }

  /** One SWAR stage: the groups selected by `hi`, shifted down by `shift`, added to those selected by `lo`. */
  function Stage(n: bv32, hi: bv32, lo: bv32, shift: bv32): bv32
    requires shift < 32
  {
    ((hi & n) >> shift) + (lo & n)
  }

  /** The first three stages: bit counts of 2-, 4- and 8-bit groups. */
  function Stages123(x: bv32): bv32
  {
    Stage(Stage(Stage(x, 0xaaaaaaaa, 0x55555555, 1), 0xcccccccc, 0x33333333, 2), 0xf0f0f0f0, 0x0f0f0f0f, 4)
  }

  /** The last two stages: sums of 16- and 32-bit groups. */
  function Stages45(n: bv32): bv32
  {
    Stage(Stage(n, 0xff00ff00, 0x00ff00ff, 8), 0xffff0000, 0x0000ffff, 16)
  }

  /** The first three stages leave the bit count of each byte in that byte. */
  lemma Lanes(x: bv32)
    ensures Stages123(x) == Lane3(x & 0xff) | (Lane3((x >> 8) & 0xff) << 8)
                            | (Lane3((x >> 16) & 0xff) << 16) | (Lane3((x >> 24) & 0xff) << 24)
  {
  }

  lemma LanesOnes(x: bv32)
    ensures Stages123(x) == Ones8(x & 0xff) | (Ones8((x >> 8) & 0xff) << 8)
                            | (Ones8((x >> 16) & 0xff) << 16) | (Ones8((x >> 24) & 0xff) << 24)
  {
    Lanes(x);
    LaneOnes(x & 0xff);
    LaneOnes((x >> 8) & 0xff);
    LaneOnes((x >> 16) & 0xff);
    LaneOnes((x >> 24) & 0xff);
  }

  /** The last two stages add the four byte counts. */
  lemma Final(a: bv32, b: bv32, c: bv32, d: bv32)
    requires a <= 8 && b <= 8 && c <= 8 && d <= 8
    ensures Stages45(a | (b << 8) | (c << 16) | (d << 24)) == a + b + c + d
  {
  }

  /**
   * After the first three stages the bytes of `x` hold the counts `a .. d`,
   * each at most 8, whose sum is the number of set bits of `x`.
   */
  predicate Packed(x: bv32, a: bv32, b: bv32, c: bv32, d: bv32)
  {
    && Stages123(x) == a | (b << 8) | (c << 16) | (d << 24)
    && a <= 8 && b <= 8 && c <= 8 && d <= 8
    && Ones(x) == a + b + c + d
  }

  lemma OnesByBytes(x: bv32)
    ensures Ones(x) == Ones8(x & 0xff) + Ones8((x >> 8) & 0xff) + Ones8((x >> 16) & 0xff) + Ones8((x >> 24) & 0xff)
  {
  }

  lemma PackedByteCounts(x: bv32)
    ensures Packed(x, Ones8(x & 0xff), Ones8((x >> 8) & 0xff), Ones8((x >> 16) & 0xff), Ones8((x >> 24) & 0xff))
  {
    LanesOnes(x);
    Ones8AtMost8(x & 0xff);
    Ones8AtMost8((x >> 8) & 0xff);
    Ones8AtMost8((x >> 16) & 0xff);
    Ones8AtMost8((x >> 24) & 0xff);
    OnesByBytes(x);
  }

  lemma PackedSum(x: bv32, a: bv32, b: bv32, c: bv32, d: bv32)
    requires Packed(x, a, b, c, d)
    ensures Stages45(Stages123(x)) == Ones(x)
  {
    Final(a, b, c, d);
  }

  /** The five SWAR stages of `bitcount` compute the number of set bits. */
  lemma SwarIsOnes(x: bv32)
    ensures Stages45(Stages123(x)) == Ones(x)
  {
    PackedByteCounts(x);
    PackedSum(x, Ones8(x & 0xff), Ones8((x >> 8) & 0xff), Ones8((x >> 16) & 0xff), Ones8((x >> 24) & 0xff));
  }

  /** `bitcount`: five SWAR stages, each adding neighbouring bit groups. */
  method Bitcount(n0: bv32) returns (n: bv32)
    ensures n == Ones(n0)
  {
    n := n0;
    n := Stage(n, 0xaaaaaaaa, 0x55555555, 1);
    n := Stage(n, 0xcccccccc, 0x33333333, 2);
    n := Stage(n, 0xf0f0f0f0, 0x0f0f0f0f, 4);
    n := Stage(n, 0xff00ff00, 0x00ff00ff, 8);
    n := Stage(n, 0xffff0000, 0x0000ffff, 16);
    SwarIsOnes(n0);
  }

  lemma OnesAtMost32(x: bv32)
    ensures Ones(x) <= 32
  {
    Ones8AtMost8(x & 0xff);
    Ones8AtMost8((x >> 8) & 0xff);
    Ones8AtMost8((x >> 16) & 0xff);
    Ones8AtMost8((x >> 24) & 0xff);
  }

  /** `A & (A - 1)` clears the lowest set bit: it is zero exactly when `A` has at most one set bit. */
  lemma PowerOfTwoTest(a: bv32)
    ensures (a & (a - 1) == 0) <==> Ones(a) <= 1
  {
  }

  // ---------------------------------------------------------------------------
  // ComputeHistogram: normalisation of A and the kernel bounds

  /** `A` is replaced by 1 when it is zero or a power of two. */
  function NormalizeA(a: bv32): (r: bv32)
    ensures Ones(a) <= 1 ==> r == 1
    ensures Ones(a) > 1 ==> r == a
  {
    PowerOfTwoTest(a);
    if a & (a - 1) == 0 then 1 else a
  }

  /** `1u << k` and `A << k` on 32-bit unsigned values: multiplication by 2^k modulo 2^32. */
  method ComputeHistogramArgs(k: bv32, a0: bv32) returns (a: bv32, end: bv32, aEnd: bv32)
    requires k < 32
    ensures a == NormalizeA(a0)
    ensures end as int == Pow2(k as nat)
    ensures aEnd as int == (a as int * Pow2(k as nat)) % U32
  {
    a := a0;
    if a & (a - 1) == 0 {
      a := 1;
    }
    end := 1 << k;
    aEnd := a << k;
    ShiftedArgs(a, k);
  }

  /** The values of the two shifts of `ComputeHistogramArgs`. */
  lemma ShiftedArgs(a: bv32, k: bv32)
    requires k < 32
    ensures ((1 as bv32) << k) as int == Pow2(k as nat)
    ensures (a << k) as int == (a as int * Pow2(k as nat)) % U32
  {
    EndValue(k);
    ShlValue(a, k);
  }

  /** `1u << k` is 2^k: for k < 32 it does not wrap. */
  lemma EndValue(k: bv32)
    requires k < 32
    ensures ((1 as bv32) << k) as int == Pow2(k as nat)
  {
    var p := Pow2(k as nat);
    ShlValue(1, k);
    assert ((1 as bv32) << k) as int == p % U32;
    Pow2Below32(k as nat);
    ModBelow(p);
  }

  lemma ModBelow(m: nat)
    requires m < U32
    ensures m % U32 == m
  {
  }

  lemma ModOnce(m: nat)
    requires U32 <= m < 2 * U32
    ensures m % U32 == m - U32
  {
  }

  lemma ModTwice(m: nat)
    ensures ((m % U32) * 2) % U32 == (m * 2) % U32
  {
    var q := m / U32;
    var r := m % U32;
    assert m == q * U32 + r;
    if r * 2 < U32 {
      ModOf(m * 2, U32, q * 2, r * 2);
      ModBelow(r * 2);
    } else {
      ModOf(m * 2, U32, q * 2 + 1, r * 2 - U32);
      ModOnce(r * 2);
    }
  }

  lemma Pow2Below32(n: nat)
    requires n < 32
    ensures Pow2(n) < U32
  {
    Pow2Mono(n, 31);
    Pow2Widths();
  }

  lemma ShlOneNoCarry(y: bv32)
    requires y < 0x8000_0000
    ensures (y << 1) as int == y as int * 2
  {
  }

  lemma ShlOneDropsTop(y: bv32)
    requires y >= 0x8000_0000
    ensures (y - 0x8000_0000) as int == y as int - 0x8000_0000
    ensures (y - 0x8000_0000) << 1 == y << 1
  {
  }

  lemma ShlOneLow(y: bv32)
    requires y < 0x8000_0000
    ensures (y << 1) as int == (y as int * 2) % U32
  {
    ShlOneNoCarry(y);
    ModBelow(y as int * 2);
  }

  lemma ShlOneHigh(y: bv32)
    requires y >= 0x8000_0000
    ensures (y << 1) as int == (y as int * 2) % U32
  {
    ShlOneDropsTop(y);
    ShlOneNoCarry(y - 0x8000_0000);
    ModOnce(y as int * 2);
  }

  /** A one-bit shift doubles modulo 2^32. */
  lemma ShlOne(y: bv32)
    ensures (y << 1) as int == (y as int * 2) % U32
  {
    if y < 0x8000_0000 {
      ShlOneLow(y);
    } else {
      ShlOneHigh(y);
    }
  }

  /** `k` one-bit shifts. */
  function ShlBy(x: bv32, k: nat): bv32
  {
    if k == 0 then x else ShlBy(x, k - 1) << 1
  }

  /** `k` doublings modulo 2^32. */
  function ShlVal(xi: nat, k: nat): nat
  {
    if k == 0 then xi % U32 else (ShlVal(xi, k - 1) * 2) % U32
  }

  lemma ShlStep(x: bv32, k: bv32)
    requires 0 < k < 32
    ensures x << k == (x << (k - 1)) << 1
  {
  }

  lemma {:induction false} ShlIsShlBy(x: bv32, k: bv32)
    requires k < 32
    ensures x << k == ShlBy(x, k as nat)
    decreases k
  {
    if k > 0 {
      ShlStep(x, k);
      ShlIsShlBy(x, k - 1);
    }
  }

  lemma ShlByUnfold(x: bv32, k: nat)
    requires k > 0
    ensures ShlBy(x, k) as int == (ShlBy(x, k - 1) << 1) as int
  {
  }

  lemma {:induction false} ShlByVal(x: bv32, k: nat)
    ensures ShlBy(x, k) as int == ShlVal(x as int, k)
  {
    if k == 0 {
      ModBelow(x as int);
    } else {
      ShlByVal(x, k - 1);
      ShlByUnfold(x, k);
      ShlOne(ShlBy(x, k - 1));
    }
  }

  lemma DoubleStep(xi: nat, k: nat, yi: nat, r: nat)
    requires k > 0 && yi == (xi * Pow2(k - 1)) % U32 && r == (yi * 2) % U32
    ensures r == (xi * Pow2(k)) % U32
  {
    ModTwice(xi * Pow2(k - 1));
    assert xi * Pow2(k - 1) * 2 == xi * Pow2(k);
  }

  lemma {:induction false} ShlValIsMul(xi: nat, k: nat)
    ensures ShlVal(xi, k) == (xi * Pow2(k)) % U32
  {
    if k > 0 {
      ShlValIsMul(xi, k - 1);
      DoubleStep(xi, k, ShlVal(xi, k - 1), ShlVal(xi, k));
    }
  }

  /** An unsigned 32-bit `x << k` with `k < 32` is `x * 2^k` modulo 2^32. */
  lemma ShlValue(x: bv32, k: bv32)
    requires k < 32
    ensures (x << k) as int == (x as int * Pow2(k as nat)) % U32
  {
    ShlIsShlBy(x, k);
    ShlByVal(x, k as nat);
    ShlValIsMul(x as int, k as nat);
  }

  /** With the example's `k = 16` and `A = 61`: A stays 61, `end = 65536` and `Aend = 3997696`. */
  lemma ExampleArgs()
    ensures NormalizeA(61) == 61
    ensures ((1 as bv32) << 16) as int == 65536 && ((61 as bv32) << 16) as int == 3997696
    ensures NoWrap(61, 65536, 3997696)
  {
    assert Ones(61) == 5;
  }

  // ---------------------------------------------------------------------------
  // Index progressions

  /** `start, start + step, ...` below `bound`: the `i` of a grid-striding thread, or the `v` of the inner loop. */
  function Progression(start: nat, step: nat, bound: nat): (r: seq<nat>)
    requires step >= 1
    ensures forall j :: 0 <= j < |r| ==> start <= r[j] < bound
    decreases bound - start
  {
    if start >= bound then [] else [start] + Progression(start + step, step, bound)
  }

  lemma ProgressionCons(start: nat, step: nat, bound: nat)
    requires step >= 1 && start < bound
    ensures Progression(start, step, bound) == [start] + Progression(start + step, step, bound)
  {
  }

  lemma {:induction false} ProgressionLength(start: nat, step: nat, bound: nat)
    requires step >= 1
    ensures start >= bound ==> Progression(start, step, bound) == []
    ensures start < bound ==> |Progression(start, step, bound)| <= bound - start
    decreases bound - start
  {
    if start < bound {
      ProgressionLength(start + step, step, bound);
    }
  }

  /** `y % step` as the unique remainder of a decomposition `q * step + r`. */
  lemma ModOf(y: nat, step: nat, q: nat, r: nat)
    requires r < step && y == q * step + r
    ensures y % step == r
  {
    BlockUnique(y / step, y % step, q, r, step);
  }

  lemma ModStep(y: nat, step: nat)
    requires step >= 1
    ensures y < step ==> (y % step == 0 <==> y == 0)
    ensures y >= step ==> (y - step) % step == y % step
  {
    if y < step {
      ModOf(y, step, 0, y);
    } else {
      var q, r := y / step, y % step;
      assert q != 0;
      assert y - step == (q - 1) * step + r;
      ModOf(y - step, step, q - 1, r);
    }
  }

  /** A progression holds exactly the values `start + j * step` below `bound`. */
  lemma {:induction false} ProgressionMembers(start: nat, step: nat, bound: nat, x: nat)
    requires step >= 1
    ensures x in Progression(start, step, bound) <==> start <= x < bound && (x - start) % step == 0
    decreases bound - start
  {
    if start < bound {
      ProgressionMembers(start + step, step, bound, x);
      if x >= start {
        ModStep(x - start, step);
      }
    }
  }

  /** A progression is strictly increasing. */
  lemma {:induction false} ProgressionIncreasing(start: nat, step: nat, bound: nat, j: nat, k: nat)
    requires step >= 1 && j < k < |Progression(start, step, bound)|
    ensures Progression(start, step, bound)[j] < Progression(start, step, bound)[k]
    decreases bound - start
  {
    var r := Progression(start, step, bound);
    assert r[k] in Progression(start + step, step, bound);
    if j > 0 {
      ProgressionIncreasing(start + step, step, bound, j - 1, k - 1);
    }
  }

  /** The indices a grid-striding thread visits. */
  function Visits(tid: nat, numThreads: nat, end: nat): seq<nat>
    requires numThreads >= 1
  {
    Progression(tid, numThreads, end)
  }

  lemma ResidueOf(x: nat, tid: nat, n: nat)
    requires tid < n
    ensures (x >= tid && (x - tid) % n == 0) <==> x % n == tid
  {
    if x % n == tid {
      assert x - tid == (x / n) * n;
      ModOf(x - tid, n, x / n, 0);
    }
    if x >= tid && (x - tid) % n == 0 {
      assert x == ((x - tid) / n) * n + tid;
      ModOf(x, n, (x - tid) / n, tid);
    }
  }

  /** Thread `tid` of `numThreads` visits exactly the `i < end` with `i % numThreads == tid`. */
  lemma VisitsExactly(tid: nat, numThreads: nat, end: nat, x: nat)
    requires tid < numThreads
    ensures x in Visits(tid, numThreads, end) <==> x < end && x % numThreads == tid
  {
    ProgressionMembers(tid, numThreads, end, x);
    ResidueOf(x, tid, numThreads);
  }

  // ---------------------------------------------------------------------------
  // Local and global histograms

  /**
   * How a kernel bins the pair `(w, v)`: `Bitcount<TAcc>()(w ^ v)`, the
   * popcount functor of the accelerator (the SWAR `bitcount` by default).
   */
  type BinFn = (nat, nat) -> nat

  /** The bin of the pair `(w, v)`: `bitcount(w ^ v)` on their 32-bit `uint_t` values. */
  function Bin(w: nat, v: nat): nat
  {
    Ones(Word(w) ^ Word(v)) as nat
  }

  /** The `uint_t` value of `x`: its residue modulo 2^32. */
  function Word(x: nat): bv32
  {
    (x % U32) as bv32
  }

  /** `++hist_local[b]` on a `uint_t` bin; an index past the array is left out of the model. */
  function Inc(h: seq<nat>, b: nat): (r: seq<nat>)
    ensures |r| == |h|
  {
    if b < |h| then h[b := (h[b] + 1) % U32] else h
  }

  /** The bins of the pairs `(w, v)`, `v` in `vs`, in order. */
  function BinsOf(bin: BinFn, w: nat, vs: seq<nat>): (r: seq<nat>)
    ensures |r| == |vs|
    decreases |vs|
  {
    if vs == [] then [] else [bin(w, vs[0])] + BinsOf(bin, w, vs[1..])
  }

  /** `++h[b]` for every `b` of `bs`, in order. */
  function IncAll(h: seq<nat>, bs: seq<nat>): (r: seq<nat>)
    ensures |r| == |h|
    decreases |bs|
  {
    if bs == [] then h else IncAll(Inc(h, bs[0]), bs[1..])
  }

  /** How many entries of `bs` are `c`. */
  function CountOf(bs: seq<nat>, c: nat): nat
    decreases |bs|
  {
    if bs == [] then 0 else (if bs[0] == c then 1 else 0) + CountOf(bs[1..], c)
  }

  /** The inner loop: the bins of `(w, v)` for every `v` of `vs`, counted in order. */
  function Inner(bin: BinFn, h: seq<nat>, w: nat, vs: seq<nat>): (r: seq<nat>)
    ensures |r| == |h|
  {
    IncAll(h, BinsOf(bin, w, vs))
  }

  /** How many `v` of `vs` put the pair `(w, v)` into bin `c`. */
  function Count(bin: BinFn, w: nat, vs: seq<nat>, c: nat): nat
  {
    CountOf(BinsOf(bin, w, vs), c)
  }

  /** One more partner `v` in front: its bin is incremented first. */
  lemma InnerCons(bin: BinFn, h: seq<nat>, w: nat, v: nat, vs: seq<nat>)
    ensures Inner(bin, h, w, [v] + vs) == Inner(bin, Inc(h, bin(w, v)), w, vs)
  {
    var s := [v] + vs;
    assert s[0] == v && s[1..] == vs;
    var bs := BinsOf(bin, w, s);
    assert bs[0] == bin(w, v) && bs[1..] == BinsOf(bin, w, vs);
  }

  /** One iteration of the inner loop at `v < Aend`. */
  lemma InnerStep(bin: BinFn, h: seq<nat>, w: nat, v: nat, a: nat, aEnd: nat)
    requires a >= 1 && v < aEnd
    ensures Inner(bin, h, w, Progression(v, a, aEnd)) == Inner(bin, Inc(h, bin(w, v)), w, Progression(v + a, a, aEnd))
  {
    ProgressionCons(v, a, aEnd);
    InnerCons(bin, h, w, v, Progression(v + a, a, aEnd));
  }

  lemma ModAddMod(a: nat, b: nat)
    ensures (a % U32 + b) % U32 == (a + b) % U32
  {
  }

  lemma {:induction false} CountOfAtMost(bs: seq<nat>, c: nat)
    ensures CountOf(bs, c) <= |bs|
    decreases |bs|
  {
    if bs != [] {
      CountOfAtMost(bs[1..], c);
    }
  }

  /** Every entry increments its own bin once; counts wrap at 2^32. */
  lemma {:induction false} IncAllCounts(h: seq<nat>, bs: seq<nat>, c: nat)
    requires c < |h| && h[c] < U32
    ensures IncAll(h, bs)[c] == (h[c] + CountOf(bs, c)) % U32
    decreases |bs|
  {
    if bs != [] {
      var h1 := Inc(h, bs[0]);
      var k := CountOf(bs[1..], c);
      IncAllCounts(h1, bs[1..], c);
      assert IncAll(h, bs)[c] == (h1[c] + k) % U32;
      assert CountOf(bs, c) == (if bs[0] == c then 1 else 0) + k;
      if bs[0] == c {
        assert h1[c] == (h[c] + 1) % U32;
        ModAddMod(h[c] + 1, k);
      } else {
        assert h1[c] == h[c];
      }
    }
  }

  /** Bin `c` of the local histogram grows by the number of partners in bin `c`, modulo 2^32. */
  lemma InnerCounts(bin: BinFn, h: seq<nat>, w: nat, vs: seq<nat>, c: nat)
    requires c < |h| && h[c] < U32
    ensures Inner(bin, h, w, vs)[c] == (h[c] + Count(bin, w, vs, c)) % U32
  {
    IncAllCounts(h, BinsOf(bin, w, vs), c);
  }

  /** The atomic adds of the local bins `1 .. |hist| - 1` into the `unsigned long long` histogram. */
  function AddBins(hist: seq<nat>, local: seq<nat>): (r: seq<nat>)
    requires |local| == |hist|
    ensures |r| == |hist|
  {
    seq(|hist|, c requires 0 <= c < |hist| => if c == 0 then hist[c] else (hist[c] + local[c]) % U64)
  }

  function Zeros(n: nat): (r: seq<nat>)
    ensures |r| == n
  {
    seq(n, c => 0)
  }

  /** Kernel arguments whose `uint_t` arithmetic does not wrap: `A * i`, `v + A` stay below 2^32. */
  predicate NoWrap(a: nat, end: nat, aEnd: nat)
  {
    1 <= a && a * end < U32 && aEnd + a <= U32
  }

  /** `i += num_threads` stays below 2^32. */
  predicate StrideNoWrap(numThreads: nat, end: nat)
  {
    1 <= numThreads && end + numThreads <= U32
  }

  lemma RowStart(a: nat, i: nat, end: nat)
    requires i < end
    ensures a * i + a <= a * end
  {
    StepAfter(i, end, a);
  }

  /** The partners `v` of `w = A * i`. */
  function Partners(a: nat, i: nat, aEnd: nat): seq<nat>
    requires a >= 1
  {
    Progression(a * i + a, a, aEnd)
  }

  /** The local histogram of index `i`, starting from `local`. */
  function LocalOf(bin: BinFn, local: seq<nat>, a: nat, i: nat, end: nat, aEnd: nat): (r: seq<nat>)
    requires NoWrap(a, end, aEnd) && i < end
    ensures |r| == |local|
  {
    RowStart(a, i, end);
    Inner(bin, local, a * i, Partners(a, i, aEnd))
  }

  lemma LocalOfUnfold(bin: BinFn, local: seq<nat>, a: nat, i: nat, end: nat, aEnd: nat)
    requires NoWrap(a, end, aEnd) && i < end
    ensures a * i < U32
    ensures LocalOf(bin, local, a, i, end, aEnd) == Inner(bin, local, a * i, Progression(a * i + a, a, aEnd))
  {
    RowStart(a, i, end);
  }

  /** The monolithic kernel for thread `i`: one iteration when `i < end`, nothing otherwise. */
  function Monolithic(bin: BinFn, hist: seq<nat>, i: nat, a: nat, end: nat, aEnd: nat): (r: seq<nat>)
    requires NoWrap(a, end, aEnd)
    ensures |r| == |hist|
    ensures |hist| > 0 ==> r[0] == hist[0]
    ensures i >= end ==> r == hist
  {
    if i < end then AddBins(hist, LocalOf(bin, Zeros(|hist|), a, i, end, aEnd)) else hist
  }

  /** The grid-striding kernel as written: `local` accumulates over the iterations and is added after each. */
  function StridingAsWritten(bin: BinFn, hist: seq<nat>, local: seq<nat>, i: nat, numThreads: nat, a: nat, end: nat, aEnd: nat)
    : (r: seq<nat>)
    requires NoWrap(a, end, aEnd) && StrideNoWrap(numThreads, end) && |local| == |hist|
    ensures |r| == |hist|
    ensures |hist| > 0 ==> r[0] == hist[0]
    decreases end - i
  {
    if i >= end then hist
    else
      var local1 := LocalOf(bin, local, a, i, end, aEnd);
      StridingAsWritten(bin, AddBins(hist, local1), local1, i + numThreads, numThreads, a, end, aEnd)
  }

  /** One iteration of the grid-striding loop as written. */
  lemma StridingAsWrittenStep(bin: BinFn, hist: seq<nat>, local: seq<nat>, i: nat, numThreads: nat, a: nat, end: nat, aEnd: nat)
    requires NoWrap(a, end, aEnd) && StrideNoWrap(numThreads, end) && |local| == |hist| && i < end
    ensures StridingAsWritten(bin, hist, local, i, numThreads, a, end, aEnd)
         == StridingAsWritten(bin, AddBins(hist, LocalOf(bin, local, a, i, end, aEnd)), LocalOf(bin, local, a, i, end, aEnd),
                              i + numThreads, numThreads, a, end, aEnd)
  {
  }

  /** The grid-striding kernel with the local histogram cleared for every index. */
  function Striding(bin: BinFn, hist: seq<nat>, i: nat, numThreads: nat, a: nat, end: nat, aEnd: nat): (r: seq<nat>)
    requires NoWrap(a, end, aEnd) && StrideNoWrap(numThreads, end)
    ensures |r| == |hist|
    ensures |hist| > 0 ==> r[0] == hist[0]
    decreases end - i
  {
    if i >= end then hist
    else Striding(bin, Monolithic(bin, hist, i, a, end, aEnd), i + numThreads, numThreads, a, end, aEnd)
  }

  /** The monolithic kernel run for each index of `idx`, in order. */
  function MonolithicEach(bin: BinFn, hist: seq<nat>, idx: seq<nat>, a: nat, end: nat, aEnd: nat): (r: seq<nat>)
    requires NoWrap(a, end, aEnd)
    ensures |r| == |hist|
    decreases |idx|
  {
    if idx == [] then hist else MonolithicEach(bin, Monolithic(bin, hist, idx[0], a, end, aEnd), idx[1..], a, end, aEnd)
  }

  /** A grid-striding thread does what the monolithic kernel does for each index it visits. */
  lemma {:induction false} StridingIsMonolithicPerVisit(bin: BinFn, hist: seq<nat>, i: nat, numThreads: nat, a: nat, end: nat,
                                                        aEnd: nat)
    requires NoWrap(a, end, aEnd) && StrideNoWrap(numThreads, end)
    ensures Striding(bin, hist, i, numThreads, a, end, aEnd) == MonolithicEach(bin, hist, Visits(i, numThreads, end), a, end, aEnd)
    decreases end - i
  {
    if i < end {
      var vs := Visits(i, numThreads, end);
      ProgressionCons(i, numThreads, end);
      assert vs[0] == i && vs[1..] == Visits(i + numThreads, numThreads, end);
      var h1 := Monolithic(bin, hist, i, a, end, aEnd);
      assert MonolithicEach(bin, hist, vs, a, end, aEnd) == MonolithicEach(bin, h1, vs[1..], a, end, aEnd);
      StridingIsMonolithicPerVisit(bin, h1, i + numThreads, numThreads, a, end, aEnd);
    }
  }

  /** A thread that visits at most one index is unaffected by the missing reset. */
  lemma OneVisitAgrees(bin: BinFn, hist: seq<nat>, tid: nat, numThreads: nat, a: nat, end: nat, aEnd: nat)
    requires NoWrap(a, end, aEnd) && StrideNoWrap(numThreads, end) && tid + numThreads >= end
    ensures StridingAsWritten(bin, hist, Zeros(|hist|), tid, numThreads, a, end, aEnd)
         == Striding(bin, hist, tid, numThreads, a, end, aEnd)
         == Monolithic(bin, hist, tid, a, end, aEnd)
  {
  }

  /**
   * One thread over `end = 2` indices with `A = 1`, `Aend = 2`: index 0 puts
   * the pair `(0, 1)` into bin 1 and index 1 has no pair, yet the kernel as
   * written adds the count of index 0 twice.
   */
  lemma AsWrittenCountsTwice()
    ensures StridingAsWritten(Bin, Zeros(2), Zeros(2), 0, 1, 1, 2, 2)[1] == 2
    ensures Striding(Bin, Zeros(2), 0, 1, 1, 2, 2)[1] == 1
  {
    assert Bin(0, 1) == 1;
    assert Partners(1, 0, 2) == [1];
    assert Partners(1, 1, 2) == [];
    var l0 := LocalOf(Bin, Zeros(2), 1, 0, 2, 2);
    assert l0 == [0, 1];
    assert LocalOf(Bin, l0, 1, 1, 2, 2) == l0;
    assert LocalOf(Bin, Zeros(2), 1, 1, 2, 2) == Zeros(2);
  }

  /** A progression member above `a * i + a` in steps of `a` is a multiple of `a`. */
  lemma MultipleAbove(a: nat, i: nat, x: nat)
    requires a >= 1 && x >= a * i + a && (x - (a * i + a)) % a == 0
    ensures x % a == 0
  {
    var q := (x - (a * i + a)) / a;
    assert x - (a * i + a) == q * a;
    assert x == (q + i + 1) * a;
    ModOf(x, a, q + i + 1, 0);
  }

  /** A multiple of `a` above `a * i` is at least `a * i + a`, in steps of `a` from there. */
  lemma MultipleFrom(a: nat, i: nat, x: nat)
    requires a >= 1 && a * i < x && x % a == 0
    ensures x >= a * i + a && (x - (a * i + a)) % a == 0
  {
    var q := x / a;
    assert x == q * a;
    if q <= i {
      MulLeRight(q, i, a);
    }
    assert q >= i + 1;
    assert x - (a * i + a) == (q - i - 1) * a;
    ModOf(x - (a * i + a), a, q - i - 1, 0);
  }

  lemma PartnerIsMultiple(a: nat, i: nat, aEnd: nat, x: nat)
    requires a >= 1 && x in Partners(a, i, aEnd)
    ensures a * i < x < aEnd && x % a == 0
  {
    ProgressionMembers(a * i + a, a, aEnd, x);
    MultipleAbove(a, i, x);
  }

  lemma MultipleIsPartner(a: nat, i: nat, aEnd: nat, x: nat)
    requires a >= 1 && a * i < x < aEnd && x % a == 0
    ensures x in Partners(a, i, aEnd)
  {
    MultipleFrom(a, i, x);
    ProgressionMembers(a * i + a, a, aEnd, x);
  }

  /** The partners of `w = A * i` are exactly the multiples of `A` above `w` and below `Aend`. */
  lemma PartnersExactly(a: nat, i: nat, aEnd: nat, x: nat)
    requires a >= 1
    ensures x in Partners(a, i, aEnd) <==> a * i < x < aEnd && x % a == 0
  {
    if x in Partners(a, i, aEnd) {
      PartnerIsMultiple(a, i, aEnd, x);
    }
    if a * i < x < aEnd && x % a == 0 {
      MultipleIsPartner(a, i, aEnd, x);
    }
  }

  /** No local bin of index `i` wraps: it counts fewer than 2^32 partners. */
  lemma CountBelow32(bin: BinFn, a: nat, i: nat, end: nat, aEnd: nat, c: nat)
    requires NoWrap(a, end, aEnd) && i < end
    ensures a * i < U32
    ensures Count(bin, a * i, Partners(a, i, aEnd), c) < U32
  {
    RowStart(a, i, end);
    ProgressionLength(a * i + a, a, aEnd);
    CountOfAtMost(BinsOf(bin, a * i, Partners(a, i, aEnd)), c);
  }

  /**
   * The monolithic kernel for an index `i < end` adds to every bin `c >= 1`
   * the number of partners `v` of `w = A * i` with `bitcount(w ^ v) == c`.
   */
  lemma MonolithicCounts(bin: BinFn, hist: seq<nat>, i: nat, a: nat, end: nat, aEnd: nat, c: nat)
    requires NoWrap(a, end, aEnd) && i < end && 1 <= c < |hist|
    ensures a * i < U32
    ensures Monolithic(bin, hist, i, a, end, aEnd)[c] == (hist[c] + Count(bin, a * i, Partners(a, i, aEnd), c)) % U64
  {
    MonolithicAt(bin, hist, i, a, end, aEnd, c);
    FreshLocalCounts(bin, |hist|, i, a, end, aEnd, c);
  }

  lemma MonolithicAt(bin: BinFn, hist: seq<nat>, i: nat, a: nat, end: nat, aEnd: nat, c: nat)
    requires NoWrap(a, end, aEnd) && i < end && 1 <= c < |hist|
    ensures Monolithic(bin, hist, i, a, end, aEnd)[c] == (hist[c] + LocalOf(bin, Zeros(|hist|), a, i, end, aEnd)[c]) % U64
  {
  }

  /** A fresh local histogram of index `i` holds in bin `c` the number of partners in bin `c`. */
  lemma FreshLocalCounts(bin: BinFn, n: nat, i: nat, a: nat, end: nat, aEnd: nat, c: nat)
    requires NoWrap(a, end, aEnd) && i < end && c < n
    ensures a * i < U32
    ensures LocalOf(bin, Zeros(n), a, i, end, aEnd)[c] == Count(bin, a * i, Partners(a, i, aEnd), c)
  {
    CountBelow32(bin, a, i, end, aEnd, c);
    InnerCounts(bin, Zeros(n), a * i, Partners(a, i, aEnd), c);
  }

  // ---------------------------------------------------------------------------
  // The kernels on arrays

  /** `++hist_local[b]`. */
  method IncBin(local: array<nat>, b: nat)
    modifies local
    ensures local[..] == Inc(old(local[..]), b)
  {
    if b < local.Length {
      local[b] := (local[b] + 1) % U32;
    }
  }

  /** The inner loop `for (v = w + A; v < Aend; v += A) ++hist_local[bitcount(w ^ v)]`. */
  method CountPartners(bin: BinFn, local: array<nat>, w: nat, a: nat, aEnd: nat)
    requires a >= 1 && w < U32 && aEnd <= U32
    modifies local
    ensures local[..] == Inner(bin, old(local[..]), w, Progression(w + a, a, aEnd))
  {
    var v := w + a;
    while v < aEnd
      invariant Inner(bin, local[..], w, Progression(v, a, aEnd)) == Inner(bin, old(local[..]), w, Progression(w + a, a, aEnd))
      decreases aEnd - v
    {
      InnerStep(bin, local[..], w, v, a, aEnd);
      var b := bin(w, v);
      IncBin(local, b);
      v := v + a;
    }
  }

  /** `atomicOp<Add>(hist + c, hist_local[c])` for `c = 1 .. Bins - 1`. */
  method AddLocal(hist: array<nat>, local: array<nat>)
    requires hist != local && local.Length == hist.Length
    modifies hist
    ensures hist[..] == AddBins(old(hist[..]), local[..])
  {
    var c := 1;
    while c < hist.Length
      invariant 1 <= c
      invariant forall k :: 0 <= k < hist.Length ==>
                  hist[k] == if 1 <= k < c then (old(hist[k]) + local[k]) % U64 else old(hist[k])
    {
      hist[c] := (hist[c] + local[c]) % U64;
      c := c + 1;
    }
  }

  /** `HistogramKernelMonolithic` for thread `i`, with a fresh local histogram of `Bins` bins. */
  method MonolithicKernel(bin: BinFn, hist: array<nat>, i: nat, a: nat, end: nat, aEnd: nat)
    requires NoWrap(a, end, aEnd)
    modifies hist
    ensures hist[..] == Monolithic(bin, old(hist[..]), i, a, end, aEnd)
  {
    var local := new nat[hist.Length](_ => 0);
    assert local[..] == Zeros(hist.Length);
    if i < end {
      RowStart(a, i, end);
      CountPartners(bin, local, a * i, a, aEnd);
      AddLocal(hist, local);
    }
  }

  /** One iteration of the grid-striding loop: the inner loop for `i`, then the atomic adds. */
  method StridingIteration(bin: BinFn, hist: array<nat>, local: array<nat>, i: nat, numThreads: nat, a: nat, end: nat, aEnd: nat)
    requires NoWrap(a, end, aEnd) && StrideNoWrap(numThreads, end) && i < end
    requires local != hist && local.Length == hist.Length
    modifies hist, local
    ensures StridingAsWritten(bin, hist[..], local[..], i + numThreads, numThreads, a, end, aEnd)
         == StridingAsWritten(bin, old(hist[..]), old(local[..]), i, numThreads, a, end, aEnd)
  {
    LocalOfUnfold(bin, local[..], a, i, end, aEnd);
    StridingAsWrittenStep(bin, hist[..], local[..], i, numThreads, a, end, aEnd);
    var w := a * i;
    CountPartners(bin, local, w, a, aEnd);
    AddLocal(hist, local);
  }

  /** `HistogramKernelGridStriding` for thread `tid` of `numThreads`, as written: one local histogram for all its indices. */
  method GridStridingKernel(bin: BinFn, hist: array<nat>, tid: nat, numThreads: nat, a: nat, end: nat, aEnd: nat)
    requires NoWrap(a, end, aEnd) && StrideNoWrap(numThreads, end)
    modifies hist
    ensures hist[..] == StridingAsWritten(bin, old(hist[..]), Zeros(hist.Length), tid, numThreads, a, end, aEnd)
  {
    var local := new nat[hist.Length](_ => 0);
    assert local[..] == Zeros(hist.Length);
    ghost var target := StridingAsWritten(bin, hist[..], local[..], tid, numThreads, a, end, aEnd);
    var i := tid;
    while i < end
      invariant local != hist && local.Length == hist.Length
      invariant StridingAsWritten(bin, hist[..], local[..], i, numThreads, a, end, aEnd) == target
      decreases end - i
    {
      StridingIteration(bin, hist, local, i, numThreads, a, end, aEnd);
      i := i + numThreads;
    }
  }
}
