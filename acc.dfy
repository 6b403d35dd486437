/**
 * The two HIP accelerators (`AccGpuHipRt` and `AccHipRt`): the limit record
 * built from a device's properties and the accelerator's name.
 */
module Acc {
  import opened Arith
  import opened Extents

  /** An unsigned index type `TIdx`: its width in bits and `typeid(TIdx).name()`. */
  datatype IdxType = IdxType(bits: nat, name: string)

  /** `std::numeric_limits<TIdx>::max()`. */
  function IdxMax(t: IdxType): nat
  {
    Pow2(t.bits) - 1
  }

  /** `static_cast<TIdx>` of an `int` into an unsigned index type: reduction modulo 2^bits. */
  function CastIdx(t: IdxType, x: int): (r: nat)
    ensures r <= IdxMax(t)
    ensures 0 <= x <= IdxMax(t) ==> r == x
  {
    var m := Pow2(t.bits);
    if 0 <= x < m then x else x % m
  }

  /** The fields of `hipDeviceProp_t` the limit record is built from. */
  datatype HipDeviceProp = HipDeviceProp(
    multiProcessorCount: int,
    maxGridSize: seq<int>,
    maxThreadsDim: seq<int>,
    maxThreadsPerBlock: int)

  /** `maxGridSize` and `maxThreadsDim` are `int[3]`, indexed x, y, z. */
  predicate WellFormed(p: HipDeviceProp)
  {
    |p.maxGridSize| == 3 && |p.maxThreadsDim| == 3
  }

  /** `AccDevProps<TDim, TIdx>`: the limits of an accelerator on one device. */
  datatype AccDevProps = AccDevProps(
    multiProcessorCount: nat,
    gridBlockExtentMax: Vec,
    gridBlockCountMax: nat,
    blockThreadExtentMax: Vec,
    blockThreadCountMax: nat,
    threadElemExtentMax: Vec,
    threadElemCountMax: nat)

  datatype AccKind = AccGpuHipRt | AccHipRt

  /** A hardware (x, y, z) triple as an index vector (z, y, x), each component cast to `TIdx`. */
  function ZYX(t: IdxType, a: seq<int>): Vec
    requires |a| == 3
  {
    [CastIdx(t, a[2]), CastIdx(t, a[1]), CastIdx(t, a[0])]
  }

  lemma ZYXEnd(dim: nat, t: IdxType, a: seq<int>)
    requires dim <= 3 && |a| == 3
    ensures forall j :: 0 <= j < dim ==> ExtentVecEnd(dim, ZYX(t, a))[j] == CastIdx(t, a[dim - 1 - j])
  {
    var z := ZYX(t, a);
    assert forall i :: 0 <= i < 3 ==> z[i] == CastIdx(t, a[2 - i]);
  }

  /**
   * `GetAccDevProps::getAccDevProps` (identical for both HIP accelerators).
   * Axis `j` of a `dim`-dimensional vector is hardware axis `dim - 1 - j`,
   * so the last (fastest) axis is hardware x.
   */
  function GetAccDevProps(dim: nat, t: IdxType, p: HipDeviceProp): (r: AccDevProps)
    requires dim <= 3 && WellFormed(p)
    ensures r.multiProcessorCount == CastIdx(t, p.multiProcessorCount)
    ensures |r.gridBlockExtentMax| == dim
    ensures forall j :: 0 <= j < dim ==> r.gridBlockExtentMax[j] == CastIdx(t, p.maxGridSize[dim - 1 - j])
    ensures r.gridBlockCountMax == IdxMax(t)
    ensures |r.blockThreadExtentMax| == dim
    ensures forall j :: 0 <= j < dim ==> r.blockThreadExtentMax[j] == CastIdx(t, p.maxThreadsDim[dim - 1 - j])
    ensures r.blockThreadCountMax == CastIdx(t, p.maxThreadsPerBlock)
    ensures |r.threadElemExtentMax| == dim
    ensures forall j :: 0 <= j < dim ==> r.threadElemExtentMax[j] == IdxMax(t)
    ensures r.threadElemCountMax == IdxMax(t)
  {
    ZYXEnd(dim, t, p.maxGridSize);
    ZYXEnd(dim, t, p.maxThreadsDim);
    AccDevProps(
      CastIdx(t, p.multiProcessorCount),
      ExtentVecEnd(dim, ZYX(t, p.maxGridSize)),
      IdxMax(t),
      ExtentVecEnd(dim, ZYX(t, p.maxThreadsDim)),
      CastIdx(t, p.maxThreadsPerBlock),
      All(dim, IdxMax(t)),
      IdxMax(t))
  }

  predicate IsDigit(c: char)
  {
    '0' <= c <= '9'
  }

  predicate AllDigits(s: string)
  {
    forall i :: 0 <= i < |s| ==> IsDigit(s[i])
  }

  function DigitChar(d: nat): (c: char)
    requires d < 10
    ensures IsDigit(c) && c as int - '0' as int == d
  {
    ('0' as int + d) as char
  }

  /** `std::to_string` of a non-negative integer: decimal digits without leading zeros. */
  function NatToString(n: nat): (s: string)
    ensures |s| >= 1 && AllDigits(s)
    ensures s[0] != '0' || n == 0
    decreases n
  {
    if n < 10 then [DigitChar(n)] else NatToString(n / 10) + [DigitChar(n % 10)]
  }

  /** The value of a string of decimal digits. */
  function DigitsValue(s: string): nat
    requires AllDigits(s)
  {
    if |s| == 0 then 0 else DigitsValue(s[..|s| - 1]) * 10 + (s[|s| - 1] as int - '0' as int)
  }

  lemma {:induction false} DecimalRoundTrip(n: nat)
    ensures DigitsValue(NatToString(n)) == n
    decreases n
  {
    if n >= 10 {
      DecimalRoundTrip(n / 10);
      var s := NatToString(n);
      assert s[..|s| - 1] == NatToString(n / 10);
    }
  }

  /** The maximal run of digits at the start of `s`. */
  function LeadingDigits(s: string): (r: string)
    ensures AllDigits(r) && |r| <= |s| && r == s[..|r|]
  {
    if |s| > 0 && IsDigit(s[0]) then [s[0]] + LeadingDigits(s[1..]) else []
  }

  lemma {:induction false} LeadingDigitsStop(d: string, rest: string)
    requires AllDigits(d)
    requires |rest| > 0 && !IsDigit(rest[0])
    ensures LeadingDigits(d + rest) == d
    decreases |d|
  {
    if |d| > 0 {
      assert (d + rest)[1..] == d[1..] + rest;
      LeadingDigitsStop(d[1..], rest);
    }
  }

  function AccPrefix(k: AccKind): string
  {
    match k
    case AccGpuHipRt => "AccGpuHipRt<"
    case AccHipRt => "AccHipRt<"
  }

  /**
   * `GetAccName::getAccName`: the accelerator's name, its dimension in
   * decimal and the index type's name, e.g. "AccGpuHipRt<2,m>".
   */
  function GetAccName(k: AccKind, dim: nat, t: IdxType): (r: string)
    ensures |r| > |AccPrefix(k)| && r[..|AccPrefix(k)|] == AccPrefix(k) && r[|r| - 1] == '>'
  {
    AccPrefix(k) + NatToString(dim) + "," + t.name + ">"
  }

  /** Reads the dimension back from an accelerator name. */
  function NameDim(k: AccKind, name: string): nat
    requires |name| >= |AccPrefix(k)|
  {
    DigitsValue(LeadingDigits(name[|AccPrefix(k)|..]))
  }

  /** The name determines the dimension: reading it back gives `dim`. */
  lemma AccNameDim(k: AccKind, dim: nat, t: IdxType)
    ensures NameDim(k, GetAccName(k, dim, t)) == dim
  {
    var d := NatToString(dim);
    var rest := "," + t.name + ">";
    assert GetAccName(k, dim, t)[|AccPrefix(k)|..] == d + rest;
    LeadingDigitsStop(d, rest);
    DecimalRoundTrip(dim);
  }

  /** The two accelerators never share a name. */
  lemma AccNamesDiffer(d1: nat, t1: IdxType, d2: nat, t2: IdxType)
    ensures GetAccName(AccGpuHipRt, d1, t1) != GetAccName(AccHipRt, d2, t2)
  {
    assert GetAccName(AccGpuHipRt, d1, t1)[3] == 'G';
    assert GetAccName(AccHipRt, d2, t2)[3] == 'H';
  }
}
