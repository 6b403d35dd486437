/** Unsigned integer widths and the products of offset arithmetic. */
module Arith {

  /** 2^n. */
  function Pow2(n: nat): (r: nat)
    ensures r >= 1
  {
    if n == 0 then 1 else 2 * Pow2(n - 1)
  }

  /** Number of values of a 32-bit unsigned integer. */
  const U32: nat := 0x1_0000_0000

  /** Number of values of a 64-bit unsigned integer. */
  const U64: nat := 0x1_0000_0000_0000_0000

  /** `static_cast<unsigned int>` of a non-negative integer: keeps the low 32 bits. */
  function Trunc32(n: nat): (r: nat)
    ensures r < U32
    ensures n < U32 ==> r == n
  {
    n % U32
  }

  lemma {:induction false} Pow2Mono(a: nat, b: nat)
    requires a <= b
    ensures Pow2(a) <= Pow2(b)
    decreases b
  {
    if a < b {
      Pow2Mono(a, b - 1);
    }
  }

  lemma {:induction false} Pow2Add(a: nat, b: nat)
    ensures Pow2(a + b) == Pow2(a) * Pow2(b)
    decreases a
  {
    if a > 0 {
      Pow2Add(a - 1, b);
    }
  }

  lemma Pow2Widths()
    ensures Pow2(8) == 0x100 && Pow2(16) == 0x1_0000 && Pow2(32) == U32 && Pow2(64) == U64
  {
    assert Pow2(4) == 16;
    Pow2Add(4, 4);
    Pow2Add(8, 8);
    Pow2Add(16, 16);
    Pow2Add(32, 32);
  }

  /** Any index type of at most 32 bits fits in an `unsigned int`. */
  lemma Pow2AtMost32(n: nat)
    requires n <= 32
    ensures Pow2(n) <= U32
  {
    Pow2Mono(n, 32);
    Pow2Widths();
  }

  lemma MulLeRight(a: nat, b: nat, c: nat)
    requires a <= b
    ensures a * c <= b * c
  {
  }

  /** A product stays below a bound when a factor shrinks. */
  lemma MulMonoBound(a: nat, b: nat, c: nat, n: nat)
    requires a <= b && c * b < n
    ensures c * a < n && a * c < n
  {
    MulLeRight(a, b, c);
  }

  /** One more step of a stride never falls behind the end of the previous block. */
  lemma StepAfter(k: nat, j: nat, stride: nat)
    requires k < j
    ensures k * stride + stride <= j * stride
  {
    MulLeRight(k + 1, j, stride);
  }

  /**
   * Offsets `k * stride + x` with `x < stride` decompose uniquely:
   * different blocks never share an offset.
   */
  lemma BlockUnique(k: nat, x: nat, j: nat, y: nat, stride: nat)
    requires x < stride && y < stride
    requires k * stride + x == j * stride + y
    ensures k == j && x == y
  {
    if k < j {
      StepAfter(k, j, stride);
    } else if j < k {
      StepAfter(j, k, stride);
    }
  }
}
