/**
 * Pitched layouts: runs of equally long blocks a fixed stride apart, such as
 * the rows of a pitched buffer.
 */
module Pitched {
  import opened Arith

  /** Start of block `k` of a run of blocks `stride` bytes apart. */
  function At(base: nat, stride: nat, k: nat): nat
  {
    base + k * stride
  }

  /** Blocks `0 .. count - 1` of `len` bytes at `At(base, stride, k)` fit in `n` bytes. */
  predicate StridedFits(base: nat, stride: nat, count: nat, len: nat, n: nat)
  {
    count == 0 || At(base, stride, count - 1) + len <= n
  }

  /** Offset `i` lies in one of the blocks. */
  predicate InBlocks(base: nat, stride: nat, count: nat, len: nat, i: nat)
    decreases count
  {
    count > 0 &&
    (InBlocks(base, stride, count - 1, len, i) || At(base, stride, count - 1) <= i < At(base, stride, count - 1) + len)
  }

  lemma StridedFitsFewer(base: nat, stride: nat, count: nat, len: nat, n: nat)
    requires count > 0 && StridedFits(base, stride, count, len, n)
    ensures StridedFits(base, stride, count - 1, len, n)
  {
    if count >= 2 { MulLeRight(count - 2, count - 1, stride); }
  }

  lemma StridedFitsPrefix(base: nat, stride: nat, count: nat, len: nat, n: nat, c: nat)
    requires c <= count && StridedFits(base, stride, count, len, n)
    ensures StridedFits(base, stride, c, len, n)
  {
    if 0 < c { MulLeRight(c - 1, count - 1, stride); }
  }

  lemma {:induction false} InBlocksAt(base: nat, stride: nat, count: nat, len: nat, k: nat, x: nat)
    requires k < count && x < len
    ensures InBlocks(base, stride, count, len, At(base, stride, k) + x)
    decreases count
  {
    if k < count - 1 {
      InBlocksAt(base, stride, count - 1, len, k, x);
    }
  }

  /** An offset inside the blocks names its block and its position in it. */
  lemma {:induction false} InBlocksWitness(base: nat, stride: nat, count: nat, len: nat, i: nat) returns (k: nat, x: nat)
    requires InBlocks(base, stride, count, len, i)
    ensures k < count && x < len && i == At(base, stride, k) + x
    decreases count
  {
    if InBlocks(base, stride, count - 1, len, i) {
      k, x := InBlocksWitness(base, stride, count - 1, len, i);
    } else {
      k, x := count - 1, i - At(base, stride, count - 1);
    }
  }

  /** A byte inside a row lies inside its slice. */
  lemma RowInSlice(y: nat, x: nat, pitch: nat, height: nat)
    requires y < height && x < pitch
    ensures y * pitch + x < pitch * height
  {
    MulLeRight(y + 1, height, pitch);
  }
}
