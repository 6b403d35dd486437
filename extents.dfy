/**
 * Extent and index vectors. Axis 0 is the slowest axis and the last axis
 * is the fastest one (the width), as in alpaka's `Vec`.
 */
module Extents {

  /** An extent, index or limit vector of any rank. */
  type Vec = seq<nat>

  /** The fastest axis, or 1 for a vector without it. */
  function Width(v: Vec): nat
  {
    if |v| >= 1 then v[|v| - 1] else 1
  }

  /** The second fastest axis, or 1 for a vector without it. */
  function Height(v: Vec): nat
  {
    if |v| >= 2 then v[|v| - 2] else 1
  }

  /** The third fastest axis, or 1 for a vector without it. */
  function Depth(v: Vec): nat
  {
    if |v| >= 3 then v[|v| - 3] else 1
  }

  /** `getExtentVecEnd<dim>`: the last `dim` components of `v`. */
  function ExtentVecEnd(dim: nat, v: Vec): (r: Vec)
    requires dim <= |v|
    ensures |r| == dim
    ensures forall j :: 0 <= j < dim ==> r[j] == v[|v| - dim + j]
  {
    v[|v| - dim..]
  }

  /** `Vec<dim>::all(x)`. */
  function All(dim: nat, x: nat): (r: Vec)
    ensures |r| == dim
    ensures forall j :: 0 <= j < dim ==> r[j] == x
  {
    seq(dim, _ => x)
  }

  /** Product of all components (the number of elements an extent covers). */
  function Product(v: Vec): nat
  {
    if |v| == 0 then 1 else Product(v[..|v| - 1]) * v[|v| - 1]
  }

  /** `a` is component-wise at most `b`, both of the same rank. */
  predicate LeEach(a: Vec, b: Vec)
  {
    |a| == |b| && forall j :: 0 <= j < |a| ==> a[j] <= b[j]
  }

  lemma LeEachAxes(a: Vec, b: Vec)
    requires LeEach(a, b)
    ensures Width(a) <= Width(b) && Height(a) <= Height(b) && Depth(a) <= Depth(b)
  {
  }
}
