/** Scalar helpers shared by the kernels: NumPy's sign/abs/min/max on reals,
    the per-cell state vector of a padded grid, the row-major sweep over a
    box of cells, and the square root and pi the kernels take from outside. */
module Numerics {

  /** np.sign on a real: -1, 0 or 1. */
  function Sign(x: real): real
  {
    if x > 0.0 then 1.0 else if x < 0.0 then -1.0 else 0.0
  }

  function Abs(x: real): real
  {
    if x < 0.0 then -x else x
  }

  function Min(a: real, b: real): real
  {
    if a <= b then a else b
  }

  function Max(a: real, b: real): real
  {
    if a >= b then a else b
  }

  /** x lies between a and b, in either order. */
  predicate Between(a: real, x: real, b: real)
  {
    Min(a, b) <= x <= Max(a, b)
  }

  /** The largest element of a non-empty sequence (np.max). */
  function SeqMax(s: seq<real>): (m: real)
    requires |s| > 0
    ensures m in s
    ensures forall k | 0 <= k < |s| :: s[k] <= m
  {
    if |s| == 1 then s[0] else Max(s[0], SeqMax(s[1..]))
  }

  /** The smallest element of a non-empty sequence (np.min). */
  function SeqMin(s: seq<real>): (m: real)
    requires |s| > 0
    ensures m in s
    ensures forall k | 0 <= k < |s| :: m <= s[k]
  {
    if |s| == 1 then s[0] else Min(s[0], SeqMin(s[1..]))
  }

  /** The state vector U[i, j, :] of one cell of a grid field. */
  function Cell(a: array3<real>, i: int, j: int): (c: seq<real>)
    reads a
    requires 0 <= i < a.Length0 && 0 <= j < a.Length1
    ensures |c| == a.Length2
    ensures forall k | 0 <= k < a.Length2 :: c[k] == a[i, j, k]
  {
    seq(a.Length2, k requires 0 <= k < a.Length2 reads a => a[i, j, k])
  }

  /** The values of a 3-D grid field, indexed [i][j][k]. */
  function Snapshot3(a: array3<real>): (g: seq<seq<seq<real>>>)
    reads a
    ensures |g| == a.Length0
    ensures forall i | 0 <= i < a.Length0 :: |g[i]| == a.Length1
    ensures forall i, j | 0 <= i < a.Length0 && 0 <= j < a.Length1 :: g[i][j] == Cell(a, i, j)
  {
    seq(a.Length0, i requires 0 <= i < a.Length0 reads a =>
      seq(a.Length1, j requires 0 <= j < a.Length1 reads a => Cell(a, i, j)))
  }

  /** The values of a 2-D grid field, indexed [i][j]. */
  function Snapshot2(a: array2<real>): (g: seq<seq<real>>)
    reads a
    ensures |g| == a.Length0
    ensures forall i | 0 <= i < a.Length0 :: |g[i]| == a.Length1
    ensures forall i, j | 0 <= i < a.Length0 && 0 <= j < a.Length1 :: g[i][j] == a[i, j]
  {
    seq(a.Length0, i requires 0 <= i < a.Length0 reads a =>
      seq(a.Length1, j requires 0 <= j < a.Length1 reads a => a[i, j]))
  }

  /** g is a qx by qy grid of values. */
  predicate Grid2(g: seq<seq<real>>, qx: int, qy: int)
  {
    |g| == qx && forall i | 0 <= i < qx :: |g[i]| == qy
  }

  /** g is a qx by qy grid of state vectors of n components. */
  predicate Grid3(g: seq<seq<seq<real>>>, qx: int, qy: int, n: int)
  {
    && |g| == qx
    && (forall i | 0 <= i < qx :: |g[i]| == qy)
    && forall i, j | 0 <= i < qx && 0 <= j < qy :: |g[i][j]| == n
  }

  /** The two irrational primitives the kernels use and real arithmetic
      cannot express: np.sqrt and np.pi. They are inputs of the model, and
      every property proved about the kernels holds whatever they are. */
  datatype Oracle = Oracle(sqrt: real -> real, pi: real)
}
