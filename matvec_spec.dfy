/**
 * What the matrix-vector kernels compute: row `i` of a flattened row-major
 * matrix of side `n` times a vector, accumulated left to right.
 */
module MatVecSpec {
  import opened CInt

  /** One past the last index of row `i` of a flattened matrix with rows of length `n`. */
  function RowEnd(i: nat, n: nat): nat {
    i * n + n
  }

  /** The sum over `j < k` of `m[i*n + j] * v[j]`, in the order the loops add them. */
  function RowDot(m: seq<int32>, v: seq<int32>, n: nat, i: nat, k: nat): int
    requires k <= n && n <= |v| && RowEnd(i, n) <= |m|
  {
    if k == 0 then 0
    else RowDot(m, v, n, i, k - 1) + m[i * n + k - 1] as int * v[k - 1] as int
  }

  /** `x` is the full dot product of row `i` with the vector, the row lying inside `m`. */
  predicate RowIs(x: int, m: seq<int32>, v: seq<int32>, n: nat, i: nat) {
    n <= |v| && RowEnd(i, n) <= |m| && x == RowDot(m, v, n, i, n)
  }

  /**
   * Step `j` of row `i` reads inside the buffers, and neither its product nor
   * the running total (starting from `acc[i]`) leaves the 32-bit range.
   */
  predicate StepFits(acc: seq<int32>, m: seq<int32>, v: seq<int32>, n: nat, i: nat, j: nat) {
    i < |acc| && j < n && n <= |v| && RowEnd(i, n) <= |m| &&
    InInt32(m[i * n + j] as int * v[j] as int) &&
    InInt32(acc[i] as int + RowDot(m, v, n, i, j + 1))
  }

  /** Every step of the first `rows` rows is defined (no signed overflow). */
  predicate Computable(acc: seq<int32>, m: seq<int32>, v: seq<int32>, n: nat, rows: nat) {
    forall i, j | 0 <= i < rows && 0 <= j < n :: StepFits(acc, m, v, n, i, j)
  }

  lemma RowInside(i: nat, rows: nat, n: nat)
    requires i < rows
    ensures RowEnd(i, n) <= rows * n
  {
    assert (rows - i - 1) * n >= 0;
  }

  /** All `rows` rows of length `n` lie inside a buffer of length `len`. */
  lemma RowsInside(len: nat, rows: nat, n: nat)
    requires rows * n <= len
    ensures forall i | 0 <= i < rows :: RowEnd(i, n) <= len
  {
    forall i | 0 <= i < rows ensures RowEnd(i, n) <= len {
      RowInside(i, rows, n);
    }
  }

  /** The product of the `n`-by-`n` matrix `m` with `v`: one entry per row. */
  function MatVec(m: seq<int32>, v: seq<int32>, n: nat): (r: seq<int>)
    requires n * n <= |m| && n <= |v|
    ensures |r| == n
  {
    seq(n, i requires 0 <= i < n => RowInside(i, n, n); RowDot(m, v, n, i, n))
  }

  /** A sequence of zeros, what `std::vector<int>(k, 0)` holds. */
  function Zeros(k: nat): (z: seq<int32>)
    ensures |z| == k && forall i | 0 <= i < k :: z[i] == 0
  {
    seq(k, _ => 0)
  }
}
