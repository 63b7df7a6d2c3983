/**
 * The row distribution of `MPIMatVecParallel::run`: `std::div(N, P)`, the
 * `sizes` table handed to the scatter and the gather, and the local row loop.
 */
module Distribution {
  import opened CInt
  import opened MatVecSpec

  /** `std::div(n, p)`: quotient and remainder, both truncated toward zero. */
  function DivRows(n: int, p: int): (qr: (int, int))
    requires p != 0
    ensures qr.0 * p + qr.1 == n
    ensures n >= 0 && p > 0 ==> qr.0 == n / p && 0 <= qr.1 < p
  {
    TruncatedDivision(n, p);
    (CDiv(n, p), CRem(n, p))
  }

  /**
   * The table built on each rank: `P` entries of `quot * resLen`, with
   * `rem * resLen` added to entry 0. `resLen` is the length of that rank's
   * result vector: N on rank 0, 0 on every other rank.
   */
  function Sizes(quot: int, rem: int, p: nat, resLen: nat): (sizes: seq<int>)
    requires p >= 1
    ensures |sizes| == p
    ensures sizes[0] == (quot + rem) * resLen
    ensures forall r | 1 <= r < p :: sizes[r] == quot * resLen
  {
    var table := seq(p, _ => quot * resLen);
    table[0 := table[0] + rem * resLen]
  }

  function Sum(s: seq<int>): int {
    if s == [] then 0 else s[0] + Sum(s[1..])
  }

  lemma {:induction false} SumConstant(s: seq<int>, c: int)
    requires forall k | 0 <= k < |s| :: s[k] == c
    ensures Sum(s) == |s| * c
  {
    if s != [] {
      SumConstant(s[1..], c);
    }
  }

  /**
   * On rank 0 (result length N) the table covers the N*N matrix exactly, with
   * the remainder rows on rank 0, whose block is the largest.
   */
  lemma SizesCoverMatrix(n: nat, p: nat)
    requires p >= 1
    ensures var sizes := Sizes(DivRows(n, p).0, DivRows(n, p).1, p, n);
      Sum(sizes) == n * n &&
      forall r | 0 <= r < p :: 0 <= sizes[r] <= sizes[0]
  {
    var (quot, rem) := DivRows(n, p);
    var sizes := Sizes(quot, rem, p, n);
    SumConstant(sizes[1..], quot * n);
    assert sizes == [sizes[0]] + sizes[1..];
    assert Sum(sizes) == sizes[0] + Sum(sizes[1..]);
    CoverArithmetic(quot, rem, p, n);
    BlockBounds(quot, rem, n);
  }

  lemma BlockBounds(quot: int, rem: int, n: nat)
    requires quot >= 0 && rem >= 0
    ensures 0 <= quot * n <= (quot + rem) * n
  {
    assert rem * n >= 0;
  }

  lemma CoverArithmetic(quot: int, rem: int, p: int, n: int)
    requires quot * p + rem == n
    ensures (quot + rem) * n + (p - 1) * (quot * n) == n * n
  {
    calc {
      (quot + rem) * n + (p - 1) * (quot * n);
      (quot * p + rem) * n;
      n * n;
    }
  }

  /**
   * The local loop of `run`: a zeroed buffer of `len` entries whose first
   * `rows` entries accumulate row `i` of the local block times the vector.
   */
  method LocalProduct(block: seq<int32>, vec: seq<int32>, n: nat, rows: nat, len: nat) returns (tmp: seq<int32>)
    requires rows <= len
    requires Computable(Zeros(len), block, vec, n, rows)
    ensures |tmp| == len
    ensures forall i | 0 <= i < rows :: RowIs(tmp[i] as int, block, vec, n, i)
    ensures forall i | rows <= i < len :: tmp[i] == 0
  {
    var local := new int32[len];
    var i := 0;
    while i < len
      invariant 0 <= i <= len
      invariant forall k | 0 <= k < i :: local[k] == 0
    {
      local[i] := 0;
      i := i + 1;
    }
    ghost var acc := local[..];
    assert acc == Zeros(len);
    i := 0;
    while i < rows
      invariant 0 <= i <= rows
      invariant forall k | 0 <= k < i :: RowIs(local[k] as int, block, vec, n, k)
      invariant forall k | i <= k < len :: local[k] == 0
    {
      var j := 0;
      while j < n
        invariant 0 <= j <= n
        invariant j > 0 ==> n <= |vec| && RowEnd(i, n) <= |block| && local[i] as int == RowDot(block, vec, n, i, j)
        invariant j == 0 ==> local[i] == 0
        invariant forall k | 0 <= k < i :: RowIs(local[k] as int, block, vec, n, k)
        invariant forall k | i < k < len :: local[k] == 0
      {
        assert StepFits(acc, block, vec, n, i, j);
        local[i] := local[i] + block[i * n + j] * vec[j];
        j := j + 1;
      }
      i := i + 1;
    }
    tmp := local[..];
    assert forall k | 0 <= k < len :: tmp[k] == local[k];
  }
}
