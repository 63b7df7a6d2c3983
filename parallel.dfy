/**
 * `MPIMatVecParallel::run` seen from rank 0, with the broadcast, the scatter
 * and the point-to-point messages replaced by the values they deliver.
 */
module Parallel {
  import opened Wrappers
  import opened CInt
  import opened MatVecSpec
  import opened Distribution
  import opened Gather

  /** The number of rows rank 0 computes, `quot + rem`: at most N, and its rows fit in the matrix. */
  function RootRowCount(n: nat, p: nat): (rows: nat)
    requires p >= 1
    ensures rows <= n && rows * n <= n * n
    ensures p == 1 ==> rows == n
    ensures n < p ==> rows == n
  {
    var qr := DivRows(n, p);
    RowCountBounds(qr.0, qr.1, p, n);
    qr.0 + qr.1
  }

  lemma RowCountBounds(quot: int, rem: int, p: int, n: nat)
    requires quot >= 0 && 0 <= rem < p && quot * p + rem == n
    ensures quot + rem <= n && (quot + rem) * n <= n * n
    ensures p == 1 ==> quot + rem == n
    ensures n < p ==> quot + rem == n
  {
    RowsAtMostN(quot, rem, p, n);
    MulMonotone(quot + rem, n, n);
    QuotientCases(quot, rem, p, n);
  }

  lemma QuotientCases(quot: int, rem: int, p: int, n: nat)
    requires quot >= 0 && 0 <= rem < p && quot * p + rem == n
    ensures p == 1 ==> quot == n && rem == 0
    ensures n < p ==> quot == 0 && rem == n
  {
    if quot >= 1 {
      MulMonotone(1, quot, p);
    }
  }

  lemma RootBlockInside(n: nat, p: nat)
    requires p >= 1
    ensures var (quot, rem) := DivRows(n, p);
      0 <= quot + rem <= n && (quot + rem) * n <= n * n
  {
    var (quot, rem) := DivRows(n, p);
    assert quot >= 0 && rem >= 0;
    RowsAtMostN(quot, rem, p, n);
    MulMonotone(quot + rem, n, n);
  }

  lemma RowsAtMostN(quot: int, rem: int, p: int, n: int)
    requires quot >= 0 && rem >= 0 && p >= 1 && quot * p + rem == n
    ensures quot + rem <= n
  {
    assert quot * (p - 1) >= 0;
  }

  lemma MulMonotone(x: int, y: int, n: nat)
    requires 0 <= x <= y
    ensures 0 <= x * n <= y * n
  {
    assert (y - x) * n >= 0;
  }

  /**
   * Rank 0's `local_input` after the scatter: the first `sizes[0]` entries of
   * the matrix (its `quot + rem` rows), in a zeroed buffer of |mat| entries.
   */
  function RootBlock(mat: seq<int32>, n: nat, p: nat): (block: seq<int32>)
    requires p >= 1 && |mat| == n * n
    ensures |block| == |mat|
    ensures forall k | 0 <= k < RootRowCount(n, p) * n :: block[k] == mat[k]
    ensures forall k | RootRowCount(n, p) * n <= k < |mat| :: block[k] == 0
  {
    PrefixThenZeros(mat, RootRowCount(n, p) * n)
  }

  /** The first `first` entries of `s`, then zeros up to the length of `s`. */
  function PrefixThenZeros(s: seq<int32>, first: nat): (r: seq<int32>)
    requires first <= |s|
    ensures |r| == |s|
    ensures forall k | 0 <= k < first :: r[k] == s[k]
    ensures forall k | first <= k < |s| :: r[k] == 0
  {
    s[..first] + Zeros(|s| - first)
  }

  /** Two buffers that agree on the first `k` entries of row `i` give the same partial dot product. */
  lemma {:induction false} RowDotAgrees(a: seq<int32>, b: seq<int32>, v: seq<int32>, n: nat, i: nat, k: nat)
    requires k <= n && n <= |v| && RowEnd(i, n) <= |a| && RowEnd(i, n) <= |b|
    requires forall m | i * n <= m < i * n + k :: a[m] == b[m]
    ensures RowDot(a, v, n, i, k) == RowDot(b, v, n, i, k)
  {
    if k > 0 {
      RowDotAgrees(a, b, v, n, i, k - 1);
    }
  }

  /** Every row of rank 0's block is the same row of the matrix. */
  lemma BlockRowAgrees(mat: seq<int32>, vec: seq<int32>, p: nat, i: nat, k: nat)
    requires p >= 1 && |mat| == |vec| * |vec|
    requires i < RootRowCount(|vec|, p) && k <= |vec|
    ensures RowEnd(i, |vec|) <= |mat|
    ensures RowDot(RootBlock(mat, |vec|, p), vec, |vec|, i, k) == RowDot(mat, vec, |vec|, i, k)
  {
    var n, rows := |vec|, RootRowCount(|vec|, p);
    RowInside(i, rows, n);
    var block := RootBlock(mat, n, p);
    forall m | i * n <= m < i * n + k ensures block[m] == mat[m] {
      assert m < rows * n;
    }
    RowDotAgrees(block, mat, vec, n, i, k);
  }

  /**
   * Rank 0's `local_tmp` after the row loop: its `quot + rem` rows of the
   * block, which are the first `quot + rem` entries of the product.
   */
  function RootRows(mat: seq<int32>, vec: seq<int32>, p: nat): (rows: seq<int>)
    requires p >= 1 && |mat| == |vec| * |vec|
    ensures |rows| == RootRowCount(|vec|, p)
    ensures forall i | 0 <= i < |rows| :: rows[i] == MatVec(mat, vec, |vec|)[i]
  {
    var n, count := |vec|, RootRowCount(|vec|, p);
    var block := RootBlock(mat, n, p);
    var rows := seq(count, i requires 0 <= i < count => RowInside(i, count, n); RowDot(block, vec, n, i, n));
    assert forall i | 0 <= i < count :: rows[i] == MatVec(mat, vec, n)[i] by {
      forall i | 0 <= i < count ensures rows[i] == MatVec(mat, vec, n)[i] {
        BlockRowAgrees(mat, vec, p, i, n);
      }
    }
    rows
  }

  /**
   * The local results of all ranks: rank 0 contributes its rows; every other
   * rank, which holds no matrix, contributes as many zeros.
   */
  function RankInputs(rootTmp: seq<int>, p: nat): (inputs: seq<seq<int>>)
    requires p >= 1
    ensures |inputs| == p && inputs[0] == rootTmp
    ensures forall r | 0 <= r < p :: |inputs[r]| == |rootTmp|
    ensures forall r, k | 1 <= r < p && 0 <= k < |rootTmp| :: inputs[r][k] == 0
  {
    seq(p, r => if r == 0 then rootTmp else seq(|rootTmp|, _ => 0))
  }

  /**
   * A rank other than 0 holds an empty `local_input`, an empty vector and an
   * empty `res`, so its row loop runs `quot` rows of length 0: its
   * `local_tmp` is `quot + rem` zeros, the input `RankInputs` gives it.
   */
  method NonRootRun(quot: nat, rem: nat, localInput: seq<int32>, vec: seq<int32>) returns (local: seq<int>)
    requires localInput == [] && vec == []
    ensures |local| == quot + rem
    ensures forall i | 0 <= i < |local| :: local[i] == 0
  {
    var localTmp := LocalProduct(localInput, vec, |vec|, quot, quot + rem);
    local := seq(quot + rem, i requires 0 <= i < quot + rem => localTmp[i] as int);
    forall i | 0 <= i < quot ensures local[i] == 0 {
      assert RowIs(localTmp[i] as int, localInput, vec, 0, i);
    }
  }

  /**
   * The `sizes` tables of all ranks: rank 0 counts `quot + rem` rows of N
   * entries for itself and `quot` rows of N for each other rank; every other
   * rank's `res` is empty, so its table is all zero.
   */
  function RankTables(quot: int, rem: int, p: nat, n: nat): (tables: seq<seq<int>>)
    requires p >= 1
    ensures |tables| == p && forall r | 0 <= r < p :: |tables[r]| == p
    ensures tables[0][0] == (quot + rem) * n
    ensures forall c | 1 <= c < p :: tables[0][c] == quot * n
    ensures forall r, c | 1 <= r < p && 0 <= c < p :: tables[r][c] == 0
  {
    var own, other := Sizes(quot, rem, p, n), Sizes(quot, rem, p, 0);
    assert forall c | 0 <= c < p :: other[c] == 0;
    var tables := seq(p, r requires 0 <= r < p => if r == 0 then own else other);
    assert tables[0] == own && forall r | 1 <= r < p :: tables[r] == other;
    tables
  }

  /**
   * What rank 0 receives in `res` from `my_gather` after `run`, for a group of
   * `p` ranks and an input that passed validation on rank 0, or `None` when
   * the gather reads outside a received buffer.
   */
  function RootResult(mat: seq<int32>, vec: seq<int32>, p: nat): Option<seq<int>>
    requires p >= 1 && |mat| == |vec| * |vec|
  {
    var (quot, rem) := DivRows(|vec|, p);
    Payload(RankInputs(RootRows(mat, vec, p), p), RankTables(quot, rem, p, |vec|), 0)
  }

  /**
   * If the whole product is free of overflow, so is rank 0's share of it:
   * the condition `RootRun` needs follows from the one `Run` needs.
   */
  lemma BlockComputable(mat: seq<int32>, vec: seq<int32>, p: nat)
    requires p >= 1 && |mat| == |vec| * |vec|
    requires Computable(Zeros(|vec|), mat, vec, |vec|, |vec|)
    ensures var rows := RootRowCount(|vec|, p);
      Computable(Zeros(rows), RootBlock(mat, |vec|, p), vec, |vec|, rows)
  {
    var n, rows := |vec|, RootRowCount(|vec|, p);
    var block := RootBlock(mat, n, p);
    forall i, j | 0 <= i < rows && 0 <= j < n
      ensures StepFits(Zeros(rows), block, vec, n, i, j)
    {
      assert StepFits(Zeros(n), mat, vec, n, i, j);
      RowInside(i, rows, n);
      assert i * n + j < rows * n;
      BlockRowAgrees(mat, vec, p, i, j + 1);
    }
  }

  /**
   * Rank 0's part of `run`: compute the local rows of the scattered block,
   * then gather. The result is the one `RootResult` describes. Only rank 0's
   * own rows must be free of overflow; later rows of the matrix are never
   * multiplied on rank 0.
   */
  method RootRun(mat: seq<int32>, vec: seq<int32>, p: nat) returns (result: Option<seq<int>>)
    requires p >= 1 && |mat| == |vec| * |vec|
    requires Computable(Zeros(RootRowCount(|vec|, p)), RootBlock(mat, |vec|, p), vec, |vec|, RootRowCount(|vec|, p))
    ensures result == RootResult(mat, vec, p)
  {
    var n := |vec|;
    var qr := DivRows(n, p);
    var rows := qr.0 + qr.1;
    var localTmp := LocalProduct(RootBlock(mat, n, p), vec, n, rows, rows);
    var local := seq(rows, i requires 0 <= i < rows => localTmp[i] as int);
    assert local == RootRows(mat, vec, p);
    result := Payload(RankInputs(local, p), RankTables(qr.0, qr.1, p, n), 0);
  }

  /**
   * Every rank other than 0 forwards its subtree's zeros in pre-order: its
   * own table is all zero, so nothing is split off a child's payload.
   */
  lemma NonRootRanksForward(mat: seq<int32>, vec: seq<int32>, p: nat, rank: nat)
    requires p >= 1 && |mat| == |vec| * |vec| && 0 < rank < p
    ensures var (quot, rem) := DivRows(|vec|, p);
      var inputs := RankInputs(RootRows(mat, vec, p), p);
      Payload(inputs, RankTables(quot, rem, p, |vec|), rank) == Some(PreOrder(inputs, rank))
  {
    var (quot, rem) := DivRows(|vec|, p);
    NonRootPreOrder(RankInputs(RootRows(mat, vec, p), p), RankTables(quot, rem, p, |vec|), rank);
  }

  /** The inputs from `lo` on, all of length `k` and all zero, concatenate to zeros. */
  lemma {:induction false} ConcatZeros(inputs: seq<seq<int>>, lo: nat, k: nat)
    requires lo <= |inputs|
    requires forall r | lo <= r < |inputs| :: |inputs[r]| == k
    requires forall r, j | lo <= r < |inputs| && 0 <= j < |inputs[r]| :: inputs[r][j] == 0
    ensures |Concat(inputs, lo)| == (|inputs| - lo) * k
    ensures forall x | x in Concat(inputs, lo) :: x == 0
    decreases |inputs| - lo
  {
    if lo < |inputs| {
      ConcatZeros(inputs, lo + 1, k);
      assert Concat(inputs, lo) == inputs[lo] + Concat(inputs, lo + 1);
      assert (|inputs| - lo) * k == k + (|inputs| - (lo + 1)) * k;
    }
  }

  /**
   * A defined gather of `p` inputs of `k` entries each, all zero but rank
   * 0's, leaves rank 0's input in front and zeros after it, `p * k` in all.
   */
  lemma UniformGather(inputs: seq<seq<int>>, tables: seq<seq<int>>, k: nat)
    requires Shaped(inputs, tables) && Payload(inputs, tables, 0).Some?
    requires forall r | 0 <= r < |inputs| :: |inputs[r]| == k
    requires forall r, j | 1 <= r < |inputs| && 0 <= j < |inputs[r]| :: inputs[r][j] == 0
    ensures var v := Payload(inputs, tables, 0).value;
      |v| == |inputs| * k && v[..k] == inputs[0] && forall i | k <= i < |v| :: v[i] == 0
  {
    var v := Payload(inputs, tables, 0).value;
    RootPermutation(inputs, tables);
    ConcatZeros(inputs, 1, k);
    assert Concat(inputs, 0) == inputs[0] + Concat(inputs, 1);
    assert |v| == |inputs| * k by {
      assert k + (|inputs| - 1) * k == |inputs| * k;
    }
    assert multiset(Concat(inputs, 0)) == multiset(inputs[0]) + multiset(Concat(inputs, 1));
    ZeroTail(v, inputs[0], Concat(inputs, 1));
  }

  /** A sequence that starts with `head` and otherwise holds the zeros of `rest` ends in zeros. */
  lemma ZeroTail(v: seq<int>, head: seq<int>, rest: seq<int>)
    requires |head| <= |v| && v[..|head|] == head
    requires multiset(v) == multiset(head) + multiset(rest)
    requires forall x | x in rest :: x == 0
    ensures forall i | |head| <= i < |v| :: v[i] == 0
  {
    var k := |head|;
    assert v == head + v[k..];
    assert multiset(v) == multiset(head) + multiset(v[k..]);
    forall i | k <= i < |v| ensures v[i] == 0 {
      var x := v[i];
      assert x == v[k..][i - k];
      assert multiset(v[k..])[x] > 0;
      assert multiset(v)[x] == multiset(head)[x] + multiset(v[k..])[x];
      assert multiset(v)[x] == multiset(head)[x] + multiset(rest)[x];
      assert x in rest;
    }
  }

  /**
   * Whenever the gather is defined, rank 0's buffer holds P times its own
   * row count: the first `quot + rem` entries of the product, then zeros.
   */
  lemma RootResultShape(mat: seq<int32>, vec: seq<int32>, p: nat)
    requires p >= 1 && |mat| == |vec| * |vec|
    requires RootResult(mat, vec, p).Some?
    ensures var v, rows := RootResult(mat, vec, p).value, RootRowCount(|vec|, p);
      |v| == p * rows &&
      (forall i | 0 <= i < rows :: v[i] == MatVec(mat, vec, |vec|)[i]) &&
      (forall k | rows <= k < |v| :: v[k] == 0)
  {
    var (quot, rem) := DivRows(|vec|, p);
    var rootTmp := RootRows(mat, vec, p);
    var inputs := RankInputs(rootTmp, p);
    UniformGather(inputs, RankTables(quot, rem, p, |vec|), |rootTmp|);
    var v := RootResult(mat, vec, p).value;
    forall i | 0 <= i < |rootTmp| ensures v[i] == MatVec(mat, vec, |vec|)[i] {
      assert v[i] == v[..|rootTmp|][i];
    }
  }

  /**
   * With a single rank the parallel run delivers exactly the matrix-vector
   * product, the value the sequential `run` accumulates into a zeroed `res`.
   */
  lemma SingleProcessMatchesSequential(mat: seq<int32>, vec: seq<int32>)
    requires |mat| == |vec| * |vec|
    ensures RootResult(mat, vec, 1) == Some(MatVec(mat, vec, |vec|))
  {
    var (quot, rem) := DivRows(|vec|, 1);
    assert RootRows(mat, vec, 1) == MatVec(mat, vec, |vec|);
    SingleRank(RankInputs(RootRows(mat, vec, 1), 1), RankTables(quot, rem, 1, |vec|));
  }

  /**
   * With more than one rank the tables are in matrix elements (`quot * N`)
   * while each rank sends `quot + rem` local results. With N = 2 and two
   * ranks rank 0 asks for 2 elements of rank 1's payload of 1 element: the
   * gather would read past the received buffer.
   */
  lemma TwoRanksOverrun(mat: seq<int32>, vec: seq<int32>)
    requires |vec| == 2 && |mat| == 4
    ensures RootResult(mat, vec, 2) == None
  {
    var (quot, rem) := DivRows(2, 2);
    assert quot == 1 && rem == 0;
    ShortChildUndefined(RankInputs(RootRows(mat, vec, 2), 2), RankTables(quot, rem, 2, 2));
  }

  /** With two ranks, a root table asking more than rank 1's input leaves the gather undefined. */
  lemma ShortChildUndefined<T>(inputs: seq<seq<T>>, tables: seq<seq<int>>)
    requires Shaped(inputs, tables) && |inputs| == 2
    requires tables[0][1] > |inputs[1]|
    ensures Payload(inputs, tables, 0) == None
  {
    var none: seq<T> := [];
    assert Payload(inputs, tables, 1) == Combine(inputs[1], Some(none), 0, Some(none), 0);
    CombineNoSplit(inputs[1], none, none);
  }

  /**
   * With more ranks than rows (N < P) `quot` is 0, so every split point is 0
   * and the gather is defined. Rank 0 then receives all N entries of the
   * product followed by (P - 1)·N zeros: P·N > N entries, which the final
   * copy writes into a `res` of N entries.
   */
  lemma FewRowsOverrun(mat: seq<int32>, vec: seq<int32>, p: nat)
    requires 1 <= |vec| < p && |mat| == |vec| * |vec|
    ensures RootResult(mat, vec, p).Some?
    ensures var v := RootResult(mat, vec, p).value;
      |v| == p * |vec| > |vec| &&
      v[..|vec|] == MatVec(mat, vec, |vec|) &&
      forall k | |vec| <= k < |v| :: v[k] == 0
  {
    FewRowsDefined(mat, vec, p);
    RootResultShape(mat, vec, p);
    MoreThanOnce(p, |vec|);
  }

  /** With N < P the gather is defined: `quot` is 0, so every split point is 0. */
  lemma FewRowsDefined(mat: seq<int32>, vec: seq<int32>, p: nat)
    requires 1 <= |vec| < p && |mat| == |vec| * |vec|
    ensures RootResult(mat, vec, p).Some?
  {
    var qr := DivRows(|vec|, p);
    assert qr.0 == 0;
    ZeroSplitsPreOrder(RankInputs(RootRows(mat, vec, p), p), RankTables(qr.0, qr.1, p, |vec|));
  }

  lemma MoreThanOnce(p: nat, n: nat)
    requires p >= 2 && n >= 1
    ensures p * n > n
  {
    assert (p - 1) * n > 0;
  }
}
