/**
 * `MPIMatVecSequential`: the single-process reference task. Its three owned
 * buffers `mat_`, `vec_` and `res` become arrays that the phases fill and
 * update in place.
 */
module Sequential {
  import opened CInt
  import opened Validation
  import opened MatVecSpec

  class MatVecSequential {
    var mat: array<int32>
    var vec: array<int32>
    var res: array<int32>

    /** The result buffer is its own array and has one entry per vector entry. */
    ghost predicate Valid()
      reads this
    {
      res != mat && res != vec && res.Length == vec.Length
    }

    /** A fresh task owns three empty buffers. */
    constructor ()
      ensures Valid()
      ensures mat.Length == 0 && vec.Length == 0 && res.Length == 0
    {
      mat := new int32[0];
      vec := new int32[0];
      res := new int32[0];
    }

    /**
     * `pre_processing`: fails when fewer than two inputs are given; otherwise
     * copies the counted prefix of each input and zeroes a result of length N.
     */
    method PreProcessing(t: TaskData) returns (ok: bool)
      requires WellFormed(t)
      modifies this
      ensures ok <==> |t.inputs| >= 2
      ensures !ok ==> mat == old(mat) && vec == old(vec) && res == old(res)
      ensures ok ==> Valid() && fresh(mat) && fresh(vec) && fresh(res)
      ensures ok ==> mat[..] == t.inputs[0][..t.inputsCount[0]]
      ensures ok ==> vec[..] == t.inputs[1][..t.inputsCount[1]]
      ensures ok ==> res[..] == Zeros(t.inputsCount[1])
    {
      if |t.inputs| < 2 {
        return false;
      }
      var m := new int32[t.inputsCount[0]];
      var v := new int32[t.inputsCount[1]];
      var i := 0;
      while i < t.inputsCount[0]
        invariant 0 <= i <= t.inputsCount[0]
        invariant m[..i] == t.inputs[0][..i]
      {
        m[i] := t.inputs[0][i];
        i := i + 1;
      }
      assert m[..] == m[..i];
      i := 0;
      while i < t.inputsCount[1]
        invariant 0 <= i <= t.inputsCount[1]
        invariant v[..i] == t.inputs[1][..i]
        invariant m[..] == t.inputs[0][..t.inputsCount[0]]
      {
        v[i] := t.inputs[1][i];
        i := i + 1;
      }
      assert v[..] == v[..i];
      var r := new int32[v.Length];
      i := 0;
      while i < r.Length
        invariant 0 <= i <= r.Length
        invariant forall k | 0 <= k < i :: r[k] == 0
        invariant m[..] == t.inputs[0][..t.inputsCount[0]]
        invariant v[..] == t.inputs[1][..t.inputsCount[1]]
      {
        r[i] := 0;
        i := i + 1;
      }
      mat, vec, res := m, v, r;
      ok := true;
    }

    /**
     * `run`: adds row `i` of the matrix times the vector to `res[i]`, for every
     * row `i < N` with `N = res.Length`; nothing overflows by `Computable`.
     */
    method Run()
      requires Valid()
      requires res.Length * res.Length <= mat.Length
      requires Computable(res[..], mat[..], vec[..], res.Length, res.Length)
      modifies res
      ensures forall i | 0 <= i < res.Length ::
        res[i] as int == old(res[i]) as int + MatVec(mat[..], vec[..], res.Length)[i]
    {
      var n := res.Length;
      ghost var acc, M, V := res[..], mat[..], vec[..];
      RowsInside(mat.Length, n, n);
      var i := 0;
      while i < n
        invariant 0 <= i <= n
        invariant forall k | 0 <= k < i :: res[k] as int == acc[k] as int + RowDot(M, V, n, k, n)
        invariant forall k | i <= k < n :: res[k] == acc[k]
      {
        var j := 0;
        while j < n
          invariant 0 <= j <= n
          invariant res[i] as int == acc[i] as int + RowDot(M, V, n, i, j)
          invariant forall k | 0 <= k < i :: res[k] as int == acc[k] as int + RowDot(M, V, n, k, n)
          invariant forall k | i < k < n :: res[k] == acc[k]
        {
          assert StepFits(acc, M, V, n, i, j);
          res[i] := res[i] + mat[i * n + j] * vec[j];
          j := j + 1;
        }
        i := i + 1;
      }
    }

    /**
     * `post_processing`: copies `res` into the caller's output buffer, element
     * for element, and leaves the rest of that buffer alone.
     */
    method PostProcessing(output: array<int32>)
      requires output != res && res.Length <= output.Length
      modifies output
      ensures output[..res.Length] == res[..]
      ensures output[res.Length..] == old(output[res.Length..])
    {
      var i := 0;
      while i < res.Length
        invariant 0 <= i <= res.Length
        invariant output[..i] == res[..i]
        invariant output[res.Length..] == old(output[res.Length..])
      {
        output[i] := res[i];
        i := i + 1;
      }
    }
  }
}
