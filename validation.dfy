/**
 * The task-data carrier and the `validation` phase of both the sequential
 * and the parallel matrix-vector task.
 */
module Validation {
  import opened CInt

  /** The counts are 32-bit unsigned, so arithmetic on them is taken modulo 2^32. */
  const UINT32_MODULUS: nat := 0x1_0000_0000

  /**
   * What a task receives: the input buffers (index 0 the flattened matrix,
   * index 1 the vector), the element count of each, and the number of output
   * buffers.
   */
  datatype TaskData = TaskData(inputs: seq<seq<int32>>, inputsCount: seq<nat>, outputBuffers: nat)

  /**
   * Every input has a 32-bit unsigned count, and each buffer holds at least
   * its counted elements.
   */
  predicate WellFormed(t: TaskData) {
    |t.inputsCount| == |t.inputs| &&
    forall k | 0 <= k < |t.inputs| :: t.inputsCount[k] < UINT32_MODULUS && t.inputsCount[k] <= |t.inputs[k]|
  }

  /** A non-empty square matrix of side N and a vector of length N, one output. */
  predicate SquareProblem(t: TaskData)
    requires WellFormed(t)
  {
    |t.inputs| == 2 && t.outputBuffers == 1 &&
    t.inputsCount[1] >= 1 && t.inputsCount[0] == t.inputsCount[1] * t.inputsCount[1]
  }

  /** The product of two 32-bit unsigned counts, as the unsigned multiply computes it. */
  function MulUInt32(a: nat, b: nat): (r: nat)
    ensures r < UINT32_MODULUS
    ensures a * b < UINT32_MODULUS ==> r == a * b
  {
    (a * b) % UINT32_MODULUS
  }

  lemma SmallSquare(c: nat)
    ensures c < 0x1_0000 ==> c * c < UINT32_MODULUS
  {
    if c < 0x1_0000 {
      SquareBelow(c, 0x1_0000);
    }
  }

  lemma SquareBelow(c: nat, b: nat)
    requires c < b
    ensures c * c < b * b
  {
    assert c * c <= c * b by {
      assert c * (b - c) >= 0;
    }
    assert c * b < b * b by {
      assert (b - c) * b > 0;
    }
  }

  /**
   * `MPIMatVecSequential::validation` as written: the squared vector count is
   * computed in 32-bit unsigned arithmetic. Every square problem is accepted,
   * every accepted problem is square up to the wrap-around, and below a vector
   * count of 2^16 the square cannot wrap, so acceptance is exact there.
   */
  function Validation(t: TaskData): (ok: bool)
    requires WellFormed(t)
    ensures SquareProblem(t) ==> ok
    ensures ok ==> |t.inputs| == 2 && t.outputBuffers == 1 && t.inputsCount[0] >= 1 &&
                   t.inputsCount[0] == (t.inputsCount[1] * t.inputsCount[1]) % UINT32_MODULUS
    ensures ok && t.inputsCount[1] < 0x1_0000 ==> SquareProblem(t)
    ensures t.inputsCount != [] && t.inputsCount[0] == 0 ==> !ok
  {
    if |t.inputs| != 2 || t.outputBuffers != 1 then false
    else if t.inputsCount[0] != MulUInt32(t.inputsCount[1], t.inputsCount[1]) then false
    else if t.inputsCount[0] == 0 then false
    else SmallSquare(t.inputsCount[1]); true
  }

  /**
   * `MPIMatVecParallel::validation` as written: only rank 0 holds the input,
   * so only rank 0 checks it (with the same 32-bit square); every other rank
   * accepts, whatever it holds.
   */
  function ParallelValidation(rank: nat, t: TaskData): (ok: bool)
    requires WellFormed(t)
    ensures rank != 0 ==> ok
    ensures rank == 0 ==> ok == Validation(t)
    ensures rank == 0 && SquareProblem(t) ==> ok
    ensures rank == 0 && ok ==> |t.inputs| == 2 && (t.inputsCount[1] < 0x1_0000 ==> SquareProblem(t))
    ensures rank == 0 && t.inputsCount != [] && t.inputsCount[0] == 0 ==> !ok
  {
    if rank == 0 then Validation(t) else true
  }

  /**
   * The wrap-around lets a non-square problem through on rank 0: a vector
   * count of 65537 squares to 4295098369, which is 131073 modulo 2^32, so a
   * matrix count of 131073 is accepted although the matrix is not 65537 by
   * 65537.
   */
  lemma WrappedCountAccepted(mat: seq<int32>, vec: seq<int32>)
    requires |mat| == 131073 && |vec| == 65537
    ensures var t := TaskData([mat, vec], [131073, 65537], 1);
      WellFormed(t) && !SquareProblem(t) && Validation(t) && ParallelValidation(0, t)
  {
    var t := TaskData([mat, vec], [131073, 65537], 1);
    assert 65537 * 65537 == 4295098369 == UINT32_MODULUS + 131073;
    assert MulUInt32(65537, 65537) == 131073;
    assert WellFormed(t);
  }

  /**
   * The check with the square taken in full width (as a 64-bit product would
   * give for 32-bit counts): it accepts exactly the square problems.
   */
  function CheckedValidation(t: TaskData): (ok: bool)
    requires WellFormed(t)
    ensures ok <==> SquareProblem(t)
    ensures t.inputsCount != [] && t.inputsCount[0] == 0 ==> !ok
  {
    if |t.inputs| != 2 || t.outputBuffers != 1 then false
    else if t.inputsCount[0] != t.inputsCount[1] * t.inputsCount[1] then false
    else t.inputsCount[0] != 0
  }

  /** The parallel check with the full-width square, on rank 0 only. */
  function CheckedParallelValidation(rank: nat, t: TaskData): (ok: bool)
    requires WellFormed(t)
    ensures rank == 0 ==> (ok <==> SquareProblem(t))
    ensures rank != 0 ==> ok
  {
    if rank == 0 then CheckedValidation(t) else true
  }

  /** Below a vector count of 2^16 the written check and the full-width one agree. */
  lemma {:induction false} ValidationAgreesBelowWrap(rank: nat, t: TaskData)
    requires WellFormed(t) && (|t.inputs| == 2 ==> t.inputsCount[1] < 0x1_0000)
    ensures Validation(t) == CheckedValidation(t)
    ensures ParallelValidation(rank, t) == CheckedParallelValidation(rank, t)
  {
    if |t.inputs| == 2 {
      SmallSquare(t.inputsCount[1]);
    }
  }
}
