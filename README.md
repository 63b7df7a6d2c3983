# Matrix-vector product with a tree gather (leontev_n_gather)

This project models the matrix-vector task of `tasks/mpi/leontev_n_gather`.

- **Inputs.** A flattened N×N matrix of `int` and a vector of N `int`.
- **Output.** One buffer that receives the product.
- **Two implementations.**
  - `MPIMatVecSequential` validates the input, copies the buffers into its own vectors, multiplies row by row and copies the result out.
  - `MPIMatVecParallel` does the same on rank 0, with these steps:
    1. It splits the rows with `std::div(N, P)` and builds a `sizes` table.
    2. Each rank multiplies its local rows.
    3. The results are collected with `my_gather`, a hand-written gather over an implicit binary tree of ranks.

## Modules

| module | what it holds |
|---|---|
| `CInt` | `int32` and the C++ truncating `/` and `%` (`CDiv`, `CRem`). |
| `Validation` | The task data (buffers, 32-bit unsigned counts, number of outputs) and both `validation` phases, as written and with the square taken in full width. |
| `MatVecSpec` | The specification of the product: `RowDot` sums a row left to right. `Computable` states that every partial sum the loops form fits in 32 bits. |
| `Sequential` | The class `MatVecSequential`, with array fields `mat`, `vec` and `res` and the three state-changing phases. |
| `Tree` | The neighbour arithmetic of `my_gather`, the heap tree it forms with root 0, subtrees, and the finding for other roots. |
| `Gather` | The payload a rank forwards in `my_gather`. It is written as a recursive function `Payload` over the tree and as a method `MyGather` that builds it by appending. |
| `Distribution` | `std::div`, the `sizes` table, and the local row loop of the parallel `run`. |
| `Parallel` | What rank 0 holds after the parallel `run`, with the broadcasts, the scatter and the messages replaced by the values they deliver. |

### How the gather is modelled

Each rank runs `my_gather` with its own `sizes` table, so `Payload` takes one table per rank. The table is built from `res.size()`, and only rank 0 fills `res`, so every other rank's table is all zero.

A rank's payload is assembled in this order:
1. its own input;
2. the first `sizes[left]` elements of the left child's payload;
3. the first `sizes[right]` elements of the right child's payload;
4. the two remaining tails, left then right.

If a split point does not fit the received payload, the C++ iterator arithmetic would leave the buffer. The model marks that case as `None`.

The functional tests (`func_tests/main.cpp:34-68`) compare the parallel result with the sequential one. The model covers this for one process with `Parallel.SingleProcessMatchesSequential`.

The test at `func_tests/main.cpp:70-82` fills the task data with empty buffers on rank 0 only, then asserts on every rank that `validation` fails:
- On rank 0 the empty input is rejected: `Validation.ParallelValidation` returns false when the matrix count is 0.
- On every other rank the task data stays empty, and both the source and `Validation.ParallelValidation` accept whatever a non-root rank holds.

So the source rejects empty input on rank 0 only, and the assertion at `func_tests/main.cpp:81` does not hold on the other ranks when the test runs on more than one process.

## Model

| member | source | states |
|---|---|---|
| `CInt.CDiv` | tasks/mpi/leontev_n_gather/src/ops_mpi.cpp:86 | C++ `/`, truncating toward zero. It agrees with floor division when the dividend is non-negative and the divisor positive. |
| `CInt.CRem` | tasks/mpi/leontev_n_gather/src/ops_mpi.cpp:71 | C++ `%`. The remainder has the dividend's sign and is smaller in magnitude than the divisor. For a non-negative dividend and positive divisor it equals the Euclidean remainder. |
| `CInt.TruncatedDivision` | tasks/mpi/leontev_n_gather/src/ops_mpi.cpp:159 | Quotient times divisor plus remainder gives back the dividend, the identity `std::div` guarantees. |
| `Validation.Validation` | tasks/mpi/leontev_n_gather/src/ops_mpi.cpp:29-43 | As written, with the square of the 32-bit unsigned vector count taken modulo 2^32. Every square problem (two inputs, one output, matrix count = N², N ≥ 1) is accepted. An accepted problem has two inputs, one output and a non-zero matrix count equal to N² mod 2^32. For N < 2^16 acceptance is exact. A zero matrix count is rejected. |
| `Validation.ParallelValidation` | tasks/mpi/leontev_n_gather/src/ops_mpi.cpp:138-153 | As written. On rank 0 the result equals `Validation`, so it carries the same guarantees: square problems accepted, acceptance exact below 2^16, a zero matrix count rejected. Every other rank accepts. |
| `Validation.WrappedCountAccepted` | tasks/mpi/leontev_n_gather/src/ops_mpi.cpp:36 | Counts (131073, 65537) are accepted on rank 0 although 131073 ≠ 65537². |
| `Validation.CheckedValidation` | tasks/mpi/leontev_n_gather/src/ops_mpi.cpp:29-43 | With the square in full width: accepts exactly the square problems, and rejects a zero matrix count. |
| `Validation.CheckedParallelValidation` | tasks/mpi/leontev_n_gather/src/ops_mpi.cpp:138-153 | With the square in full width: on rank 0 accepts exactly the square problems, and every other rank accepts. |
| `Validation.ValidationAgreesBelowWrap` | tasks/mpi/leontev_n_gather/src/ops_mpi.cpp:36 | For vector counts below 2^16 the checks as written and in full width agree, sequential and parallel. |
| `Sequential.MatVecSequential.PreProcessing` | tasks/mpi/leontev_n_gather/src/ops_mpi.cpp:7-27 | Succeeds exactly when there are at least two inputs. On failure the fields are unchanged. On success `mat` and `vec` are fresh exact copies of the counted prefixes of inputs 0 and 1, and `res` is a fresh zero array of length `inputs_count[1]`. |
| `Sequential.MatVecSequential.Run` | tasks/mpi/leontev_n_gather/src/ops_mpi.cpp:45-53 | Adds to each `res[i]` row `i` of the N×N matrix times the vector (`MatVec`), N = `res.Length`. It requires that no partial sum overflows 32 bits. The loop invariant keeps rows before `i` finished and rows after `i` untouched. |
| `Sequential.MatVecSequential.PostProcessing` | tasks/mpi/leontev_n_gather/src/ops_mpi.cpp:55-59 | The output's first `res.Length` entries become `res`, and the rest of the output is unchanged. |
| `Tree.Parent` | tasks/mpi/leontev_n_gather/src/ops_mpi.cpp:86 | The parent of a non-root rank is smaller than it, and the rank is that parent's left or right child. |
| `Tree.RootZeroHeap` | tasks/mpi/leontev_n_gather/src/ops_mpi.cpp:71-87 | With root 0: the left child is `2r+1` exactly when `2r+1 < P`, otherwise -1, and likewise for the right child `2r+2`. The parent is -1 for rank 0 and `(r-1)/2` otherwise. |
| `Tree.UniqueParent` | tasks/mpi/leontev_n_gather/src/ops_mpi.cpp:71-87 | With root 0, only rank 0 has no parent, and every other parent is a smaller rank. A rank `r < P` lists `c` as a child exactly when `c > 0` and `r` is `c`'s parent, so every non-root rank is the child of exactly one rank. |
| `Tree.AllInRootSubtree` | tasks/mpi/leontev_n_gather/src/ops_mpi.cpp:71-87 | Every rank lies in the root's subtree. Following parents from any rank reaches 0. |
| `Tree.SubtreeChildren` | tasks/mpi/leontev_n_gather/src/ops_mpi.cpp:71-87 | Below `r`, a rank is in `r`'s subtree exactly when it is in the left or the right child's subtree. |
| `Tree.SubtreesNest` | tasks/mpi/leontev_n_gather/src/ops_mpi.cpp:71-87 | Two subtrees that share a rank are nested. |
| `Tree.SiblingsDisjoint` | tasks/mpi/leontev_n_gather/src/ops_mpi.cpp:71-87 | The left and right subtrees of a rank share no rank, so no input is gathered twice. |
| `Tree.NonZeroRootSelfLoop` | tasks/mpi/leontev_n_gather/src/ops_mpi.cpp:71-87 | As written, with root 1 and three ranks, rank 0 gets parent 0, left child 0 and right child 1. It names itself as its own parent and child. |
| `Tree.EuclidChild` | tasks/mpi/leontev_n_gather/src/ops_mpi.cpp:73-80 | Read with Euclidean `%`, an existing child is a rank other than the root, sits at position `2·pos+1` or `2·pos+2` relative to the root, and names the rank as its parent. |
| `Tree.EuclidParent` | tasks/mpi/leontev_n_gather/src/ops_mpi.cpp:83-87 | Read with Euclidean `%`, a non-root rank's parent is in range and lists the rank as its left or right child. |
| `Tree.EuclidTree` | tasks/mpi/leontev_n_gather/src/ops_mpi.cpp:71-87 | Read with Euclidean `%`, every root gives a tree: only the root lacks a parent, parent and child name each other, and no rank is its own child. |
| `Tree.EuclidAgreesAtRootZero` | tasks/mpi/leontev_n_gather/src/ops_mpi.cpp:71-87 | With root 0, the Euclidean reading and the code as written give the same neighbours. |
| `Gather.CombinePermutes` | tasks/mpi/leontev_n_gather/src/ops_mpi.cpp:93-104 | The append rule is defined exactly when both split points lie inside the received payloads. It then produces a permutation of own + left + right, of the summed length, that begins with the rank's own input. |
| `Gather.MyGather` | tasks/mpi/leontev_n_gather/src/ops_mpi.cpp:65-111 | Builds, by the source's sequence of appends, exactly the payload `Payload` defines for the rank. The children's payloads are given and must be long enough for the rank's table. |
| `Gather.PayloadPermutation` | tasks/mpi/leontev_n_gather/src/ops_mpi.cpp:88-110 | A defined payload is a permutation of the inputs of the sender's subtree, and begins with the sender's own input. |
| `Gather.RootPermutation` | tasks/mpi/leontev_n_gather/src/ops_mpi.cpp:65-111 | At the root, a defined result is a permutation of every rank's input concatenated in rank order, of the same length, beginning with the root's own input. |
| `Gather.PayloadDefined` | tasks/mpi/leontev_n_gather/src/ops_mpi.cpp:93-102 | The gather is defined whenever each parent's table asks each child for no more than that child's own input length. |
| `Gather.NonRootPreOrder` | tasks/mpi/leontev_n_gather/src/ops_mpi.cpp:88-104 | When every non-root table is zero, as the source's tables are, each non-root rank forwards its subtree's inputs in pre-order. |
| `Gather.ZeroSplitsPreOrder` | tasks/mpi/leontev_n_gather/src/ops_mpi.cpp:88-104 | When every split point is zero, the root's included, the gather is defined and the root receives all inputs in pre-order. |
| `Gather.CombineNoSplit` | tasks/mpi/leontev_n_gather/src/ops_mpi.cpp:93-104 | With split points 0, the whole left payload and then the whole right payload follow the own input. |
| `Gather.SingleRank` | tasks/mpi/leontev_n_gather/src/ops_mpi.cpp:71-110 | With one rank there is no child and no parent, and the root's output is its input unchanged. |
| `Gather.EightRanksOrder` | tasks/mpi/leontev_n_gather/src/ops_mpi.cpp:88-104 | The rule does not give rank order. Take eight ranks, where rank `r` holds the single element `r`, the root's table asks one element of each child, and every other table is zero, as the source's are. The root then gets `0,1,2,3,7,4,5,6`. |
| `Distribution.DivRows` | tasks/mpi/leontev_n_gather/src/ops_mpi.cpp:159 | `std::div(N, P)`: `quot·P + rem = N`, and for N ≥ 0, P > 0 the quotient is `N / P` and `0 ≤ rem < P`. |
| `Distribution.Sizes` | tasks/mpi/leontev_n_gather/src/ops_mpi.cpp:165-166 | The table has P entries: `(quot+rem)·len` at index 0 and `quot·len` elsewhere. |
| `Distribution.SizesCoverMatrix` | tasks/mpi/leontev_n_gather/src/ops_mpi.cpp:157-166 | On rank 0 (len = N) the entries sum to N·N, and every entry lies between 0 and entry 0. |
| `Distribution.LocalProduct` | tasks/mpi/leontev_n_gather/src/ops_mpi.cpp:164-182 | Starting from a zeroed buffer of `len` entries, the first `rows` entries become the local block's row products with the vector, and the rest stay 0. |
| `Parallel.RootBlockInside` | tasks/mpi/leontev_n_gather/src/ops_mpi.cpp:164-173 | Rank 0's `quot+rem` rows fit in the N×N matrix. |
| `Parallel.RootRowCount` | tasks/mpi/leontev_n_gather/src/ops_mpi.cpp:159-164 | Rank 0 computes `quot + rem` rows: at most N, all inside the matrix, and exactly N when P = 1 or N < P. |
| `Parallel.RootBlock` | tasks/mpi/leontev_n_gather/src/ops_mpi.cpp:161-169 | After the scatter rank 0's `local_input` has as many entries as the matrix: the matrix's first `quot+rem` rows, then zeros. |
| `Parallel.RootRows` | tasks/mpi/leontev_n_gather/src/ops_mpi.cpp:164-175 | Rank 0's `local_tmp` has `quot + rem` entries, and each is the same entry of the full matrix-vector product. |
| `Parallel.NonRootRun` | tasks/mpi/leontev_n_gather/src/ops_mpi.cpp:161-181 | On a rank other than 0, the row loop run through `Distribution.LocalProduct` with an empty `local_input`, an empty vector and rows of length `res.size()` = 0 leaves `local_tmp` as `quot + rem` zeros: exactly what `Parallel.RankInputs` states that rank contributes. |
| `Parallel.RankInputs` | tasks/mpi/leontev_n_gather/src/ops_mpi.cpp:164-182 | Every rank contributes `quot + rem` entries: rank 0 its rows, every other rank (which holds no matrix and no vector) zeros. |
| `Parallel.RankTables` | tasks/mpi/leontev_n_gather/src/ops_mpi.cpp:165-166 | Each table has P entries. Rank 0's table is `(quot+rem)·N` for itself and `quot·N` for each other rank. Every other rank's table is all zero, because its `res` is empty. |
| `Parallel.BlockComputable` | tasks/mpi/leontev_n_gather/src/ops_mpi.cpp:170-175 | If no step of the full product overflows 32 bits, no step of rank 0's rows does. |
| `Parallel.RootRun` | tasks/mpi/leontev_n_gather/src/ops_mpi.cpp:155-186 | Rank 0's `run`: it computes its rows of the scattered block with `Distribution.LocalProduct`, then gathers. The result is exactly `RootResult`. It requires only that rank 0's own rows stay within 32 bits; `Parallel.BlockComputable` derives that from the whole product's condition. |
| `Parallel.NonRootRanksForward` | tasks/mpi/leontev_n_gather/src/ops_mpi.cpp:88-109 | With the tables `run` builds, every rank other than 0 forwards its subtree's inputs in pre-order. |
| `Parallel.UniformGather` | tasks/mpi/leontev_n_gather/src/ops_mpi.cpp:88-110 | A defined gather of P inputs of k entries each, all zero except rank 0's, gives P·k entries: rank 0's input, then zeros. |
| `Parallel.RootResultShape` | tasks/mpi/leontev_n_gather/src/ops_mpi.cpp:155-186 | Whenever the gather in `run` is defined, rank 0's buffer has P·(quot+rem) entries. The first `quot + rem` are the first entries of the true product, and the rest are 0. |
| `Parallel.FewRowsOverrun` | tasks/mpi/leontev_n_gather/src/ops_mpi.cpp:110 | With 1 ≤ N < P the gather is defined and rank 0's buffer is the whole product followed by (P−1)·N zeros. That is P·N > N entries, all copied into a `res` of N entries. |
| `Parallel.SingleProcessMatchesSequential` | tasks/mpi/leontev_n_gather/src/ops_mpi.cpp:155-184 | With one process the parallel run leaves in `res` exactly the product the sequential `run` computes. |
| `Parallel.TwoRanksOverrun` | tasks/mpi/leontev_n_gather/src/ops_mpi.cpp:164-166 | With N = 2 and two ranks, rank 0 asks rank 1 for 2 elements of a 1-element payload, so the gather is undefined. |

## Left out

- **Messages.** MPI communication (`broadcast`, `scatterv`, `send`, `recv`) is replaced by the values it delivers. A child's received payload is the recursive `Payload` of that child, and the scatter is rank 0 keeping the first `sizes[0]` entries of the matrix. Concurrency, message order and deadlock are not modelled.
- **End-to-end result for more than one process.** The source does not compute the product for P > 1:
  - only rank 0 takes part in the scatter, and `vec_` is never sent to the other ranks;
  - the `sizes` handed to `my_gather` count matrix elements (`quot·N`), while each rank sends `quot + rem` results. `Parallel.TwoRanksOverrun` shows that this already breaks the gather with two ranks.
  - when the gather is defined, rank 0's gathered buffer has P·(quot+rem) entries (`Parallel.RootResultShape`), and for P > 1 that is more than N. The `std::copy` at `ops_mpi.cpp:110` then writes past the end of rank 0's `res`, which has N entries. For example, N = 1 and P = 2 give a buffer of two entries, the product and a 0 (`Parallel.FewRowsOverrun`).
  
  The end-to-end claim that `res` holds the product is therefore made for P = 1 only. For P > 1 the model states what the gather delivers.
- **Copying the gathered buffer to the output.** The root copies its whole gathered buffer into `res.data()` (`ops_mpi.cpp:110`). The model returns that buffer and does not model the write into `res`.
- **Parallel pre_processing and post_processing** (`ops_mpi.cpp:114-136, 188-194`). On rank 0 they are the sequential phases, which are modelled. On other ranks they do nothing.
- **Width of the counts.** The framework's `TaskData` declaration is not part of this model. Its `inputs_count` entries are taken to be `std::uint32_t`, the type that declaration gives them. The tests fill them from `size()` (`func_tests/main.cpp:27,29`).
- `Distribution.Sizes`: the table entries are C++ `int` (`ops_mpi.cpp:165`), filled from the `size_t` product `quot * res.size()`. The model keeps them unbounded and so assumes (quot+rem)·N < 2^31. When P = 1 or P > N, `quot + rem` = N and `sizes[0]` = N², which leaves the `int` range from N = 46341 on; the `scatterv` at `ops_mpi.cpp:168` would then get a count outside it. For 2 ≤ P ≤ N, `quot + rem` is at most ⌈N/2⌉, so `sizes[0]` stays in range for every square problem (N < 2^16). `Parallel.SingleProcessMatchesSequential` (P = 1) therefore describes the source only for N ≤ 46340, and `Parallel.RootResult` differs from the source only when P = 1 or P > N ≥ 46341.
- **`internal_order_test()`** is a call into the task framework and is not part of this model. The same goes for the raw `uint8_t*` buffers behind `reinterpret_cast`. Inputs are sequences of `int32` with their counts, and the output is an `int32` array.
- `Sequential.MatVecSequential.Run`: the model requires that no product or partial sum leaves the 32-bit range (`Computable`), because signed overflow is undefined behaviour in C++. No wrap-around is claimed.
- `Distribution.LocalProduct`: same 32-bit requirement. The model also takes the local block and the vector as sequences instead of the rank's `local_input` and `vec_` members.
- `Gather.MyGather`: it computes only the buffer the rank forwards or, at the root, outputs. It is modelled with `root = 0`, the only root the source passes. Other roots are covered by the finding below.
- **Rank order.** A library gather delivers the blocks in rank order, and `my_gather` stands in for one (`ops_mpi.cpp:183-184`). The tree rule does not guarantee that order. Only a permutation is proved (`Gather.RootPermutation`), and `Gather.EightRanksOrder` gives an order that differs.

## Findings

| source | as written | input that shows it | evidently intended | confidence | as-written member | corrected member |
|---|---|---|---|---|---|---|
| tasks/mpi/leontev_n_gather/src/ops_mpi.cpp:36 | `inputs_count[1] * inputs_count[1]` is a 32-bit unsigned product, which wraps modulo 2^32 (the parallel check repeats it at line 145) | counts (131073, 65537): 65537² mod 2^32 = 131073, so `validation` accepts a matrix of 131073 entries for a vector of 65537, and `run` then reads 65537² entries of `mat_` | The square compared in full width | not executed | `Validation.WrappedCountAccepted` | `Validation.CheckedValidation` |
| tasks/mpi/leontev_n_gather/src/ops_mpi.cpp:71-86 | C++ `%` of a negative `rank - root` stays negative, so for a root other than 0 the neighbour arithmetic does not rotate the ranks around the root | root = 1, P = 3, rank 0: parent 0, left child 0, right child 1 (rank 0 would wait for a message from itself) | A Euclidean remainder, which makes the neighbours a tree for every root | not executed | `Tree.NonZeroRootSelfLoop` | `Tree.EuclidTree` |
