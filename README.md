# Simon's algorithm: classical post-processing, verified

This project models the exact classical half of the hidden-mask recovery demo
(Simon's algorithm) in the `mdschatz/qiskit` repository, and proves properties
of that model in Dafny:

- `row_echelon` (matrix_util.py): recursive, column-by-column Gaussian
  elimination that works in place on a matrix. `Echelon.RowEchelon` is the
  value it computes, written as a recursive function. `Echelon.RowEchelonInPlace`
  is the algorithm itself, run on an `array2<real>` through a window that
  starts at row `r0` and column `c0`. These windows stand in for the numpy
  sub-views the recursion writes through. The method is proved to leave
  `RowEchelon` of the window's old contents in the window. The lemmas prove:
  - the result is in row-echelon form with leading ones;
  - the first column behaves as the pivot step promises;
  - the row space is preserved;
  - the rows stay linearly independent when they start out so.
- `null_space` (matrix_util.py): the method stacks `A` over the identity,
  reduces the transpose, and keeps the identity part of every column whose
  `A` part is zero. `Kernel.NullSpace` is the method on arrays;
  `Kernel.NullSpaceSpec` is the value it returns. The lemmas prove that the
  returned vectors:
  - lie in the kernel of `A`, exactly;
  - are in echelon form and linearly independent;
  - span the whole kernel.

  They also cover two boundary cases: an all-zero `A` gives the identity, and
  an `A` with trivial kernel gives no vectors.
- `simons_alg` and `verify_flip_but_bit` (simons.py):
  - `Simons.SimonsAlg` is the sampling loop. The simulator's output is
    replaced by a sequence of distributions, one per pass.
  - `Simons.SimonsSpec` is the run it performs, written as a function.
  - The constraint matrix `E` is the sorted, repeat-free set of picked rows
    (`Constraints`).

Cells are Dafny `real`s, i.e. exact rationals, so every "is exactly zero"
test in the source is exact here. Python's float `x % 2` is modelled by
`Simons.Mod2` (floor semantics, result in `[0, 2)`).

## Model

| member | source | states |
|---|---|---|
| Echelon.RowEchelon | matrix_util.py:6-43 | the result of `row_echelon` has the input's shape: as many rows, each `c` entries long; a matrix with no rows or no columns is returned unchanged |
| Echelon.FirstNonzero | matrix_util.py:16-18 | the scan stops at the first row whose column-0 entry is nonzero, and every row above it has a zero there; it returns the row count when there is none |
| Echelon.RowEchelonIsEchelon | matrix_util.py:16-43 | the result is in row-echelon form: each row's leading entry lies strictly right of every leading entry above it unless the row is zero (so zero rows sink), and every leading entry is exactly 1 |
| Echelon.RowEchelonFirstColumn | matrix_util.py:16-43 | an all-zero first column stays all zero; otherwise the top row leads with exactly 1 and every entry below it in column 0 is 0 |
| Echelon.PivotStep | matrix_util.py:28-37 | after the swap, the division by the pivot and the subtraction, the pivot row starts with 1 and the remaining rows start with 0, with the same row count and width |
| Echelon.RowEchelonRowSpace | matrix_util.py:28-43 | only elementary row updates are used: every set of vectors closed under scaling and subtracting multiples holds all input rows exactly when it holds all output rows |
| Echelon.RowEchelonIndependent | matrix_util.py:28-43 | linearly independent input rows give linearly independent output rows (a swap, a nonzero scaling and subtracting multiples of the pivot row lose no rank) |
| Echelon.EchelonSpans | matrix_util.py:28-43 | every combination of the input rows is a combination of the output rows (the output spans the input's row space) |
| Echelon.RowEchelonZeroPad | matrix_util.py:19-24 | leading all-zero columns are deferred and reattached unchanged |
| Echelon.RowEchelonIdentity | matrix_util.py:26-43 | the identity matrix is its own row-echelon form |
| Echelon.SwapRows | matrix_util.py:28-31 | the two rows are exchanged from the window's first column on, and nothing else changes |
| Echelon.NormalizeRow | matrix_util.py:34 | the pivot row, from the window's first column on, is divided by its pivot, and nothing else changes |
| Echelon.EliminateBelow | matrix_util.py:37 | each row below the pivot row loses its column-`c0` entry times the pivot row, and nothing else changes |
| Echelon.PivotInPlace | matrix_util.py:26-37 | the window becomes the normalized pivot row on top of the eliminated remaining rows; cells outside the window keep their values |
| Echelon.RowEchelonInPlace | matrix_util.py:6-43 | the window from row `r0` and column `c0` ends up holding `RowEchelon` of its old contents, and cells outside the window keep their values |
| Echelon.ReduceAfterZeroColumn | matrix_util.py:19-24 | the zero-first-column branch leaves `RowEchelon` of the window |
| Echelon.ReduceAfterPivot | matrix_util.py:26-43 | the pivot branch leaves `RowEchelon` of the window |
| Echelon.ReduceCorner | matrix_util.py:40-43 | the recursive call on `A[1:,1:]` keeps the window's top row and, below it, the first column, and puts the row-echelon form of the remaining block beside that column; cells outside the window keep their values |
| Kernel.StackedTransposeIs | matrix_util.py:50-51 | the transpose of `[A; I]` is, row by row, a column of `A` followed by the matching unit vector |
| Kernel.Picked | matrix_util.py:55-57 | the indices of the columns of `BC` whose top `n_vec` entries are all zero: all of them, each once, in increasing order |
| Kernel.NullSpaceSpec | matrix_util.py:46-58 | the vectors `null_space` returns: between 0 and `v_dim` of them, each with `v_dim` entries; what they are is stated by the `NullSpaceInKernel`, `NullSpaceEchelon`, `NullSpaceIndependent` and `NullSpaceSpans` rows below |
| Kernel.NullSpaceInKernel | matrix_util.py:46-57 | every returned vector `v` satisfies `A v = 0` exactly |
| Kernel.NullSpaceEchelon | matrix_util.py:46-57 | the returned vectors are in echelon form with leading ones |
| Kernel.NullSpaceIndependent | matrix_util.py:46-57 | the returned vectors are linearly independent and none of them is zero |
| Kernel.NullSpaceSpans | matrix_util.py:46-57 | every `v` with `A v = 0` is a linear combination of the returned vectors, with the coefficients returned; with their independence they form a basis of the kernel |
| Kernel.NullSpaceOfZero | matrix_util.py:50-57 | for an all-zero `A`, or one with no rows, the result is the `v_dim` by `v_dim` identity |
| Kernel.NullSpaceEmptyIff | matrix_util.py:50-57 | no vectors are returned exactly when `A v = 0` only for `v = 0` (full column rank, for instance a full-rank square `A`) |
| Kernel.StackIdentity | matrix_util.py:50 | a fresh array holding `A` above the `v_dim` by `v_dim` identity |
| Kernel.TransposeArray | matrix_util.py:51 | a fresh array holding the transpose |
| Kernel.ReduceStack | matrix_util.py:50-51 | a fresh array holding the row-echelon form of the transpose of `[A; I]`, the caller's `A` untouched |
| Kernel.ReduceWhole | matrix_util.py:51 | `row_echelon` on the whole transposed stack leaves its row-echelon form in the array |
| Kernel.ZeroPrefixColumns | matrix_util.py:54-57 | the scan collects the identity parts of exactly the zero-prefixed columns, in increasing order |
| Kernel.ZeroPrefix | matrix_util.py:56 | true exactly when all of the first `n_vec` entries are zero |
| Kernel.FromColumns | matrix_util.py:54-57 | a `v_dim` by `k` array whose columns are the collected vectors |
| Kernel.NullSpace | matrix_util.py:47-58 | `null_space(A)` has `v_dim` rows and its columns are the vectors `NullSpaceSpec` describes |
| Constraints.Insert | simons.py:47-48 | adding a row to `E` as `np.unique` does keeps `E` sorted and repeat-free; its rows become the old ones plus the new one |
| Constraints.SortedUnique | simons.py:48 | a sorted, repeat-free row list is determined by its set of rows |
| Constraints.SortedBitsBound | simons.py:48 | a sorted, repeat-free list of `n`-bit rows has at most `2^n` rows |
| Simons.ArgMax | simons.py:42 | the picked key has a maximal count, and every earlier key has a strictly smaller one (ties go to the first in order) |
| Simons.Pick | simons.py:42-46 | the row a pass adds to `E` is an `n`-bit row: the parsed most frequent key |
| Simons.Parse | simons.py:46 | the parsed row has one entry per character, and on a bit-string entry `i` is 1 exactly when character `i` is `'1'` (otherwise 0) |
| Simons.Mod2 | simons.py:53 | Python's float `% 2`: a value in `[0, 2)` that differs from the input by an even integer |
| Simons.Mod2Vec | simons.py:53 | `ns % 2` entry by entry: same length, each entry `Mod2` of the input's |
| Simons.RowsToArray | simons.py:52 | a fresh `|E|` by `n` array holding `E` as reals, the matrix `null_space` is called with |
| Simons.EAfter | simons.py:35-48 | after `t` passes `E` is sorted, repeat-free, of width `n`, and holds exactly the rows picked in those passes |
| Simons.EAfterBounds | simons.py:35-48 | `E` has at most `2^n` rows, only gains rows from pass to pass, and holds the current pass's row |
| Simons.OutcomeShape | simons.py:52-67 | `Outcome`, the decision one pass takes from `null_space(E)`: a pass's answer has `n` entries in `[0, 2)`. With exactly one null-space vector `u` (and `E u = 0`) it is `u` mod 2. Otherwise it exists only when this pass's distribution has a single key, and then it is the zero vector |
| Simons.SimonsRun | simons.py:36-69 | `SimonsSpec`, the `while` loop written as the function `Loop` started with no passes made: a run makes at most `10 n` passes. It stops at the first pass that decides something and returns that pass's answer. It returns nothing only after `10 n` passes that all decided nothing |
| Simons.AnswerShape | simons.py:64-69 | whatever a run returns has `n` entries, each in `[0, 2)` |
| Simons.PassShape | simons.py:52-67 | whatever one pass decides has `n` entries, each in `[0, 2)` |
| Simons.RealKernelMissesMask | simons.py:52-67 | for `E` = {`0110`, `1010`, `1100`}, rows that are all orthogonal mod 2 to the mask `1110`, `null_space(E)` over the reals is exactly `[0001]`, so the pass answers `0001` and not the mask |
| Simons.AllZeroFirstPass | simons.py:64-67 | a first distribution with the single key `0...0` ends the run after one pass: with the zero vector when `n >= 2`, and with `[1]` when `n == 1` |
| Simons.PassDecision | simons.py:52-67 | one pass's exit tests on `null_space(E) % 2` agree with `Outcome` |
| Simons.Pass | simons.py:40-67 | one loop body: `E` gains this pass's row as `EAfter` says, and the decision is the pass's outcome |
| Simons.SimonsAlg | simons.py:31-69 | the loop returns exactly what `SimonsSpec` says: the first pass's decision, or nothing after `10 n` passes |
| Simons.VerifyFlipButBit | simons.py:88-102 | reports success exactly when `FlipsAllBut` holds, that is when `(1 - a[n-1-i]) mod 2 == 1` for every `i` other than `t` and `!= 1` at `i == t` |
| Simons.FlipsAllButMeansUnit | simons.py:88-102 | on entries in `[0, 2)` the check succeeds exactly when `a` is zero everywhere except at position `n-1-t` |

## Left out

- Quantum circuits, the simulator and image output: `simon_circuit`,
  `circuit_flip_but_bit`, `get_Uf` and the command-line `main` in simons.py,
  and all of grovers_search.py. The simulator's result for pass `k` is the
  input `dists[k]`. These are (key, count) pairs in the dictionary's order,
  with non-empty distinct `n`-bit keys. `SimonsAlg` asks for at least `10 n`
  of them, because the loop never runs more passes than that.
- The shot count passed to the simulator and `count_frac` (simons.py:43), which
  nothing uses.
- Floating point: cells are exact rationals. The source's `==`/`!=` tests on
  floats (matrix_util.py:17, matrix_util.py:56) are exact here, and rounding
  is not modelled.
- numpy view aliasing: the recursion works on index windows of one owned array.
  It does not reproduce how numpy views share storage beyond the values that
  end up in the window.
- `np.random.rand(0, n)` (simons.py:35, matrix_util.py:54) is an empty matrix
  of width `n`. No randomness is involved.
- The `print` side effects of `verify_flip_but_bit`: it returns a boolean instead.
- Kernel.NullSpaceSpans: the count of returned vectors is not stated as
  `v_dim - rank(A)` because rank is not defined in this model. Instead the
  vectors are proved to be a basis of the kernel: they are independent and
  they span it. Their number is the kernel's dimension by definition.
- The null space is computed over the reals and only then reduced mod 2, as
  the source does. This is not in general the null space over GF(2). The
  model follows the code and does not claim the GF(2) property.
  `Simons.RealKernelMissesMask` exhibits the gap: the rows `0110`, `1010` and
  `1100` are all orthogonal mod 2 to the mask `1110`, and over GF(2) they
  leave two independent solutions. Over the reals they leave only `0001`, so a
  pass that ends with this `E` answers `0001`. Recovering the mask would need
  elimination over GF(2), which the source does not do, so no corrected
  version is modelled.
