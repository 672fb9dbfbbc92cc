# A Dafny model of the `miv` dense linear-algebra core and its Newton driver

This project models the core of `miv`, a small C++ library, and proves properties of the model. The core has four parts:

- **Containers.** `miv::array<T>` is a bounds-checked heap array. `miv::matrix<T>` is a row-major `rows x cols` matrix over an array of exactly `rows * cols` elements.
- **Shape helpers.** The `miv::math` guards, plus the "vector" view that treats `1 x N` and `N x 1` matrices alike.
- **Kernel.** Element-wise arithmetic, `matmul`, `transpose`, `identity`, `trace`, `dot`, the norms and normalisation, `sum` and `mean`, `apply`, and the validating `equation_system`.
- **Newton driver.** The console program that solves a nonlinear system `F(x) = 0` by Newton's method or by the modified (frozen-Jacobian) method. The Jacobian is either built by finite differences or typed in by the user.

Modules, one per source file:

| module | file | models |
|---|---|---|
| `Exceptions` | exceptions.dfy | the standard exceptions the code throws, as `Result`/`Outcome` values |
| `Arrays` | array.dfy | containers/array.hpp |
| `Matrices` | matrix.dfy | containers/matrix.hpp |
| `Helpers` | helpers.dfy | math/helpers.hpp |
| `Linalg` | linalg.dfy | math/linalg.hpp |
| `Functional` | functional.dfy | math/functional.hpp |
| `EquationSystems` | equation_system.dfy | math/equation_system.hpp |
| `Newton` | newton.dfy | the helpers and the iteration in main.cpp |

Modelling conventions:

- **Exceptions.** A thrown exception is an `Err` carrying its kind: `OutOfRange`, `InvalidArgument`, `EmptySystem` for the early exit on an empty system, or the solver's own error. The contracts state when each kind arises: the containers, helpers and kernels name the condition for every kind; `Newton.SolveStep` and `Newton.Step` say which check or which solver error produces a failure, and `Newton.IterateFailsAlongLoop` traces a failed run to the failing loop body on its trajectory.
- **Values instead of mutation.** A mutating member returns the new value. A move returns both the target and the emptied source.
- **Uninitialised storage.** `new T[n]` leaves its storage uninitialised, so its contents come from a `junk` parameter, a function from buffer index to value. A contract about such cells holds whatever they contain.
- **Exact arithmetic.** The element type of the kernel is exact `real`. The `long double` accumulator of the sums is exact as well.
- **The Newton driver.** Every console input is a parameter: method, damping factor `lambda` (1 when damping is off), Jacobian source, `max_iter`, `eps_F`, `eps_x`, `x0` and the manual Jacobian. The residual functions, the square root of machine epsilon, `norm_l2` and the linear solver `solve_lup()` (declared nowhere in the repository) are parameters too. They are collected in `Newton.Env`.

## Model

| member | source | states |
|---|---|---|
| Arrays.Empty | containers/array.hpp:99 | the default array has size 0 |
| Arrays.Allocate | containers/array.hpp:102 | `array(n)` has size `n`; every element is the allocator's unspecified content |
| Arrays.FromList | containers/array.hpp:105-126 | the initializer-list array holds the literal's elements in order |
| Arrays.FromBuffer | containers/array.hpp:129-155 | size 0 gives an empty array; a null pointer with a non-zero size throws `invalid_argument`; otherwise the first `size` pointed-to elements are copied |
| Arrays.Get | containers/array.hpp:441-462 | throws `out_of_range` iff `idx >= size()`; otherwise returns element `idx` |
| Arrays.Set | containers/array.hpp:441-450 | the same check; on success only element `idx` changes and it becomes `v` |
| Arrays.SetThenGet | containers/array.hpp:441-462 | reading an element right after writing it returns the written value |
| Arrays.GetThenSet | containers/array.hpp:441-462 | writing back the value just read leaves the array equal to the original |
| Arrays.Clear | containers/array.hpp:226-231 | `clear()` leaves the array empty |
| Arrays.Fill | containers/array.hpp:234-242 | every element becomes `value` and the size is unchanged |
| Arrays.Resize | containers/array.hpp:245-278 | the same size is a no-op and 0 empties the array; otherwise the size is `n`, the first `min(old, n)` elements are kept, and the rest are fresh storage |
| Arrays.ResizeGrowShrink | containers/array.hpp:245-278 | growing and then shrinking back to the old size restores the array, whatever the fresh storage held |
| Arrays.Front | containers/array.hpp:281-300 | throws `out_of_range` iff the array is empty; otherwise returns element 0 |
| Arrays.Back | containers/array.hpp:303-322 | throws `out_of_range` iff the array is empty; otherwise returns element `size-1` |
| Arrays.FindFrom | containers/array.hpp:334-343 | the linear scan returns the first index at or after `from` that holds `value`, or `npos` iff there is none |
| Arrays.Find | containers/array.hpp:325-344 | `npos` iff `value` does not occur; otherwise the smallest index holding `value` |
| Arrays.Contains | containers/array.hpp:347-351 | true iff `value` occurs in the array |
| Arrays.Equal | containers/array.hpp:465-478 | `==` holds iff the sizes match and the elements are pairwise equal |
| Arrays.ElementsEqual | containers/array.hpp:477 | `std::equal` holds iff the suffixes agree element by element |
| Arrays.NotEqual | containers/array.hpp:481-484 | `a != b` iff the sizes differ or some element differs |
| Arrays.EqualIsValueEquality | containers/array.hpp:465-478 | `==` coincides with equality of the modelled arrays |
| Arrays.Copy | containers/array.hpp:172-188 | a copy has the same size and the same elements |
| Arrays.Move | containers/array.hpp:191-198 | the target takes the source's contents and the source is left empty |
| Arrays.MoveAssign | containers/array.hpp:424-438 | self-move changes nothing; otherwise the target takes the source and the source is left empty |
| Matrices.Default | containers/matrix.hpp:114 | the default matrix is 0 x 0 with an empty buffer |
| Matrices.Allocate | containers/matrix.hpp:117-122 | `matrix(rows, cols)` has that shape and a buffer of `rows*cols` unspecified elements, not zeros |
| Matrices.Build | containers/matrix.hpp:117-122 | a valid matrix of the given shape whose cell `(r, c)` is `f(r, c)` |
| Matrices.CellsDetermine | containers/matrix.hpp:679-700 | two valid matrices of the same shape that agree on every cell are equal |
| Matrices.ScanWidthCorrect | containers/matrix.hpp:140-159 | the validation loop accepts exactly the rectangular literals and returns the first non-empty row's width; otherwise `invalid_argument` |
| Matrices.FromNested | containers/matrix.hpp:137-176 | a ragged literal throws `invalid_argument`; no rows or no columns give 0 x 0; otherwise cell `(rr, cc)` holds the literal |
| Matrices.FromBuffer | containers/matrix.hpp:179-205 | a zero dimension gives 0 x 0; a null pointer otherwise throws `invalid_argument`; otherwise the buffer is the first `rows*cols` pointed-to elements |
| Matrices.FromArray | containers/matrix.hpp:215-221 | an array becomes a `1 x N` row, or `0 x 0` when it is empty |
| Matrices.ConcatCell | containers/matrix.hpp:260-279 | after copying equal-length rows end to end, buffer index `r*n + c` holds element `c` of row `r` |
| Matrices.FromRows | containers/matrix.hpp:224-280 | no rows give 0 x 0; a row whose size differs from the first throws `invalid_argument`; otherwise cell `(r, c)` is element `c` of row `r` |
| Matrices.LinearIndex | containers/matrix.hpp:679-688 | throws `out_of_range` iff `r >= rows` or `c >= cols`; otherwise an in-bounds index that decodes back to `(r, c)` |
| Matrices.At | containers/matrix.hpp:691-700 | the same check; on success the value of cell `(r, c)` |
| Matrices.Update | containers/matrix.hpp:691-695 | the same check; on success only cell `(r, c)` changes and it becomes `v` |
| Matrices.UpdateThenAt | containers/matrix.hpp:691-700 | reading a cell right after writing it returns the written value |
| Matrices.Row | containers/matrix.hpp:351-367 | throws `out_of_range` iff `r >= rows`; otherwise an array of length `cols` holding row `r` |
| Matrices.Col | containers/matrix.hpp:370-390 | throws `out_of_range` iff `c >= cols`; otherwise an array of length `rows` holding column `c` |
| Matrices.RowMatrix | containers/matrix.hpp:393-420 | row `r` as a `1 x cols` matrix, or `out_of_range` |
| Matrices.ColMatrix | containers/matrix.hpp:423-444 | column `c` as a `rows x 1` matrix, or `out_of_range` |
| Matrices.Clear | containers/matrix.hpp:448-453 | `clear()` leaves a 0 x 0 matrix that is `empty()` |
| Matrices.Fill | containers/matrix.hpp:456-459 | every element becomes `value` and the shape is unchanged |
| Matrices.Resize | containers/matrix.hpp:462-500 | the same shape is a no-op and a zero dimension clears to 0 x 0; otherwise the new shape keeps every cell of the 2-D overlap at the same `(r, c)`, and the other cells are fresh storage |
| Matrices.CopyOverlap | containers/matrix.hpp:477-497 | the buffer built by `resize` has the new shape; a cell inside the old bounds holds the old cell at the same `(r, c)`, and any other cell holds the fresh storage at its buffer index |
| Matrices.ResizeGrowShrink | containers/matrix.hpp:462-500 | growing a non-empty matrix and shrinking it back restores it, whatever the fresh storage held |
| Matrices.CheckPermutation | containers/matrix.hpp:505-529 | the checks fail, in order, on a wrong length (`invalid_argument`), an index out of range (`out_of_range`) or a duplicate (`invalid_argument`); they pass iff `perm` is a permutation of `0..n-1` |
| Matrices.RowPermute | containers/matrix.hpp:503-554 | fails iff `perm` is not a permutation of the rows, with the error of the first failing check and before any data moves; on success new row `r` is old row `perm[r]` and the shape is unchanged |
| Matrices.ColPermute | containers/matrix.hpp:557-609 | the same checks against `cols`; on success `new(r, c) = old(r, perm[c])` |
| Matrices.RowPermuteIdentity | containers/matrix.hpp:503-554 | the identity is accepted as a permutation, and permuting rows by it changes nothing |
| Matrices.ColPermuteIdentity | containers/matrix.hpp:557-609 | permuting columns by the identity changes nothing |
| Matrices.RowPermuteCompose | containers/matrix.hpp:540-546 | permuting rows by `p` and then by `q` is permuting once by `i -> p[q[i]]` |
| Matrices.Equal | containers/matrix.hpp:703-711 | `==` holds iff the shapes and the buffers are equal |
| Matrices.EqualIffSameCells | containers/matrix.hpp:703-711 | `==` holds iff the shapes match and every cell agrees |
| Matrices.Copy | containers/matrix.hpp:650-660 | a copy has the same shape and buffer |
| Matrices.Move | containers/matrix.hpp:129-134 | the target takes shape and buffer; the source is left 0 x 0 |
| Matrices.MoveAssign | containers/matrix.hpp:663-676 | self-move changes nothing; otherwise the target takes the source and the source is left 0 x 0 |
| Helpers.RequireSameShape | math/helpers.hpp:38-46 | throws `invalid_argument` iff the rows or the cols differ |
| Helpers.RequireMmulCompatible | math/helpers.hpp:54-63 | throws `invalid_argument` iff `a.cols != b.rows` |
| Helpers.RequireSquareness | math/helpers.hpp:71-79 | throws `invalid_argument` iff `rows != cols` |
| Helpers.IsVector | math/helpers.hpp:84-88 | a `1 x N` or `N x 1` matrix; the buffer of a valid vector holds one element per row or one per column |
| Helpers.VectorLength | math/helpers.hpp:96-101 | `cols` for `1 x N` (which wins for `1 x 1`), `rows` for `N x 1`, `invalid_argument` otherwise; for a valid vector this is its buffer size |
| Helpers.VectorAt | math/helpers.hpp:109-120 | a non-vector throws `invalid_argument`; for a vector, `out_of_range` iff `i` is past its length; otherwise buffer element `i` |
| Helpers.VectorAtCell | math/helpers.hpp:109-120 | for a row vector that element is cell `(0, i)`, for a column vector cell `(i, 0)` |
| Helpers.PermuteVector | math/helpers.hpp:147-161 | a non-vector throws `invalid_argument`; a vector fails iff `perm` is not a permutation of its length, with the error of the first failing check of `row_permute`/`col_permute`: a wrong length or a duplicate throws `invalid_argument`, an index out of range throws `out_of_range`; on success element `i` is old element `perm[i]` and the shape is unchanged |
| Linalg.SumScale | math/linalg.hpp:488-499 | scaling every term scales the sum by the same factor |
| Linalg.SumNonNegative | math/linalg.hpp:488-499 | a sum of non-negative terms is non-negative |
| Linalg.SumZeroIffAllZero | math/linalg.hpp:488-499 | a sum of non-negative terms is 0 iff every term is 0 |
| Linalg.TermBelowSum | math/linalg.hpp:488-499 | each non-negative term is at most the sum |
| Linalg.SumBounds | math/linalg.hpp:488-499 | terms in `[lo, hi]` sum to within `[n*lo, n*hi]` |
| Linalg.Add | math/linalg.hpp:31-43 | throws `invalid_argument` iff the shapes differ; otherwise the same shape with `out[i] = a[i] + b[i]` |
| Linalg.Sub | math/linalg.hpp:51-63 | the same, with `out[i] = a[i] - b[i]` |
| Linalg.Hadamard | math/linalg.hpp:175-187 | the same, with `out[i] = a[i] * b[i]` |
| Linalg.ElementwiseMin | math/linalg.hpp:293-305 | the same shape check; each element is one of the two inputs and at most both |
| Linalg.ElementwiseMax | math/linalg.hpp:313-325 | the same shape check; each element is one of the two inputs and at least both |
| Linalg.Negate | math/linalg.hpp:69-79 | the same shape, each element the additive inverse of the input's |
| Linalg.MulScalar | math/linalg.hpp:89-99 | the same shape with `out[i] = a[i] * k` |
| Linalg.DivScalar | math/linalg.hpp:110-125 | throws `invalid_argument` iff `k == 0`; otherwise the same shape with `out[i] * k = a[i]` |
| Linalg.AddSubRoundTrip | math/linalg.hpp:31-63 | for equal shapes, `sub(add(a, b), b) == a` |
| Linalg.AddCommutes | math/linalg.hpp:31-43 | `add(a, b) == add(b, a)`, including the error case |
| Linalg.NegateInvolutive | math/linalg.hpp:69-79 | negating twice gives the input back |
| Linalg.ScaleRoundTrip | math/linalg.hpp:89-125 | for `k != 0`, `div_scalar(mul_scalar(a, k), k) == a` |
| Linalg.MinPlusMax | math/linalg.hpp:293-325 | `elementwise_min(a, b) + elementwise_max(a, b) == a + b` |
| Linalg.Matmul | math/linalg.hpp:142-167 | throws `invalid_argument` iff `a.cols != b.rows`; otherwise `a.rows x b.cols` with `out(i, j) = sum over t of a(i, t) * b(t, j)` |
| Linalg.MatmulLoop | math/linalg.hpp:142-167 | the triple loop over a zero-filled output computes exactly that product |
| Linalg.MatmulRow | math/linalg.hpp:154-164 | the two inner loops fill row `i` with its row-by-column sums |
| Linalg.AddScaledRow | math/linalg.hpp:158-162 | the innermost loop adds `a(i, t) * b(t, j)` to every entry of the row |
| Linalg.Transpose | math/linalg.hpp:236-249 | the shape is swapped and `out(c, r) = a(r, c)` |
| Linalg.TransposeInvolutive | math/linalg.hpp:236-249 | transposing twice gives the input back |
| Linalg.Identity | math/linalg.hpp:544-555 | `n x n` with 1 on the diagonal and 0 elsewhere |
| Linalg.MatmulIdentityLeft | math/linalg.hpp:142-167 | `matmul(identity(rows), a) == a` |
| Linalg.MatmulIdentityRight | math/linalg.hpp:142-167 | `matmul(a, identity(cols)) == a` |
| Linalg.Dot | math/linalg.hpp:206-224 | fails with `invalid_argument` iff an argument is not a vector or the lengths differ; otherwise the sum of the pairwise products |
| Linalg.DotAccCorrect | math/linalg.hpp:216-221 | the `acc +=` loop over `vector_at` computes the sum of the first `t` pairwise buffer products |
| Linalg.DotSymmetric | math/linalg.hpp:206-224 | `dot(a, b) == dot(b, a)`, including the error case |
| Linalg.DotTransposeInvariant | math/linalg.hpp:206-249 | a row vector and its transpose have the same dot product with any matrix |
| Linalg.MinElement | math/linalg.hpp:261-269 | throws `invalid_argument` iff the matrix is empty; otherwise an element that is at most every element |
| Linalg.MaxElement | math/linalg.hpp:277-285 | throws `invalid_argument` iff the matrix is empty; otherwise an element that is at least every element |
| Linalg.SumAll | math/linalg.hpp:488-499 | the sum of all elements; its magnitude is at most `norm_l1`, and it is 0 for an empty matrix |
| Linalg.SumBelowSumOfAbs | math/linalg.hpp:337-347 | the triangle inequality: `|sum a_i| <= sum |a_i|` |
| Linalg.Mean | math/linalg.hpp:507-515 | throws `invalid_argument` iff the matrix is empty; otherwise `mean * size == sum` |
| Linalg.MeanBounds | math/linalg.hpp:507-515 | elements between `lo` and `hi` give a mean between `lo` and `hi` |
| Linalg.MeanBetweenMinAndMax | math/linalg.hpp:261-285 | the mean of a non-empty matrix lies between its minimum and maximum elements |
| Linalg.Trace | math/linalg.hpp:523-538 | throws `invalid_argument` iff the matrix is not square; otherwise the diagonal sum |
| Linalg.TraceIdentity | math/linalg.hpp:523-555 | `trace(identity(n)) == n` |
| Linalg.TraceTranspose | math/linalg.hpp:236-249 | transposing keeps the trace, including the error case |
| Linalg.NormL1 | math/linalg.hpp:337-347 | the sum of `|a_i|` is never negative |
| Linalg.NormL1Dominates | math/linalg.hpp:337-347 | every `|a_i|` is at most `norm_l1` |
| Linalg.SumSquares | math/linalg.hpp:356-368 | the square of `norm_l2`, the sum of `a_i^2`, is never negative |
| Linalg.SumSquaresDominates | math/linalg.hpp:356-368 | every `a_i^2` is at most the squared `norm_l2` |
| Linalg.NormLinf | math/linalg.hpp:373-383 | non-negative, at least every `|a_i|`, and either 0 or equal to some `|a_i|` |
| Linalg.MaxAbs | math/linalg.hpp:375-380 | the `best = max(best, |a_i|)` loop over the first `t` elements: the same bounds |
| Linalg.NormBounds | math/linalg.hpp:337-383 | `0 <= norm_linf <= norm_l1`, and `norm_l1 == 0` iff every element is 0 |
| Linalg.NormalizeL1 | math/linalg.hpp:446-467 | throws `invalid_argument` iff the input is not a vector or `norm_l1 <= eps`; otherwise the same shape with `out[i] * norm_l1 = v[i]` |
| Linalg.NormalizeL2 | math/linalg.hpp:405-428 | the same, with the caller-supplied L2 norm |
| Linalg.NormalizeL1Unit | math/linalg.hpp:446-467 | a normalised vector has L1 norm 1 |
| Linalg.NormalizeL2Unit | math/linalg.hpp:405-428 | a normalised vector has squared L2 norm 1 |
| Linalg.DotSelf | math/linalg.hpp:206-224 | `dot(v, v)` is the sum of squares and is never negative |
| Functional.Apply | math/functional.hpp:28-40 | the same rows and cols; element `i` is `f(a[i])` |
| Functional.ApplyInPlace | math/functional.hpp:55-68 | the in-place loop has the same effect as `apply` |
| Functional.ApplyIdentity | math/functional.hpp:28-40 | applying the identity function gives the matrix back |
| Functional.ApplyCompose | math/functional.hpp:28-40 | applying `f` and then `g` equals applying `g . f` once |
| Functional.KernelOpsAreApply | math/linalg.hpp:69-99 | `negate` and `mul_scalar` coincide with `apply` of the matching lambda |
| EquationSystems.MakeSystem | math/equation_system.hpp:31-45 | succeeds iff `A` is square and `b` is a vector of length `n`; otherwise `invalid_argument`, with a non-vector `b` rejected before its length is read; on success `A` and `b` are stored |
| EquationSystems.SystemShape | math/equation_system.hpp:34-50 | in a constructed system `n() == A.rows == A.cols == size of b` |
| EquationSystems.ColumnRightHandSide | math/equation_system.hpp:34-44 | a column `b` is accepted iff `A` is `n x n` with `n = b.rows` |
| Newton.ToColumnMatrix | main.cpp:74-83 | an `n x 1` matrix whose cell `(i, 0)` is `x[i]` |
| Newton.ColumnMatrixToArray | main.cpp:88-102 | throws `invalid_argument` iff `cols != 1`; otherwise the array of the column |
| Newton.ArrayColumnRoundTrip | main.cpp:74-102 | converting an array to a column and back gives the array |
| Newton.ColumnArrayRoundTrip | main.cpp:74-102 | converting a column to an array and back gives the column |
| Newton.ComputeF | main.cpp:107-119 | an `n x 1` matrix, `n` the number of functions, with row `i` equal to `f_i(x)` |
| Newton.StepSize | main.cpp:137 | `h = sqrt(eps) * (1 + |x_j|)` is at least `sqrt(eps)`, so positive |
| Newton.Perturb | main.cpp:139-140 | the copy differs from `x` only at `j`, where it is moved by `d` |
| Newton.ForwardDifference | main.cpp:145 | the entry times `h` is `f_i(x + h e_j) - f_i(x)` |
| Newton.CentralDifference | main.cpp:178 | the entry times `2h` is `f_i(x + h e_j) - f_i(x - h e_j)` |
| Newton.JacobianTwoPoint | main.cpp:124-150 | an `n x n` matrix of forward differences; `out_of_range` iff `x` is shorter than `n` |
| Newton.JacobianThreePoint | main.cpp:155-183 | an `n x n` matrix of central differences; `out_of_range` iff `x` is shorter than `n` |
| Newton.ForwardDifferenceExact | main.cpp:145 | on affine residuals a forward difference is the exact partial derivative |
| Newton.CentralDifferenceExact | main.cpp:178 | on affine residuals a central difference is the exact partial derivative |
| Newton.TwoPointExactOnAffine | main.cpp:124-150 | on affine residuals `F(y) = A y + c` the two-point Jacobian is `A`, whatever `x` and `h` |
| Newton.ThreePointExactOnAffine | main.cpp:155-183 | on affine residuals the three-point Jacobian is `A` |
| Newton.LinearPerturb | main.cpp:139-140 | moving `y_j` by `d` moves `sum_k A(i, k) y_k` by `A(i, j) d` |
| Newton.NegatedColumn | main.cpp:402-406 | the right-hand side is `fx.rows x 1` with `b(i, 0) = -fx(i, 0)` |
| Newton.NegatedColumnIsNegate | main.cpp:402-406 | for a column `fx` that right-hand side is `negate(fx)` |
| Newton.SolveStep | main.cpp:399-411 | reading `fx(i, 0)` from a matrix without columns throws `out_of_range`; a non-square `J`, or a `J` whose size differs from `fx.rows`, throws `invalid_argument`; for a well-shaped system a solver error is returned unchanged, an answer with one column succeeds, and any other answer throws `invalid_argument` (`column_matrix_to_array`); on success the step is the solver's column |
| Newton.StepSolvesNewtonEquation | main.cpp:399-411 | with an exact solver, the returned step `s` satisfies `J s = -F(x)` |
| Newton.NumericJacobian | main.cpp:550-552 | the chosen formula gives an `n x n` matrix whose entry `(i, j)` is the forward (two-point) or central (three-point) difference of `f_i` along `x_j`, or `out_of_range` for a short `x` |
| Newton.FrozenJacobian | main.cpp:545-558 | for the modified method `J_frozen` is the manual matrix, or the numeric Jacobian at `x0` entry by entry |
| Newton.CurrentJacobian | main.cpp:576-593 | the modified method uses `J_frozen` at every iterate; Newton's method uses the manual matrix, or rebuilds the numeric Jacobian at the current `x` entry by entry |
| Newton.Update | main.cpp:610-613 | every `x[i]` moves by exactly `lambda * s[i]`, and the size is unchanged |
| Newton.Step | main.cpp:565-613 | `||F(x)|| < eps_F` stops as converged before any Jacobian or solve; a step that continues came from a successful solve, was not below `eps_x * (1 + ||x||)`, and moved `x` by `lambda` times the step; otherwise a solver or shape error fails with that error, a step shorter than `n` fails with `out_of_range` (the log reads `step[i]`), and a full-length step stops as converged, without moving, iff `||s|| < eps_x * (1 + ||x||)` and continues otherwise |
| Newton.Iterate | main.cpp:560-614 | `iter_done <= max_iter`; without convergence `iter_done == max_iter`; on convergence the loop body's stopping test holds at the final iterate; a loop body that fails at the current iterate ends the run with its error |
| Newton.IterateFollowsLoop | main.cpp:560-614 | a reported `x` is the iterate reached after the iterations that moved on, one after another from the start. Each of those loop bodies continued, and their number is `iter_done` less the one iteration whose stopping test fired. So a non-converged run moved on in every one of its `max_iter` iterations |
| Newton.IterateFailsAlongLoop | main.cpp:560-614 | a failed loop reached, before `max_iter`, an iterate on its trajectory whose loop body fails with exactly that error, every earlier body having moved on |
| Newton.IterateStops | main.cpp:569-608 | a stopping test that fires at iteration `k` ends the loop there, converged, at the un-moved `x`, with `iter_done = k + 1` |
| Newton.IterateMovesOn | main.cpp:610-613 | a loop body that moves on extends the trajectory of the rest of the loop by one step |
| Newton.FailureMovesOn | main.cpp:610-613 | a loop body that moves on carries a later failure back to the earlier iterate |
| Newton.WalkMovesOn | main.cpp:610-613 | the walk from `x` is one step ahead of the walk from the next iterate |
| Newton.Run | main.cpp:525-614 | an empty system ends early; otherwise `iter_done <= max_iter`, a non-converged run used all `max_iter` iterations, and a converged run did at least one and stopped at an `x` where the loop body's stopping test holds with the run's Jacobian |
| Newton.RunFollowsLoop | main.cpp:525-614 | a run's report is the trajectory of its loop from `x0` with `J_frozen` fixed at `x0`. A failed run on a non-empty system failed in a loop body on that trajectory. A stopping test that fires at `x0` ends the run there after one iteration |
| Newton.ResidualStopAtStart | main.cpp:563-574 | a start point with `||F(x0)|| < eps_F` is reported converged after one iteration, at `x0` |
| Newton.IterateSameJacobians | main.cpp:563-614 | two configurations whose Jacobian choices agree at every iterate run identically |
| Newton.ManualMethodsAgree | main.cpp:545-593 | with a manual Jacobian, Newton and modified Newton produce the same run |
| Newton.ModifiedIsNewtonWithFrozenJacobian | main.cpp:545-593 | modified Newton with a numeric Jacobian is Newton with the manual Jacobian `J_frozen` built at `x0` |
| Newton.RowDotColIsLinear | math/linalg.hpp:154-164 | row `i` of `matmul(A, column(v))` is `sum_k A(i, k) v_k` |
| Newton.LinearAdditive | main.cpp:610-613 | after a full step (`lambda = 1`), the linear form at the new point is its value at `x` plus its value at the step |
| Newton.LinearOfSolution | main.cpp:399-411 | a step solving `A s = -F` satisfies each row: `(A s)_i + F_i = 0` |
| Newton.AffineRootInOneStep | main.cpp:563-613 | on affine residuals, with an exact solver and `lambda = 1`, one Newton step with `J = A` that continues lands exactly on a root |

## Left out

- Console I/O is not modelled: menus, prompts, `read_*`, `parse_single_value`, `print_matrix`, `format_array`, `print_iteration_log`'s output and the final report. The values read become parameters. The one observable effect of the log, reading `step[i]` for every `i < n`, is modelled in `Newton.Step`.
- Floating-point rounding and the `long double` accumulator are not modelled; every sum and product is exact.
- The square root in `norm_l2` is not computed. `Newton.Env.norm` stands for `norm_l2`. The properties of the loop hold for any norm function, so none is assumed about it. `Linalg.NormalizeL2` takes the norm as an argument that is non-negative and whose square is the sum of squares.
- `std::sqrt(epsilon)` in the step size is the positive parameter `rootEps`.
- `sin` and `cos` in math/functional.hpp are transcendental and are not modelled; `apply` covers their structure.
- The linear solver is the parameter `Newton.Env.solve`. main.cpp:409 calls `equation_system::solve_lup()`, but the repository never defines it: math/equation_system.hpp:13-51 holds only the constructor and `n()`, and math/lup_solver.hpp:14-17 only forwards `lup_solve` to it. So there is no solver algorithm to model. `Newton.SolvesExactly` says what an exact solver promises, and only the affine one-step result assumes it.
- math/jacobian_approx.hpp is an empty, ill-formed stub and is not modelled.
- The residual functions of functions.cpp are the parameter `Newton.Env.fs`. `Newton.IsAffine` describes the affine case that the exactness results use.
- Raw pointers, iterators, `data()`, `row_ptr()`, `begin`/`end` and the mutable-reference `vector_at_ref` are not modelled; value semantics replace them. `vector_at_ref` reads the same cell as `vector_at`.
- The integral branch of `normalize_l1`/`normalize_l2`, which returns a `matrix<long double>`, is not modelled; the kernel is over `real`.
- `size_t` overflow of `rows * cols` is not modelled. The source leaves that to the user, and sizes here are unbounded naturals. `npos` is `2^64 - 1`, and `Arrays.Find` requires fewer than `npos` elements.
- `Linalg.NormalizeL1` and `Linalg.NormalizeL2` require `eps >= 0`. The default is `1e-18`; with a negative `eps` a zero vector would be divided by 0.
- Newton.FrozenJacobian: for Newton's method `J_frozen` is an unused empty matrix, and the contract says nothing about it because no iterate reads it.

### Behaviour worth knowing

- **Uninitialised storage.** `matrix(rows, cols)` does not initialise its storage: it allocates `new T[n]`, which is not initialised (containers/matrix.hpp:117-122, containers/array.hpp:102). The model leaves those cells unspecified. `matmul` and `identity` fill their output explicitly, and the model does the same.
- **`resize` overlap.** The header comment at containers/matrix.hpp:68-69 promises a row-major prefix. The loop at containers/matrix.hpp:477-497 keeps the 2-D overlap `min(rows) x min(cols)` at the same `(r, c)`. The model follows the loop.
- **Order of the stopping tests.** The step-size test runs before the update (main.cpp:601-613): the loop tests `||s|| < eps_x * (1 + ||x||)` before applying the step. A run that stops on this test keeps the un-updated `x`.
