# Sparse LU / ILU(k) factorization of AIJ matrices — a verified model

This project models the factorization engine of the sequential AIJ
(compressed-row) matrix format in `src/mat/impls/aij/seq/aijfact.c`:

- the symbolic LU factorization (`MatLUFactorSymbolic_AIJ`), which predicts
  the fill pattern of the factor row by row by merging the upper parts of
  earlier factor rows into a sorted linked list held in an index array
  `fill` with sentinel `n`, and grows the column array by allocate-copy-free;
- the symbolic ILU(k) factorization (`MatILUFactorSymbolic_AIJ`), the same
  merge with a fill level per entry and a `levels` threshold;
- the numeric LU factorization (`MatLUFactorNumeric_AIJ`), Gaussian
  elimination on the predicted pattern through a dense work row `rtmp`,
  the pivot stored as its reciprocal;
- the in-place composition `MatLUFactor_AIJ`;
- the four permuted triangular solves `MatSolve_AIJ`, `MatSolveAdd_AIJ`,
  `MatSolveTrans_AIJ` and `MatSolveTransAdd_AIJ`.

The index conventions of the C code are kept explicit: row pointers
(`ai`, `ainew`), diagonal pointers (`diag`, `idnew`) and stored column
indices (`aj`, `ajnew`) are 1-based; the linked list, the work rows and the
permutations are 0-based. Scalars are Dafny `real`, i.e. exact arithmetic.

Modules, one per component:

- `sparse.dfy` (module `Sparse`): the input matrix (`Csr`), the factor pattern (`Pattern`), permutations and their inverse (`ISInvertPermutation`), error codes, rows laid end to end in a column array
- `aij.dfy` (module `Aij`): the matrix object `Mat` as a class: arrays, diagonal pointers, permutations, solve work vector, factor flag
- `fill_list.dfy` (module `FillList`): the `fill` linked list: representation invariant, the ordered scan and the splice
- `symbolic.dfy` (module `Symbolic`): `MatLUFactorSymbolic_AIJ` and the fill-closure specification of its result
- `ilu.dfy` (module `ILU`): `MatILUFactorSymbolic_AIJ` and the level-of-fill specification
- `numeric.dfy` (module `Numeric`): `MatLUFactorNumeric_AIJ` against ghost functions giving each factor row's values
- `numeric_theory.dfy` (module `NumericTheory`): what those values mean: row i of L·U equals row i of the permuted matrix
- `solve_spec.dfy` (module `SolveSpec`): the four sweeps as functions, and the triangular equations they solve (uniquely)
- `solve.dfy` (module `Solve`): the four solve routines as methods over arrays
- `trans_finding.dfy` (module `TransFinding`): a 3×3 matrix on which the transposed solves place their result wrongly, and the proof that the corrected placement solves Aᵀx = b for every input
- `factor.dfy` (module `Factor`): the factorization entry points on matrix objects, and `MatLUFactor_AIJ`

## Model

| member | source | states |
|---|---|---|
| `Sparse.InvertPermutation` | src/mat/impls/aij/seq/aijfact.c:24 | the loop `q[p[i]] := i` returns the inverse of the permutation: `p[q[k]] == k` for every k |
| `Sparse.InverseIsPermutation` | src/mat/impls/aij/seq/aijfact.c:24-25 | the inverse of a bijection is a bijection and undoes it in both directions (`q[p[i]] == i`) |
| `FillList.Scan` | src/mat/impls/aij/seq/aijfact.c:47-50 | the `do { m = fm; fm = fill[m]; } while (fm < idx)` scan stops at the first list entry not below `idx` (or the sentinel n), with `m` its predecessor (or the head slot n); every entry before it is below `idx` |
| `FillList.Splice` | src/mat/impls/aij/seq/aijfact.c:51-52 | `fill[m] = idx; fill[idx] = fm` inserts `idx` at the scan position; the list stays strictly increasing, within 0..n-1 and terminated by n |
| `Symbolic.LoadRow` | src/mat/impls/aij/seq/aijfact.c:41-53 | after loading, the list holds exactly the columns `ic[aj-1]` of original row `r[i]`, in increasing order, and `nnz` equals the list length (needs rows without duplicate columns) |
| `Symbolic.MergeUpper` | src/mat/impls/aij/seq/aijfact.c:56-72 | merging the upper part of an earlier factor row adds exactly its columns that were not yet listed, each splice counted in `nnz`; the entries walked so far are untouched, `nnz` stays the list length |
| `Symbolic.WalkStep` | src/mat/impls/aij/seq/aijfact.c:55-74 | after merging row `L[t]` the walk invariant holds one entry further: all of that row's columns from its diagonal on are listed, and every listed column is original or fill from a listed earlier row |
| `Symbolic.WalkDone` | src/mat/impls/aij/seq/aijfact.c:55 | once the walk reaches the first entry not below i (including fill added during the walk), the list is a fill-closed row i |
| `Symbolic.BuildRow` | src/mat/impls/aij/seq/aijfact.c:40-74 | the list built for row i is increasing, holds every permuted original column, is closed under the upper parts of the earlier rows it contains, and holds nothing else |
| `Symbolic.WriteRow` | src/mat/impls/aij/seq/aijfact.c:85-92 | the list is copied in order as 1-based columns after the written prefix, which is unchanged; `nzi` counts exactly the entries below column i |
| `Symbolic.GrowCapacity` | src/mat/impls/aij/seq/aijfact.c:79 | the grown capacity `jmax + nnz*(n-i)` always holds the written prefix plus the row that did not fit |
| `Symbolic.Grow` | src/mat/impls/aij/seq/aijfact.c:80-83 | the reallocated column array has the new capacity and the first `ainew[i]-1` entries of the old one |
| `Symbolic.StoreRow` | src/mat/impls/aij/seq/aijfact.c:76-93 | `ainew[i+1] = ainew[i] + nnz`, growth when `ainew[i+1] > jmax+1`, the row copied in and `idnew[i] = ainew[i] + nzi`: the finished rows stay laid out cumulatively, with correct diagonal pointers |
| `Symbolic.LaidOutAppend` | src/mat/impls/aij/seq/aijfact.c:76-93 | appending a row keeps row pointers cumulative from 1, the column array equal to the rows laid end to end, and every diagonal pointer splitting its row at the diagonal column |
| `Symbolic.LaidOutPattern` | src/mat/impls/aij/seq/aijfact.c:76-93 | the finished arrays (with `ainew[0] = 1` from line 29 and `nz` from line 120) form a pattern with `ai[0] = 1`, non-decreasing row pointers, `nz = ai[n]-1` columns, and give back exactly the built rows |
| `Symbolic.LUFactorSymbolic` | src/mat/impls/aij/seq/aijfact.c:12-94 | non-square → "Mat must be square", missing row / column permutation → the matching error; otherwise the LU pattern: 1-based cumulative row pointers, strictly increasing columns in 1..n per row, diagonal pointers at the first column ≥ i, every permuted original column present, closed under fill from the earlier rows, nothing else |
| `Symbolic.PermRowDistinct` | src/mat/impls/aij/seq/aijfact.c:46 | mapping a duplicate-free row through the inverse column permutation gives distinct columns in 0..n-1 |
| `ILU.ILULoadRow` | src/mat/impls/aij/seq/aijfact.c:437-450 | the list holds exactly the permuted original row, every entry at level -1 |
| `ILU.ILUMergeUpper` | src/mat/impls/aij/seq/aijfact.c:453-474 | a column of the parent's upper part is added exactly when it is not yet listed and its level (parent's stored level + 1) is below `levels`; an added column gets that level, a listed one keeps its first level |
| `ILU.ILUOffer` | src/mat/impls/aij/seq/aijfact.c:459-471 | one offer of column `idx` at level `lev+1`: the scan finds its place; a listed column keeps its level; an unlisted one gets `lfill[idx] = lev+1` and is spliced in exactly when `lev+1 < levels`; the walked entries are untouched and the list stays strictly increasing |
| `ILU.NewOfferFirst` | src/mat/impls/aij/seq/aijfact.c:452-475 | a column still unlisted when row `L[t]` is merged was offered below `levels` by no earlier listed row, since the walk merges listed rows in increasing order and has merged them all |
| `ILU.ILUWalkStep` | src/mat/impls/aij/seq/aijfact.c:452-476 | after merging row `L[t]` all its upper entries whose level plus one is below `levels` are listed, and every fill entry has a level in 0..levels-1 that is one more than its level in the FIRST listed earlier row offering it below `levels` |
| `ILU.ILUWriteRow` | src/mat/impls/aij/seq/aijfact.c:492-501 | columns and their levels are copied side by side after the unchanged prefix; `nzi` counts the entries below column i |
| `ILU.ILUReserve` | src/mat/impls/aij/seq/aijfact.c:479-491 | when `ainew[i+1] > jmax+1` the column and the level arrays are both reallocated fresh with capacity `jmax + nnz*(n-i)`, each keeping its first `ainew[i]-1` entries; otherwise both stay as they are; either way the row fits |
| `ILU.ILUStoreRow` | src/mat/impls/aij/seq/aijfact.c:478-502 | `ajnew` and `ajfill` are grown together with the same capacity, so every stored level stays beside its column; row and diagonal pointers as in the LU case |
| `ILU.ILUFactorSymbolic` | src/mat/impls/aij/seq/aijfact.c:404-503 | the same three errors; otherwise the ILU(levels) pattern: increasing rows, original entries at level -1, every upper entry of a listed earlier row with level + 1 < levels present, and every fill entry at a level in 0..levels-1 taken from the first listed earlier row that offers it below `levels` |
| `ILU.ILUPatternUnique` | src/mat/impls/aij/seq/aijfact.c:404-503 | the ILU(levels) specification determines its answer: two patterns (with levels) that both meet it for the same A, permutations and `levels` are equal, levels included |
| `ILU.ILUZeroLevelsNoFill` | src/mat/impls/aij/seq/aijfact.c:449-471 | with `levels <= 0` every factor row holds exactly the columns of the permuted original row, and `ai[k+1]-ai[k] = ai_A[r[k]+1]-ai_A[r[k]]` |
| `Numeric.ClearRow` | src/mat/impls/aij/seq/aijfact.c:143-145 | `rtmp` is zero at every column of factor row i |
| `Numeric.ScatterRow` | src/mat/impls/aij/seq/aijfact.c:148-151 | on the pattern of row i, `rtmp` holds row `r[i]` of A scattered to columns `ic[col]` |
| `Numeric.EliminateWith` | src/mat/impls/aij/seq/aijfact.c:155-165 | for a nonzero `rtmp[row]`, the multiplier `rtmp[row] * stored_diag[row]` replaces it and that multiple of `row`'s upper part is subtracted |
| `Numeric.EliminateRow` | src/mat/impls/aij/seq/aijfact.c:153-167 | the walk over the lower entries of row i, in stored order, applies one elimination step per entry and skips zero entries |
| `Numeric.StoreRow` | src/mat/impls/aij/seq/aijfact.c:169-173 | the pivot is replaced by its reciprocal and the work row is copied out in pattern order after the unchanged earlier rows |
| `Numeric.FactorRows` | src/mat/impls/aij/seq/aijfact.c:140-174 | the value array becomes `FactorValues`, the row-by-row elimination of the permuted matrix on the pattern, with a work row reused across rows |
| `Numeric.LUFactorNumeric` | src/mat/impls/aij/seq/aijfact.c:127-183 | the factor's values are those of the LU factors on the pattern and the factor flag becomes FACTOR_LU |
| `NumericTheory.EliminateDense` | src/mat/impls/aij/seq/aijfact.c:156-164 | one elimination step leaves the multiplier at column j and subtracts the multiplier times row j of U everywhere else |
| `NumericTheory.MultiplierTimesPivot` | src/mat/impls/aij/seq/aijfact.c:160 | the multiplier (entry times the reciprocal stored at line 172) times the pivot gives back the eliminated entry |
| `NumericTheory.RowInvariant` | src/mat/impls/aij/seq/aijfact.c:153-167 | after s elimination steps, the permuted row equals the work row (multiplier columns cleared) plus the multipliers times the U rows they were taken against |
| `NumericTheory.FactorAgreesOnPattern` | src/mat/impls/aij/seq/aijfact.c:142-173 | with nonzero pivots, on every column of the pattern row i of L·U (unit L) equals row i of the permuted matrix — the incomplete-factorization property |
| `NumericTheory.FactorReconstructsRow` | src/mat/impls/aij/seq/aijfact.c:142-173 | on an increasing row that holds its permuted row and is closed under fill, with nonzero pivots, row i of L·U equals row i of the permuted matrix at every column |
| `NumericTheory.LUPatternRowClosed` | src/mat/impls/aij/seq/aijfact.c:55-74 | every row of a pattern meeting the symbolic LU specification is increasing, holds its permuted row and is closed under fill from the upper parts of earlier rows |
| `NumericTheory.LUFactorReconstructsRow` | src/mat/impls/aij/seq/aijfact.c:142-173 | on the pattern the symbolic LU produces, with nonzero pivots, row i of L·U equals row i of the permuted matrix at every column |
| `SolveSpec.ForwardCharacterized` | src/mat/impls/aij/seq/aijfact.c:226-235 | the forward sweep's result is a solution of L y = b∘r, and the only one |
| `SolveSpec.BackwardCharacterized` | src/mat/impls/aij/seq/aijfact.c:237-245 | the backward sweep's result is a solution of U z = y (pivot = reciprocal of the stored diagonal), and the only one |
| `SolveSpec.TransUpperCharacterized` | src/mat/impls/aij/seq/aijfact.c:318-327 | the column-oriented U^T sweep's result solves U^T z = c, and is the only solution |
| `SolveSpec.TransLowerCharacterized` | src/mat/impls/aij/seq/aijfact.c:329-337 | the column-oriented L^T sweep's result solves L^T x = z, and is the only solution |
| `Solve.ForwardSweep` | src/mat/impls/aij/seq/aijfact.c:227-235 | `tmp[0] = b[r[0]]`, `tmp[i] = b[r[i]] - Σ L(i,j)*tmp[j]` over the entries before `diag[i]` |
| `Solve.BackwardSweep` | src/mat/impls/aij/seq/aijfact.c:238-245 | `tmp[i] = (tmp[i] - Σ U(i,j)*tmp[j]) * stored_diag[i]`, rows n-1 down to 0 (the same loop is lines 280-288 of the add variant), and `x[c[i]]` set to (or increased by) `tmp[i]`; other entries of x untouched |
| `Solve.MatSolve` | src/mat/impls/aij/seq/aijfact.c:209-249 | refuses a matrix whose flag is not FACTOR_LU without touching anything; otherwise the work vector is `U⁻¹L⁻¹(b∘r)` and `x[c[k]]` is its k-th entry |
| `Solve.MatSolveAdd` | src/mat/impls/aij/seq/aijfact.c:250-292 | same refusal; otherwise the identical `tmp`, and `x[c[k]] = y[c[k]] + tmp[k]` whether or not y is x |
| `Solve.TransLoad` | src/mat/impls/aij/seq/aijfact.c:307-316 | `tmp[cinv[i]] = b[i]` gathers b through the column permutation: `tmp[k] = b[c[k]]` |
| `Solve.UpperTransSweep` | src/mat/impls/aij/seq/aijfact.c:319-327 | the in-place U^T loop computes the U^T sweep function |
| `Solve.LowerTransSweep` | src/mat/impls/aij/seq/aijfact.c:330-337 | the in-place L^T loop, walking each row's lower part leftwards from the diagonal, computes the L^T sweep function |
| `Solve.PlaceOut` | src/mat/impls/aij/seq/aijfact.c:340 | `x[p[i]] = tmp[i]` (or `+=`, as at line 396) for every i |
| `Solve.MatSolveTransAsWritten` | src/mat/impls/aij/seq/aijfact.c:294-346 | as written: refusal without FACTOR_LU; otherwise work vector `L^-T U^-T (b∘c)`, placed as `x[rinv[i]] = tmp[i]` with `rinv` the inverse row permutation |
| `Solve.MatSolveTransAddAsWritten` | src/mat/impls/aij/seq/aijfact.c:348-402 | as written: refusal; `x[rinv[i]] = y[rinv[i]] + tmp[i]` |
| `Solve.MatSolveTrans` | src/mat/impls/aij/seq/aijfact.c:294-346 | corrected: the same sweeps, placed as `x[r[i]] = tmp[i]`; what that placement achieves is `TransFinding.TransPlacementSolves` |
| `Solve.MatSolveTransAdd` | src/mat/impls/aij/seq/aijfact.c:348-402 | corrected: `x[r[i]] = y[r[i]] + tmp[i]` |
| `TransFinding.TransPlacementCounterexample` | src/mat/impls/aij/seq/aijfact.c:340 | on the 3×3 example, placing through the inverse row permutation (computed at line 312) gives x = [2,3,1] with Aᵀx = [3,1,2] ≠ b = [1,2,3] |
| `TransFinding.TransPlacementIntended` | src/mat/impls/aij/seq/aijfact.c:340 | on the same example, placing through r gives x = [3,1,2] with Aᵀx = b |
| `TransFinding.TransPlacementSolves` | src/mat/impls/aij/seq/aijfact.c:307-340 | for every square A and permutations r, c: if z solves Fᵀz = b∘c for the permuted matrix F[i][k] = A[r[i]][c[k]] (what the two transposed sweeps solve when L·U = F), then x with `x[r[i]] = z[i]` solves Aᵀx = b |
| `TransFinding.SumReindex` | src/mat/impls/aij/seq/aijfact.c:340 | summing a sequence read through a permutation gives the same sum: the reordering step behind the placement |
| `Factor.LUDiagonalIsFactorPattern` | src/mat/impls/aij/seq/aijfact.c:153-172 | an LU pattern every row of which holds its diagonal (from the original row or from fill) has the diagonal at `diag[i]`, lower columns before it and upper columns after it: what the numeric walk up to the diagonal (line 153) and the pivot inversion (line 172) need |
| `Factor.StructuralDiagonalSuffices` | src/mat/impls/aij/seq/aijfact.c:40-53 | a matrix whose permuted rows store their diagonals has it in every row of its LU pattern, which keeps the original entries |
| `Factor.FillDiagonalNotStructural` | src/mat/impls/aij/seq/aijfact.c:40-53 | the 2×2 matrix with rows {0,1} and {0} (identity permutations) does not store its diagonal in row 1 |
| `Factor.FillSuppliesDiagonal` | src/mat/impls/aij/seq/aijfact.c:55-74 | yet every LU pattern of it holds both diagonals: row 1 references row 0, whose upper part supplies column 1 as fill |
| `Factor.LUPatternIsFactorPattern` | src/mat/impls/aij/seq/aijfact.c:153-161 | when every permuted row stores its diagonal, the LU pattern has the diagonal at `diag[i]`, lower columns before it and upper columns after it, as the numeric phase assumes here and the solves assume at line 244 |
| `Factor.ILUPatternIsFactorPattern` | src/mat/impls/aij/seq/aijfact.c:449 | the same for the ILU pattern, which keeps every original entry (what the numeric walk at line 153 needs) |
| `Factor.MatLUFactorSymbolic` | src/mat/impls/aij/seq/aijfact.c:96-124 | the three errors; otherwise a fresh factor matrix holding the LU pattern, the permutations, `nz = ai[n]-1` value slots, an n-entry work vector and FACTOR_LU |
| `Factor.MatILUFactorSymbolic` | src/mat/impls/aij/seq/aijfact.c:504-530 | the same for the ILU(levels) pattern |
| `Factor.MatLUFactor` | src/mat/impls/aij/seq/aijfact.c:184-207 | the three errors leave the matrix unchanged; otherwise, when every row of the LU pattern holds its diagonal (stored or filled in), the matrix is replaced by its factor: LU pattern of the old contents, factor values, permutations, FACTOR_LU, ready to solve |
| `Aij.Mat.Factor` | src/mat/impls/aij/seq/aijfact.c:98-120 | the assembled factor holds the pattern, the permutations, `ai[n]-1` value slots, a work vector of n entries and the FACTOR_LU flag |

## Findings

| source | as written | input that shows it | evidently intended | confidence | as-written member | corrected member |
|---|---|---|---|---|---|---|
| src/mat/impls/aij/seq/aijfact.c:312,340,368,396 | the transposed solves place the result with the inverse row permutation: `x[rinv[i]] = tmp[i]` | A with A[0][2] = A[1][0] = A[2][1] = 1, r = [1,2,0], c = identity, b = [1,2,3]: the code gives x = [2,3,1], and Aᵀx = [3,1,2] | `x[r[i]] = tmp[i]`: row i of the factor is row r[i] of A, so column r[i] of Aᵀ; on the example x = [3,1,2] solves Aᵀx = b. Agrees with the code when r is its own inverse (e.g. the identity) | not executed; high (derived by hand and proved on the example) | `Solve.MatSolveTransAsWritten`, `TransFinding.TransPlacementCounterexample` | `Solve.MatSolveTrans`, `TransFinding.TransPlacementSolves` |

## Left out

- Floating point: scalars are exact `real`s, so rounding, accuracy and near-singular pivots are not modelled.
- Numeric.Recip: a zero pivot stores 0 where the C code stores `1.0/0.0` (an infinity). The code has no zero-pivot check, and neither does the model; the theorems about L·U assume nonzero pivots.
- Zero-pivot detection and the error it would raise: the code divides unguarded, so there is nothing to model.
- ILU fill levels follow the code's first-parent rule: a fill column takes its level from the first listed earlier row that offers it below `levels` (lines 464-471), and later offers at a lower level do not lower it. The model states exactly this rule (`ILU.NoEarlierOffer`); the minimum-over-all-parents level of textbook ILU(k) is not modelled.
- C `int` width: row pointers, column indices and the capacity `jmax` (`jmax = 2*ai[n]` at line 31, `jmax += nnz*(n-i)` at line 79, `ainew[i+1] = ainew[i] + nnz` at line 76, and the same at lines 423, 481 and 478 for ILU) are unbounded integers in the model, so 32-bit overflow of the row pointers and of the capacity growth is not modelled; `Symbolic.GrowCapacity` and `ILU.ILUReserve` hold only while these stay within `int`.
- Logging and memory bookkeeping (`PLogFlops`, `mem`, `PLogObjectParent`), and the `MatCreateSequentialAIJ` setup and free calls: only the resulting arrays are modelled.
- Allocation failure (`CHKPTRQ`): allocation is assumed to succeed.
- Solve.MatSolveAdd, Solve.MatSolveTransAdd and Solve.MatSolveTransAddAsWritten take b as a value read before x is written, so the case where the vector b is the output vector x is not modelled: the C code copies y into x (lines 259 and 357) before reading b, so with b the same vector as x it would solve with y in place of b.
- `ISInvertPermutation`, `ISGetIndices`, `VecGetArray` and `VecCopy` become an inverse-permutation method and sequence or array access; the temporary index sets are not objects.
- MatLUFactor_AIJ frees the old arrays and copies the factor's struct over the matrix; the model assigns the factor's fields to the matrix (`Factor.TakeOver`), without modelling the frees.
- Unchecked assumptions are preconditions: the permutations are bijections; input rows repeat no column; every row of the factor pattern holds its diagonal, stored in the permuted row or supplied by fill (for the numeric phase and the solves); `n >= 1` for MatSolve and MatSolveAdd (they read `tmp[0]`).
- The ILU level array `ajfill` is freed before MatILUFactorSymbolic_AIJ returns, so the levels are a ghost result of `ILU.ILUFactorSymbolic`.
- Monotonicity of the ILU pattern in `levels`, and its agreement with the LU pattern for large `levels`, are not proved.
- The solves are proved to solve the triangular systems L y = b∘r, U z = y, Uᵀz = b∘c and Lᵀx = z. That the result solves A x = b is proved row by row for the factor on the symbolic LU pattern (`NumericTheory.LUFactorReconstructsRow`) but not composed into one end-to-end theorem.
- The context files outside `aijfact.c` (device buffer management, example drivers, the external Spooles wrapper, malloc hooks, web forms, build configuration) are not part of this model.
