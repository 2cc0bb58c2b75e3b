# GSL core pieces in Dafny

This project models three pieces of the GNU Scientific Library and proves what
their code promises. Each piece is modelled in the form the C code has: loops
that rewrite buffers become methods over arrays with loop invariants, and pure
formulas become functions and lemmas.

- **Combinations** (`combination/combination.c`). A `gsl_combination` is the
  class `CombinationStruct.Comb` with fields `n`, `k` and `data`. The accessors
  `gsl_combination_n`, `_k` and `_data` are those fields.
  - `Get`, `Validate`, `Next` and `Prev` are members of the class: `Get`
    is a function of the fields, the other three are methods on the array. The
    backward pivot scans and the suffix refills are separate loop methods.
  - Each method is proved against a specification function in module
    `Combination`: `NextPivot`/`NextData` and `PrevPivot`/`PrevData`.
  - On those functions the model proves:
    - the exact failure conditions;
    - that each successful step goes to the immediate lexicographic
      successor or predecessor, and stays a combination;
    - that the two steps are mutual inverses.
  - `size_t` is 64-bit wrap-around arithmetic (`Wrap`).
- **Strided vectors** (`vector/gsl_vector_double.h`). A `gsl_vector` is the
  class `GslVector.Vector` with `size`, `stride` and a flat `data` buffer.
  - `Get`, `Set` and `Ptr` address slot `i * stride`, with a range check that
    reports `GSL_EINVAL`.
  - `Set` changes exactly one slot, and no other element reads differently
    afterwards.
- **The 2-D subspace trust-region step**
  (`multifit_nlinear/subspace2D.c`), in module `Subspace2D`.
  - The reduced 2x2 problem uses the adjugate identities behind `trB`, `detB`,
    `term0` and `term1`.
  - `subspace2D_solution` and `subspace2D_objective` are functions.
  - The quartic's coefficients are proved equal to
    `det(B + lambda I)^2 - |adj(B + lambda I) g|^2 / delta^2`. A nonsingular
    real `lambda` is therefore a root exactly when the step it determines has
    length `delta`.
  - The root scan is a method proved to pick the first real root of least
    cost.
  - `subspace2D_preloop` and `subspace2D_step` are methods of the class
    `Subspace2D.State`. Its invariant says that the stored norms and scalars
    are the ones the state's field comments name (`subspace2D.c`, lines
    115-131): the norms of the two steps, tr(B), det(B), |g| and the two
    adjugate terms.
  - Doubles are reals. The outside routines (linear solver, BLAS, QR,
    polynomial root finder) are parameters. The linear solver, the BLAS
    routines and the reduced QR products come with the facts the code uses
    about them (norms are norms, lengths match). The root finder and the
    map back through Q come with a length contract only (see Left out).

`GslErrno` holds the status codes `GSL_SUCCESS` (0), `GSL_FAILURE` (-1) and
`GSL_EINVAL` (4), and a value-with-status record for the functions that report
through the error handler and still return a value.

When no root of the quartic is real, `subspace2D_step` prints a diagnostic,
leaves `dx` unwritten and returns `GSL_SUCCESS` (lines 526-529 and 548), so a
caller cannot tell this case from a computed step. The model does the same.
It also follows the code where
`gsl_combination_valid` accepts only strictly decreasing arrays (see
Findings).

## Model

| member | source | states |
|---|---|---|
| Combination.Wrap | combination/combination.c:116-127 | size_t arithmetic: values in range are kept, and -1 becomes 2^64 - 1 |
| Combination.WrapIsModulo | combination/combination.c:116-127 | the size_t value of any integer result is that integer modulo 2^64 |
| Combination.NextPivot | combination/combination.c:114-119 | the backward scan of next stops at a slot p; every later slot is at its maximum n-k+j, and p is 0 or below its maximum |
| Combination.NextPivotIsLastBelowMax | combination/combination.c:116-119 | the scan's stopping slot is the last one below its maximum, or slot 0 |
| Combination.NextShape | combination/combination.c:124-129 | on a combination, next keeps the prefix before the pivot, adds one at the pivot and fills the rest with consecutive values |
| Combination.NextFailsIffLast | combination/combination.c:110-123 | for a combination, next fails exactly on [n-k, ..., n-1] |
| Combination.NextAdvances | combination/combination.c:99-130 | a successful next yields a combination lexicographically greater than the input |
| Combination.NextIsImmediate | combination/combination.c:99-130 | no combination lies strictly between the input and the result of next |
| Combination.PrevPivot | combination/combination.c:148-153 | the backward scan of prev stops at a slot p; every later slot is one more than its predecessor, and p is 0 or breaks the run |
| Combination.PrevPivotIsLastBreak | combination/combination.c:150-153 | the scan's stopping slot is the last one that does not continue a run, or slot 0 |
| Combination.PrevShape | combination/combination.c:158-163 | on a combination, prev keeps the prefix, subtracts one at the pivot and sets each later slot j to n-k+j |
| Combination.PrevFailsIffFirst | combination/combination.c:144-157 | for a combination, prev fails exactly on [0, ..., k-1] |
| Combination.PrevRetreats | combination/combination.c:132-164 | a successful prev yields a combination lexicographically smaller than the input |
| Combination.PrevIsImmediate | combination/combination.c:132-164 | no combination lies strictly between the result of prev and the input |
| Combination.PrevUndoesNext | combination/combination.c:99-164 | after a successful next, prev succeeds and restores the array |
| Combination.NextUndoesPrev | combination/combination.c:99-164 | after a successful prev, next succeeds and restores the array |
| Combination.FirstIsLeast | combination/combination.c:154-157 | [0, ..., k-1], where prev fails, is the least k-subset |
| Combination.LastIsGreatest | combination/combination.c:120-123 | [n-k, ..., n-1], where next fails, is the greatest k-subset |
| Combination.AsWrittenRejectsFirstCombination | combination/combination.c:87-91 | the order test as written refuses the combination [0, 1] of {0, 1} |
| Combination.AsWrittenRejectsCombinations | combination/combination.c:87-91 | as written, every combination with two or more entries is refused |
| CombinationStruct.Comb.Get | combination/combination.c:46-58 | entry i for i < k; with range checking on and i >= k, 0 with GSL_EINVAL |
| CombinationStruct.Comb.Validate | combination/combination.c:62-96 | returns GSL_SUCCESS exactly when k <= n, every entry is below n and the entries strictly decrease, as the code tests |
| CombinationStruct.Comb.ValidateIntended | combination/combination.c:62-96 | with the order test turned the way its message says, success exactly on combinations |
| CombinationStruct.Comb.Next | combination/combination.c:99-130 | fails and leaves data unchanged exactly when NextFails; otherwise succeeds and data becomes NextData of the old array |
| CombinationStruct.Comb.LastBelowMax | combination/combination.c:114-119 | the while loop returns NextPivot of the array |
| CombinationStruct.Comb.FillAscending | combination/combination.c:125-128 | the for loop leaves the prefix and writes the ascending run from the pivot's value |
| CombinationStruct.Comb.Prev | combination/combination.c:132-164 | fails and leaves data unchanged exactly when PrevFails; otherwise succeeds and data becomes PrevData of the old array |
| CombinationStruct.Comb.LastBreak | combination/combination.c:148-153 | the while loop returns PrevPivot of the array |
| CombinationStruct.Comb.FillMaxima | combination/combination.c:158-162 | the for loop sets each slot j from the given one on to n-k+j and keeps the prefix |
| GslVector.StrideMonotone | vector/gsl_vector_double.h:55 | a later element's slot is at least one stride further into the buffer |
| GslVector.DistinctOffsets | vector/gsl_vector_double.h:68 | with stride >= 1, distinct indices address distinct slots |
| GslVector.Vector.constructor | vector/gsl_vector_double.h:11-17 | a view whose last element fits the buffer has every element inside it |
| GslVector.Vector.Ptr | vector/gsl_vector_double.h:45-56 | the slot i*stride for i < size, and the null pointer with GSL_EINVAL otherwise |
| GslVector.Vector.DistinctPointers | vector/gsl_vector_double.h:55 | in-range elements have equal pointers only when their indices are equal |
| GslVector.Vector.Get | vector/gsl_vector_double.h:58-69 | in range, success and the value in slot i*stride; out of range (with checking on), 0 with GSL_EINVAL |
| GslVector.Vector.Set | vector/gsl_vector_double.h:71-82 | in range, writes x into slot i*stride only, so Get(i) returns x and every other element is unchanged; out of range, GSL_EINVAL and the buffer unchanged |
| GslVector.Vector.GetThroughPtr | vector/gsl_vector_double.h:55-68 | reading through the pointer Ptr returns gives what Get returns, on the error path too |
| Subspace2D.Scale | multifit_nlinear/subspace2D.c:473 | gsl_vector_scale as a function: the scaled vector has the same length (entries by ScaleAt, norm by ScaleSumSq) |
| Subspace2D.ScaleSumSq | multifit_nlinear/subspace2D.c:473 | scaling a vector by c scales its squared norm by c^2 |
| Subspace2D.ScaleAt | multifit_nlinear/subspace2D.c:473 | entry i of the scaled vector is c times entry i |
| Subspace2D.ScaledToRadius | multifit_nlinear/subspace2D.c:467-474 | dx_sd scaled by delta/norm_sd has squared norm delta^2 |
| Subspace2D.AdjugateIdentity | multifit_nlinear/subspace2D.c:97-103 | B adj(B) x = det(B) x for the 2x2 adjugate |
| Subspace2D.SolveSym | multifit_nlinear/subspace2D.c:581-588 | the solve of a nonsingular C y = g returns a y with C y = g |
| Subspace2D.SolveSymUnique | multifit_nlinear/subspace2D.c:587-588 | any y with C y = g is that solution |
| Subspace2D.Solution | multifit_nlinear/subspace2D.c:565-592 | x satisfies (B + lambda I) x = -g |
| Subspace2D.Objective | multifit_nlinear/subspace2D.c:594-612 | the code's evaluation (half of B x, then dot products) is the model f(x) = g.x + x.(B x)/2 |
| Subspace2D.ObjectiveAtSolution | multifit_nlinear/subspace2D.c:595-612 | at the solution, g.x + x.(Bx)/2 equals -x.(Bx)/2 - lambda abs(x)^2 |
| Subspace2D.ReducedScalars | multifit_nlinear/subspace2D.c:433-439 | the expanded term0 is abs(adj(B) g)^2 and term1 is g.adj(B) g |
| Subspace2D.ShiftedDet | multifit_nlinear/subspace2D.c:97-103 | det(B + lambda I) = lambda^2 + tr(B) lambda + det(B) |
| Subspace2D.ShiftedAdjNorm | multifit_nlinear/subspace2D.c:97-103 | abs(adj(B + lambda I) g)^2 = term0 + 2 lambda term1 + lambda^2 abs(g)^2 |
| Subspace2D.QuarticCoefficients | multifit_nlinear/subspace2D.c:478-487 | the polynomial handed to the root finder is monic (a[4] = 1) |
| Subspace2D.QuarticAsDerived | multifit_nlinear/subspace2D.c:478-487 | from the state's scalars, with normg^2 = g^T g, the code forms the quartic of the header comment (lines 97-101) in B and g themselves: monic, a3 = 2 tr(B), a2 = tr(B)^2 + 2 det(B) - g^T g / delta^2, a1 = 2 det(B) tr(B) - 2 g^T adj(B) g / delta^2, a0 = det(B)^2 - abs(adj(B) g)^2 / delta^2 |
| Subspace2D.QuarticIsSecular | multifit_nlinear/subspace2D.c:478-487 | the coefficients a[0..4] define det(B + lambda I)^2 - abs(adj(B + lambda I) g)^2 / delta^2 |
| Subspace2D.SolutionNormSq | multifit_nlinear/subspace2D.c:565-592 | abs(x)^2 det(B + lambda I)^2 = abs(adj(B + lambda I) g)^2 |
| Subspace2D.QuarticRootIffOnBoundary | multifit_nlinear/subspace2D.c:93-103 | for nonsingular B + lambda I, lambda is a root of the quartic exactly when abs(x) = delta |
| Subspace2D.Pad | multifit_nlinear/subspace2D.c:536-538 | the p-vector holds x0 and x1 in slots 0 and 1 and zeros elsewhere |
| Subspace2D.PadSumSq | multifit_nlinear/subspace2D.c:536-538 | padding keeps the squared norm |
| Subspace2D.FirstMinimumUnique | multifit_nlinear/subspace2D.c:518-522 | at most one index is the first real root of least cost |
| Subspace2D.FirstMinimizer | multifit_nlinear/subspace2D.c:504-524 | -1 exactly when no root passes the epsilon test; otherwise the first real root whose cost is least among real roots |
| Subspace2D.BoundaryStep | multifit_nlinear/subspace2D.c:533-539 | an exact root's step, padded and mapped by an orthogonal Q, has squared norm delta^2 |
| Subspace2D.Copy | multifit_nlinear/subspace2D.c:465 | the destination's contents become the source's |
| Subspace2D.ScaleInPlace | multifit_nlinear/subspace2D.c:473 | the buffer becomes Scale of its old contents |
| Subspace2D.AlphaRatio | multifit_nlinear/subspace2D.c:364-366 | alpha formed as (abs(g) / abs(J g))^2 satisfies alpha abs(J g)^2 = abs(g)^2 |
| Subspace2D.State.Preloop | multifit_nlinear/subspace2D.c:319-443 | the first failing solver status is returned; dx_gn is set once presolve succeeds; on success, dx_sd = -alpha g, the stored norms are the norms, and for rank 2 the scalars match the reduced problem (Valid) |
| Subspace2D.State.ReduceSubspace | multifit_nlinear/subspace2D.c:395-440 | stores subg and subB; trB, detB, normg, term0 and term1 are the trace, determinant, norm and adjugate terms |
| Subspace2D.State.Step | multifit_nlinear/subspace2D.c:453-549 | three branches. If norm_gn <= delta, dx = dx_gn, inside the region. Else if rank < 2, dx = (delta/norm_sd) dx_sd, on the boundary. Otherwise a root-finder failure returns its status with dx unchanged, no real root returns GSL_SUCCESS with dx unchanged, and else dx = Q applied to the padded solution at the first real root of least cost, of length delta when Q keeps norms and the root is exact |
| Subspace2D.State.SubspaceStep | multifit_nlinear/subspace2D.c:475-546 | the full-rank branch on its own: the same three outcomes, as the predicate FullRankOutcome states them |

## Left out

- The accessors `gsl_combination_n`, `_k` and `_data` are the fields of
  `Comb` and have no members of their own.
- `GSL_ERROR` and its variants also call the library's error handler, which
  may abort. The model keeps only the returned status and value.
- The run-time switch `gsl_check_range` and the compile-time
  `GSL_RANGE_CHECK_OFF` are the `checkRange` parameter. With checking off the
  caller must keep the index in range.
- GslVector.Vector.Valid: a stride of 0 is not modelled. `Valid` requires
  stride >= 1; the header does not check the stride, and with stride 0 every
  index would address the same slot.
- The vector's `parent` field and the other struct fields that element access
  does not read are not modelled. A pointer is modelled as a slot offset.
- Allocation and freeing (`subspace2D_alloc`, `subspace2D_free`, the vector
  and combination allocators) are not modelled. The same goes for vector I/O.
  `subspace2D_init` does nothing but return success.
- `subspace2D_preduction` calls `quadratic_preduction`. That function lives in
  `common.c`, which is not part of this model.
- These outside routines enter as parameters:
  - the linear solver's `init`, `presolve` and `solve` (their statuses and
    the Gauss-Newton step);
  - `gsl_blas_dgemv` (J g) and `gsl_blas_dnrm2` (a norm function);
  - the pivoted QR of [dx_sd, dx_gn] with `qr_nonsing` (the rank);
  - `gsl_linalg_QR_QTvec` (Q^T g);
  - `gsl_linalg_QR_matQ` with `gsl_blas_dsyrk` (the reduced matrix);
  - `gsl_poly_complex_solve` (status and four roots);
  - `gsl_linalg_QR_Qvec` (a map on p-vectors).

  `W`, `tau`, `perm`, `J` and the work vectors are therefore not state.
- Floating point is not modelled: doubles are reals, with no rounding, overflow,
  infinities or NaN. Norms are given by the relation `IsNorm` (n >= 0 and
  n^2 = sum of squares), not by a square root.
- Subspace2D.State.Preloop: requires |J g| != 0. The code has no guard here,
  and over doubles it would divide by zero.
- Subspace2D.State.Step: requires norm_sd != 0 in the rank-1 branch, for the
  same reason.
- Subspace2D.State.Step: requires B + lambda I to be nonsingular for every
  root that passes the epsilon test. What happens for a singular matrix is
  not modelled: `gsl_linalg_QRPT_solve` is not part of this model, and
  `subspace2D_solution` ignores its status (lines 587-591).
- Subspace2D.State.Step: the root finder (`gsl_poly_complex_solve`) enters
  only with the contract that it returns four values; nothing ties them to
  the roots of the quartic. So the boundary property of the full-rank branch
  is stated only for a chosen root that is an exact root, and only when
  the map back through Q keeps norms (`KeepsNorms`). A root that merely
  passes the epsilon test is not claimed to give |dx| = delta.
- Subspace2D.State.SubspaceStep: `gsl_linalg_QR_Qvec` enters only with a
  length contract. That Q is orthogonal is a hypothesis of the boundary
  clause and of `BoundaryStep`, not a fact about the parameter.
- Subspace2D.SolveSym: the pivoted QR solve is modelled by its exact
  real-number result, the adjugate solution.
- Subspace2D.State.Step: the diagnostic printed when no root is real is not
  modelled.

## Findings

| source | as written | input that shows it | evidently intended | confidence | as-written member | corrected member |
|---|---|---|---|---|---|---|
| combination/combination.c:87-91 | `gsl_combination_valid` fails when `data[i] > data[j]` for some `j < i`, so it accepts only strictly decreasing arrays | n = 2, k = 2, data = [0, 1], the first combination, is refused with "not in increasing order" | fail when `data[i] < data[j]`, so that exactly the increasing arrays that `next` and `prev` produce are accepted | not executed | CombinationStruct.Comb.Validate, Combination.AsWrittenRejectsFirstCombination | CombinationStruct.Comb.ValidateIntended |
