# na-gaussian-elimination in Dafny

A model of the solving engine of `na-gaussian-elimination`, a JavaScript
library that solves a linear system `matrix · x = result` by Gaussian
elimination. The library is generic over the caller's number type: it only
calls `sub`, `times`, `div`, `isZero`, `abs` and `cmp` on the entries. The
model instantiates that type with Dafny's exact `real`, so `isZero` is
`== 0.0` and `cmp` is the ordinary order.

The engine has three phases, and each has its own module:

- **Forward elimination** (`Elimination`, with `Pivoting` and `Swaps`). For
  k = 0 .. min(m, n) - 2, a pivoting strategy (`none`, `avoid zero`,
  `partial`, `scaled`, `complete`) may swap rows, and under `complete` also
  columns. The loop then subtracts multiples of row k from the rows below it.
  - Under `lu` the multipliers are kept in the lower-triangular slots;
    otherwise those slots are set to zero.
  - A column swap is recorded in the transformation vector.
  - `reorderRows` then tries to move the rows that are zero in column
    min(m, n) - 1 to the bottom. As written it can pass over such a row: see
    the first finding.
- **Back substitution** (`Substitution`). The unknowns are computed from the
  last to the first. A zero diagonal entry has three outcomes:
  - with a zero right-hand side entry, the unknown is stored as 0 and
    `infiniteSolutions` is raised without looking at the rest of the row;
  - otherwise, if the right-hand side minus the rest of the row is non-zero,
    the solve fails with "a number multiplied by zero cannot be non-zero";
  - otherwise that difference, 0, is stored and no flag is raised.
  - Extra rows of an over-determined system must agree with the last unknown.
  - Only when every extra row passes, and only when rows are non-empty, is
    the right-hand side cut to the unknowns (the splice at line 368).
- **Solve** (`Solver`) runs both phases. It then replays the transformation
  vector to restore the caller's column order.

`LuCapture` shows that the `lu` option changes nothing but the multiplier
slots: no later step reads them, so a solve with capture reports the same
solution, flag or error as one without.

`Systems` holds the shared data: matrices, the `System` being reduced
(matrix, right-hand side, transformation vector), `SolutionSystem`, and the
`SolutionError` cases. It also defines what it means for a vector to solve a
system (`Solves`), and to solve it once the columns have been renamed by the
transformation vector (`SolvedBy`).

The source mutates the caller's arrays in place, and its solution is the
`result` array itself. The model returns new values instead:
- every phase is a pure function;
- every `throw new SolutionError` is a `Failure` whose constructor says which
  guard fired.

The public wrappers `solve`, `forwardElimination` and `backSubstitution`
catch the error and pass it to `emit('error', ...)`. They return `null` only
when an `error` listener is attached. The built-in emitter rethrows the error
(lines 84-88), and test/rectangular-matrix-test.js:47-57 expects `solve` to
throw `SolutionError`. The model's `Failure` stands for both outcomes.

Three places in the code do not do what the code evidently intends (see
"## Findings"). For each, the model has both versions: the code as written,
and the corrected behaviour.
- `ReorderFrom` and `ReorderRows` take a `retest` flag.
- `BackSubstitution` takes a `shortcut` flag.
- The solve has `Solve` (as written) and `SolveCorrected`.

`Examples` evaluates complete solves on concrete systems:
- the repository's tests with and without LU capture;
- one for each finding;
- the dependent-unknown test.

**Dependent unknowns.** test/square-matrix-test.js:74-85 is titled as a case
with infinitely many solutions: [[1,2,0],[0,0,1],[0,0,2]]·x = [1,1,2]. It
checks only the values [1, 0, 1]. In the code, row 1 has a zero diagonal but
right-hand side 1, so the flag of line 322 is not raised. The rest of the row
accounts for the 1, so lines 328-330 store 0 without a flag. The model
follows the code: `Examples.DependentUnknownNotFlagged` returns [1, 0, 1]
with `infiniteSolutions` clear.

## Model

| member | source | states |
|---|---|---|
| Systems.SwapPlaces | na-gaussian-elimination.js:542-546 | exchanges the two positions and leaves every other position as it was |
| Systems.DotFromCombination | na-gaussian-elimination.js:258-264 | a row that is u minus c times v, column by column, has left-hand side u·x minus c times v·x |
| Systems.SwapEquationsKeepsSolutions | na-gaussian-elimination.js:513-524 | exchanging two equations does not change which vectors solve the system, in both directions |
| Swaps.SwapRows | na-gaussian-elimination.js:513-524 | rows i and j of the matrix and of the right-hand side trade places; all other rows and the transformation vector are unchanged |
| Swaps.SwapColumns | na-gaussian-elimination.js:526-540 | entries i and j trade places in every row and in the transformation vector; other entries and the right-hand side are unchanged; a permutation stays a permutation |
| Swaps.SwapRowsInvolutive | na-gaussian-elimination.js:513-524 | a row swap undoes itself |
| Swaps.SwapRowsKeepsSolutions | na-gaussian-elimination.js:513-524 | x solves the system before a row swap exactly when it solves it after |
| Swaps.SwapColumnsKeepsSolutions | na-gaussian-elimination.js:526-540 | x solves the system before a column swap exactly when x with entries i and j exchanged solves it after |
| Pivoting.ColumnMaxIndex | na-gaussian-elimination.js:427-441 | the row p at or below i holding the greatest magnitude in column i, the first one of several equal maxima |
| Pivoting.RowMaxAbs | na-gaussian-elimination.js:470-482 | an upper bound on every magnitude from column i to the end of the row |
| Pivoting.RowMaxAbsAttained | na-gaussian-elimination.js:470-482 | that bound is the magnitude of an entry in range, so it is the maximum |
| Pivoting.ScaledValue | na-gaussian-elimination.js:459-468 | a value in [0, 1], zero exactly when row[i] is zero, and otherwise the magnitude of row[i] relative to the row's largest magnitude |
| Pivoting.BestScaledRowIndex | na-gaussian-elimination.js:443-457 | the first row at or below i with the greatest scaled value |
| Pivoting.MatrixMaxIndex | na-gaussian-elimination.js:484-511 | a position of greatest magnitude in the trailing sub-matrix, the first in the code's scan order, and in column k whenever column k attains the maximum |
| Pivoting.PartialPivot | na-gaussian-elimination.js:411-414 | one row swap of k with a row at or below k, after which no entry below the pivot has a greater magnitude |
| Pivoting.ScaledPivot | na-gaussian-elimination.js:416-419 | one row swap of k with a row at or below k, after which no row at or below k has a greater scaled value in column k than the pivot row; zeros below the diagonal are kept |
| Pivoting.CompletePivot | na-gaussian-elimination.js:421-425 | a row swap followed by a column swap after which the pivot has the greatest magnitude of the trailing sub-matrix; the transformation vector stays a permutation |
| Pivoting.Pivot | na-gaussian-elimination.js:397-425 | `none` fails exactly on a zero pivot and otherwise moves nothing; `avoid zero` pivots partially only on a zero pivot; no other strategy fails |
| Pivoting.ZeroPivotMeansZeroColumn | na-gaussian-elimination.js:227-234 | a pivot still zero after pivoting means column k is zero from row k down, so skipping the column loses nothing |
| Pivoting.PivotKeepsSolutions | na-gaussian-elimination.js:397-425 | every strategy keeps the solution set, read through the transformation vector |
| Elimination.InitialTv | na-gaussian-elimination.js:210-213 | the identity permutation under complete pivoting and empty otherwise |
| Elimination.ReduceRow | na-gaussian-elimination.js:256-261 | entries left of k are unchanged, slot k receives the multiplier under `lu` and zero otherwise, and every entry right of k is the row minus the multiplier times the pivot row |
| Elimination.EliminateColumn | na-gaussian-elimination.js:243-267 | rows 0..k are unchanged; without `lu` column k is cleared below the pivot and the zeros below the diagonal grow by one column |
| Elimination.ReducedEquation | na-gaussian-elimination.js:243-267 | once the pivot equation holds, an equation holds exactly when its reduced form holds |
| Elimination.EliminateColumnKeepsSolutions | na-gaussian-elimination.js:243-267 | eliminating a column keeps the solution set, in both directions |
| Elimination.Step | na-gaussian-elimination.js:227-270 | an iteration fails exactly under `none` with a zero pivot, and then names step k; without `lu` column k ends clear below the diagonal |
| Elimination.StepSkipsZeroColumn | na-gaussian-elimination.js:228-234 | a pivot still zero after pivoting means column k is zero from row k down, and the system comes back unchanged (as test/pivoting-test.js:84-99 expects) |
| Elimination.StepKeepsSolutions | na-gaussian-elimination.js:227-270 | one iteration keeps the solution set |
| Elimination.EliminateFrom | na-gaussian-elimination.js:227-270 | the k loop fails only under `none`, at a step inside the loop; without `lu` it leaves zeros below the diagonal in columns 0..end-2 |
| Elimination.EliminateFromKeepsSolutions | na-gaussian-elimination.js:227-270 | the whole k loop keeps the solution set |
| Elimination.ReorderFrom | na-gaussian-elimination.js:387-393 | rows above i, the transformation vector and the shape are kept, and the active-row bound `last` never grows |
| Elimination.ReorderRows | na-gaussian-elimination.js:383-395 | does nothing when `end` is 0; otherwise keeps rows 0..end-2 in place and the zeros below the diagonal |
| Elimination.ReorderFromKeepsZeroBelow | na-gaussian-elimination.js:387-393 | swapping rows at or below j keeps the columns left of j clear below the diagonal |
| Elimination.RetestingSortsColumn | na-gaussian-elimination.js:380-395 | with the swapped-in row checked again, the loop leaves the rows that are zero in column j as a suffix |
| Elimination.RetestedZerosLast | na-gaussian-elimination.js:380-395 | the corrected reorderRows puts every row that is zero in column n-1 below all rows that are not, as the comment above the function promises |
| Elimination.ReorderRowsMissesZeroRow | na-gaussian-elimination.js:387-393 | as written, a zero row swapped into position i is passed over and a non-zero row ends below it |
| Elimination.ReorderFromPermutes | na-gaussian-elimination.js:387-393 | row t afterwards is row p[t] before, the same p for the matrix and the right-hand side |
| Elimination.ReorderRowsPermutes | na-gaussian-elimination.js:383-395 | reorderRows applies a permutation of whole equations that fixes rows 0..n-2 |
| Elimination.ReorderFromKeepsSolutions | na-gaussian-elimination.js:387-393 | the reorder loop keeps the solution set |
| Elimination.ReorderRowsKeepsSolutions | na-gaussian-elimination.js:383-395 | reorderRows keeps the solution set |
| Elimination.EliminationSteps | na-gaussian-elimination.js:204-270 | the k loop from a fresh system keeps the shape, fails only under `none`, without `lu` leaves the matrix upper triangular in its first min(m, n) - 1 columns, and with fewer than two rows or columns returns the system unchanged (test/simple-test.js:48-57) |
| Elimination.ForwardElimination | na-gaussian-elimination.js:204-277 | the same for the whole forward pass including reorderRows; the transformation vector is a permutation under complete pivoting and empty otherwise; empty rows come back unchanged |
| Elimination.EliminationStepsKeepsSolutions | na-gaussian-elimination.js:204-270 | x solves the input exactly when it solves the reduced system in the renamed columns |
| Elimination.ForwardEliminationKeepsSolutions | na-gaussian-elimination.js:204-277 | without `lu`, x solves the input exactly when it solves the output of forward elimination in the renamed columns |
| Substitution.Unknowns | na-gaussian-elimination.js:290-292 | the number of unknowns computed is the smaller of the row count and the row length |
| Substitution.SubstituteRow | na-gaussian-elimination.js:310-344 | fails exactly when a checked row has a zero diagonal and its remaining left-hand side differs from the right-hand side; otherwise the new value makes row i hold, and the value is 0 when the unknown is free |
| Substitution.SubstituteFrom | na-gaussian-elimination.js:310-344 | the loop keeps the entries from i on and fails only on a row above i with a zero diagonal |
| Substitution.SubstituteFromFlag | na-gaussian-elimination.js:320-323 | `infiniteSolutions` ends set exactly when it came in set or some row below i left its unknown free |
| Substitution.CheckRemainingRows | na-gaussian-elimination.js:346-366 | succeeds exactly when every extra row gives the last unknown the value already computed |
| Substitution.CheckRemainingRowsReports | na-gaussian-elimination.js:346-366 | a failure names the first extra row that disagrees, and reports "multiplied by zero" exactly when its last coefficient is zero |
| Substitution.SameQuotient | na-gaussian-elimination.js:362-363 | the quotient comparison is the equation divisor · last = value |
| Substitution.BackSubstitution | na-gaussian-elimination.js:289-377 | returns the matrix, a solution cut to the unknowns, and `infiniteSolutions` exactly when some row leaves its unknown free; an empty row returns the right-hand side untouched; failures name a row in range |
| Substitution.SubstituteFromSolvesRows | na-gaussian-elimination.js:310-344 | every row the loop checked holds for the final vector |
| Substitution.BackSubstitutionSolves | na-gaussian-elimination.js:289-377 | on a matrix that is zero below the diagonal, a successful result solves the system, unless the shortcut was taken |
| Substitution.BackSubstitutionFindsSolution | na-gaussian-elimination.js:289-377 | with non-zero diagonals, any solution of the triangular system is exactly what back substitution returns, without the infinite flag |
| Substitution.ShortcutAcceptsInconsistentRow | na-gaussian-elimination.js:320-323 | as written, [[0,1],[0,1]]·x = [0,1] yields [0,1], which does not solve it; without the shortcut the contradiction is reported |
| LuCapture.PivotAgrees | na-gaussian-elimination.js:397-425 | on two systems that differ only in the multiplier slots, every strategy fails on both with the same error or swaps the same rows and columns of both |
| LuCapture.EliminateColumnAgrees | na-gaussian-elimination.js:243-267 | eliminating column k with or without capture keeps two such systems equal outside the multiplier slots, now of columns 0..k |
| LuCapture.StepAgrees | na-gaussian-elimination.js:227-270 | one iteration of the k loop, with or without capture, gives the same failure or agreeing systems |
| LuCapture.EliminateFromAgrees | na-gaussian-elimination.js:227-270 | the rest of the k loop, with or without capture, gives the same failure or agreeing systems |
| LuCapture.ReorderFromAgrees | na-gaussian-elimination.js:387-393 | reorderRows exchanges the same rows of two agreeing systems |
| LuCapture.ForwardEliminationAgrees | na-gaussian-elimination.js:204-277 | the whole forward pass, with or without capture, gives the same failure or systems that differ only in the multiplier slots |
| LuCapture.SubstituteFromAgrees | na-gaussian-elimination.js:310-344 | the substitution loop reads nothing below the diagonal, so it gives the same result on both matrices |
| LuCapture.CheckRemainingRowsAgrees | na-gaussian-elimination.js:346-366 | the extra-row check reads only the last column, so it gives the same result on both matrices |
| LuCapture.BackSubstitutionAgrees | na-gaussian-elimination.js:289-377 | back substitution on two matrices that differ only in multiplier slots gives the same error, or the same solution and flag |
| Solver.ReplayFrom | na-gaussian-elimination.js:184-187 | the replay keeps both lengths and keeps the transformation vector a permutation |
| Solver.ReplayKeepsPairing | na-gaussian-elimination.js:184-187 | each exchange moves a solution entry together with its unknown's index, so solution and vector stay paired |
| Solver.ReplayRestoresWhenIdentity | na-gaussian-elimination.js:184-187 | whenever the replay ends with the identity vector, every unknown is back in its original column |
| Solver.ReplaySkipsFixedPoints | na-gaussian-elimination.js:184-187 | positions already holding their own index are passed over |
| Solver.ReplayUndoesOneSwap | na-gaussian-elimination.js:184-187 | a single column exchange is undone exactly |
| Solver.ReplayMissesCycle | na-gaussian-elimination.js:184-187 | on the vector [1,2,3,0] the replay ends away from the identity and puts unknowns in the wrong columns |
| Solver.RestoreOrder | na-gaussian-elimination.js:184-187 | the corrected replay: reading its result through the transformation vector gives the solution of the reduced system |
| Solver.RestoreOrderAgreesOnOneSwap | na-gaussian-elimination.js:184-187 | on a single column exchange both replays agree |
| Solver.Solve | na-gaussian-elimination.js:177-192 | a successful solve has one value per column, a zero-pivot failure happens only without pivoting, and the empty system [[]] gives an empty solution without the flag (test/simple-test.js:30-34) |
| Solver.SolveCorrected | na-gaussian-elimination.js:177-192 | the same shape guarantees for the corrected solve |
| Solver.SolveWithIgnoresLu | na-gaussian-elimination.js:151-157 | with the same strategy, a solve with LU capture and one without fail with the same error or return the same solution and flag |
| Solver.SolveCorrectedSolves | na-gaussian-elimination.js:177-192 | whatever the corrected solve returns solves the input system, with or without `lu` |
| Solver.SolveSolvesWhenUnique | na-gaussian-elimination.js:177-192 | without complete pivoting, a solution returned without the infinite flag solves the input system, with or without `lu` |
| Examples.SolvesTwoByTwo | test/square-matrix-test.js:14-25 | [[1,2],[3,4]]·x = [5,6] without pivoting gives [-4, 4.5] |
| Examples.DependentUnknownNotFlagged | test/square-matrix-test.js:74-85 | [[1,2,0],[0,0,1],[0,0,2]]·x = [1,1,2] gives [1,0,1], and `infiniteSolutions` stays clear because row 1 takes the branch of lines 328-330 |
| Examples.LuKeepsMultiplier | test/lu-test.js:14-28 | forward elimination with `lu` on [[4,3],[2,1]]·x = [6,5] keeps the multiplier 0.5 below the pivot |
| Examples.LuSolvesThreeByTwo | test/lu-test.js:34-49 | the 3×2 system [[1,2],[3,4],[6,8]]·x = [5,6,12] with `lu` gives [-4, 4.5] |
| Examples.ReorderRowsRejectsSolvableSystem | na-gaussian-elimination.js:383-395 | a system solved by [1,2] is rejected as written and solved by the corrected solve |
| Examples.ShortcutReportsUnsolvableSystem | na-gaussian-elimination.js:320-323 | a system with no solution is reported solved as written and rejected by the corrected solve |
| Examples.ReplayScramblesSolution | na-gaussian-elimination.js:184-187 | under complete pivoting the solve as written returns a vector that does not solve the system, and the corrected solve returns the solution |

## Left out

- Events: `emit`, the event names and payloads, and `setEventEmitter` are not modelled. They report progress and do not change the result.
- Error wrappers: `solve`, `forwardElimination` and `backSubstitution` catch the error and emit it. That returns `null` with an `error` listener and rethrows without one. The model returns the `Failure` in both cases.
- Options: `setPivoting` rejects an unknown name with `OptionsError`. The `Strategy` datatype cannot hold an unknown name, so that case does not arise. `setLuFlag` and the option defaults are folded into `Config`.
- The `zero` option: the value placed in cleared slots is `0.0`, the zero of `real`.
- Number types: the generic number interface is `real`. Floating-point rounding and big-number precision are not modelled.
- In-place mutation and aliasing: the caller's arrays are modified in place, and `solution` is the same array as `result`. The model returns new values instead.
- State after a failure: by the time an error is thrown, earlier steps have already rewritten the caller's `matrix` and `result`. A `Failure` carries only the error, not that partly reduced state.
- Wider than tall: systems with more columns than rows are outside `Substitutable`. In that case back substitution reads `result` past its end, and the model does not give that a meaning.
- Elimination.ForwardEliminationKeepsSolutions: stated only without `lu`. Under `lu` the lower slots hold multipliers, so the matrix no longer stands for the equations. `LuCapture.ForwardEliminationAgrees` relates such a run to one without `lu`, and that is how the solve lemmas cover both.
- Substitution.BackSubstitutionSolves: excludes results produced through the shortcut, because of the shortcut finding.
- Solver.SolveSolvesWhenUnique: excludes complete pivoting and results with `infiniteSolutions` set, because of the replay and shortcut findings.
- Solver.SolveCorrectedSolves: states soundness only. Without full row reduction the engine also rejects some consistent rank-deficient systems, such as [[0,1],[0,0]]·x = [5,0]. Both versions do, so no completeness claim is made.

## Findings

| source | as written | input that shows it | evidently intended | confidence | as-written member | corrected member |
|---|---|---|---|---|---|---|
| na-gaussian-elimination.js:387-393 | after swapping row m into position i the loop advances i, so the swapped-in row is never checked | [[1,0],[0,0],[0,1],[0,0]]·x = [1,0,2,0], pivoting `none`: x = [1,2] solves it, but the solve fails at row 2 | all-zero rows go to the end, as the comment at line 381 says; checking position i again does this | not executed; high | Examples.ReorderRowsRejectsSolvableSystem | Elimination.RetestedZerosLast |
| na-gaussian-elimination.js:320-323 | when result[i] and matrix[i][i] are both zero, row i is accepted without checking the rest of it | [[0,1],[0,1]]·x = [0,1], pivoting `avoid zero`: the solve returns [0,1] with `infiniteSolutions`, but no x solves the system | the rest of row i must still hold before its unknown is free | not executed; high | Examples.ShortcutReportsUnsolvableSystem | Solver.SolveCorrectedSolves |
| na-gaussian-elimination.js:184-187 | the replay exchanges result[i] and result[tv[i]] while it also rearranges tv, in a single pass, so a cycle of four columns such as tv = [1,2,3,0] is not undone | [[0,8,0,0],[0,0,4,0],[0,0,0,2],[1,0,0,0]]·x = [16,12,8,1], pivoting `complete`: the unique solution is [1,2,3,4], but the solve returns [3,2,1,4] | unknown tv[t] receives entry t of the reduced solution | not executed; high | Examples.ReplayScramblesSolution | Solver.RestoreOrder |
