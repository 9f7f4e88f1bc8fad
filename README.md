# Linear programming tools: normalisation and simplex solver

This project models the core of a small linear-programming toolkit written in Go:

- the linear-program record;
- the state machine that normalises a problem;
- the tableau simplex method that solves it;
- four helpers of the text parser.

The model covers the following parts:

- **The problem record.** `ModelTypes.Program` holds the fields of the Go `LinearProgram`: counts, names, objective direction, solution, coefficients, comparisons, right-hand sides and stage. `GetSolution` turns a solved problem into its name-to-value map.
- **Normalisation.** An `Undefined` problem becomes `Canonical` and then `Slack`:
  - minimisation is turned into maximisation;
  - negative right-hand sides are flipped;
  - `>=`, `>`, `<` and `=` rows become `<=` rows, with `=` giving two rows (a strict `<` or `>` row becomes a non-strict one);
  - a slack or surplus column `s1`, `s2`, ... is added per inequality, so every row becomes an equality.

  Module `Conversion` states each step as a function on `Program`. Class `Model.LinearProgram` mutates its fields in place as the Go methods do, and each method is proved to leave exactly the value of the matching function.
- **The simplex tableau.** Module `Tableau` describes one step at a time as functions on a grid of reals:
  - the entering column by Bland's rule (first entry below `-1e-10`);
  - the leaving row by the minimum-ratio test, where a later row wins only if its ratio is smaller by more than `1e-10`;
  - the pivot;
  - the feasibility test on the starting basis;
  - solution extraction;
  - the iteration.

  Class `Simplex.SimplexTable` keeps the tableau in a two-dimensional array with an array of basic variables and updates them in place. Each of its loops is proved equal to the grid function. `Simplex.Solve` is proved to produce exactly `Tableau.SolveOutcome`.
- **Parser helpers.** These are the comparison token in both directions (`setComparison`, `comparisonToString`), order-preserving de-duplication (`unique`) and the name-to-column map (`buildVarMap`).

Module `Examples` works the repository's tests through the functions: the canonical and slack forms of two small problems, the three pivots of the solved problem (`x1 = 2, x2 = 6`, objective 36), the unbounded and infeasible problems, and the two feasibility grids.

The solver has no first phase. After canonicalisation, a `>=` row with a positive right-hand side has a negative one, so the slack basis cannot start from it. `Tableau.InfeasibleIffNegativeRhs` proves that Solve reports infeasibility exactly when a right-hand side of the slack form is negative. `Examples.GeRowCaseOutcome` shows what follows: the feasible problem "maximise -x subject to x >= 1" is reported infeasible. The repository's own infeasible test relies on this behaviour, so the model keeps it.

## Model

| member | source | states |
|---|---|---|
| ModelTypes.NamedValues | model/linearProgram.go:55-58 | the map filled from the first k names has exactly those names as keys, and a name not repeated later maps to its own value (a later duplicate overwrites an earlier one) |
| ModelTypes.GetSolution | model/linearProgram.go:50-67 | no stored solution is the "solution not available" error and nothing else is; otherwise the keys are the variable names plus "objective", "objective" maps to the last solution element, and every variable name that is neither "objective" nor repeated later maps to its own solution value |
| Conversion.FlipComparison | model/model_conversion.go:150-163 | the flip of a comparison is EQ exactly when the comparison is EQ |
| Conversion.FlipComparisonInvolution | model/model_conversion.go:150-163 | flipping twice gives the comparison back |
| Conversion.FlipMeaning | model/model_conversion.go:150-163 | a row with comparison c holds of (lhs, rhs) exactly when the flipped comparison holds of (-lhs, -rhs), which is what swapping <= with >= and < with > while keeping = achieves |
| Conversion.MultiplyRow | model/model_conversion.go:142-148 | the scaled row has the same length and every entry times the scalar |
| Conversion.NegatedInvolution | model/model_conversion.go:142-148 | negating a row twice gives it back |
| Conversion.DotNegated | model/model_conversion.go:142-148 | at every point a row negated by MultiplyRow(row, -1) has the negated left-hand value |
| Conversion.Maximized | model/model_conversion.go:28-35 | the result maximises; a maximisation is unchanged; a minimisation gets every objective coefficient negated; no other field changes |
| Conversion.NonNegativeRhs | model/model_conversion.go:37-45 | every right-hand side of the result is non-negative; a row whose right-hand side was non-negative is untouched; a row whose right-hand side was negative has its right-hand side and coefficients negated and its comparison flipped; only those three fields change |
| Conversion.NonNegativeRhsMeaning | model/model_conversion.go:37-45 | every row admits exactly the same points after the step as before |
| Conversion.EqCount | model/model_conversion.go:75-86 | the number of = rows among the first k is at most k |
| Conversion.LeCoeffs | model/model_conversion.go:53-88 | the rows produced from the first k source rows number k plus the = rows among them, each as wide as the problem |
| Conversion.LeRhs | model/model_conversion.go:53-88 | the right-hand sides produced from the first k source rows number k plus the = rows among them |
| Conversion.LeStep | model/model_conversion.go:53-88 | (unfolding of LeCoeffs, LeRhs and EqCount, a proof helper) source row k appends its own image after the rows, right-hand sides and = count of the first k |
| Conversion.LeImage | model/model_conversion.go:54-87 | a source row becomes two rows if it is = and one row otherwise; what the rows mean is stated by LeImageMeaning |
| Conversion.LeImageRhs | model/model_conversion.go:54-87 | a source row's right-hand side becomes two values if the row is = and one otherwise |
| Conversion.LeImageMeaning | model/model_conversion.go:55-86 | the <= rows a source row becomes hold at every point where the source row holds; for <=, >= and = rows the converse holds too, while a strict < or > row is relaxed to a non-strict one |
| Conversion.LeCoeffsAt | model/model_conversion.go:53-88 | the image of source row i sits at offset i plus the number of = rows before it among the rows produced from every longer prefix |
| Conversion.LeRhsAt | model/model_conversion.go:53-88 | the right-hand sides of source row i sit at offset i plus the number of = rows before it among those produced from every longer prefix |
| Conversion.LeConstraints | model/model_conversion.go:47-93 | every comparison of the result is <=, there is one row per source row plus one per = row, the shape is kept, and only rows, right-hand sides, comparisons and the count change |
| Conversion.EqCountNonNegativeRhs | model/model_conversion.go:37-45 | flipping comparisons keeps the number of = rows |
| Conversion.CanonicalForm | model/model_conversion.go:6-14 | a problem past Undefined is returned unchanged; an Undefined one becomes a well-formed Canonical maximisation with every row <=, one extra row per = row and the same variables |
| Conversion.CanonicalFormIdempotent | model/model_conversion.go:6-14 | canonicalising twice is canonicalising once |
| Conversion.CanonicalFormOfCanonicalShape | model/model_conversion.go:6-14 | a maximisation whose rows are already <= with non-negative right-hand sides only has its stage set to Canonical |
| Conversion.CanonicalFormOfLeShape | model/model_conversion.go:6-14 | a problem of either direction whose rows are already <= with non-negative right-hand sides is only maximised (a minimisation gets its objective negated) and has its stage set to Canonical |
| Conversion.NonNegativeRhsUnchanged | model/model_conversion.go:37-45 | with every right-hand side non-negative the step changes nothing |
| Conversion.LeConstraintsAt | model/model_conversion.go:47-93 | in the all-<= problem, source row i's rows and right-hand sides start at offset i plus the number of = rows before it and end where row i+1's start, the last ending at the new row count, so source order is kept |
| Conversion.LeConstraintsPassThrough | model/model_conversion.go:56-65 | a <= or < row passes through at its offset with its right-hand side |
| Conversion.LeConstraintsNegated | model/model_conversion.go:66-75 | a >= or > row appears at its offset negated, with its right-hand side negated |
| Conversion.LeConstraintsEqSplit | model/model_conversion.go:76-86 | an = row becomes itself with b at its offset, followed directly by its negation with -b |
| Conversion.LeConstraintsUnchanged | model/model_conversion.go:47-93 | with every row already <= the step changes nothing |
| Conversion.LeRowsUnchanged | model/model_conversion.go:53-88 | on <= rows the produced rows and right-hand sides are the source's own, in order |
| Conversion.SlackName | model/model_conversion.go:112-113 | the name of slack column k is "s" followed by the digits of k, so it starts with s and has at least two characters |
| Conversion.NatToStringInjective | model/model_conversion.go:112-113 | two numbers written the same way by "%d" are equal |
| Conversion.SlackNameInjective | model/model_conversion.go:112-113 | slack columns with different numbers get different names |
| Conversion.SlackNames | model/model_conversion.go:112-113 | the next count slack columns after existing names are named s<existing+1>, s<existing+2>, ..., one per column |
| Conversion.WithColumn | model/model_conversion.go:110-140 | one new column that is value in the given row and 0 elsewhere is appended to every row, the objective gets a 0 coefficient, the next slack name s<n+1> is appended, the row's comparison becomes = while every other comparison is kept, and the right-hand sides, stage, direction, variable names and solution are kept |
| Conversion.ColumnValue | model/model_conversion.go:97-106 | an = row gets no column, and every other row gets one (1 for <= and <, -1 for >= and >) |
| Conversion.ColumnValueMeaning | model/model_conversion.go:97-106 | with the new variable set to s = (rhs - lhs) times the column value, an inequality row becomes an equality that holds exactly, and the source row holds exactly when s is non-negative (positive for a strict row) |
| Conversion.ColumnCount | model/model_conversion.go:95-107 | the rows among the first k that receive a column are those that are not = |
| Conversion.EqualitiesUpTo | model/model_conversion.go:95-107 | after k rows, those rows are =, later rows keep their comparison, one variable was added per non-= row, and right-hand sides, direction, stage, names and solution are kept |
| Conversion.EqualitiesUpToNames | model/model_conversion.go:112-113 | the new slack columns are named s<n+1>, s<n+2>, ... after the n names already present |
| Conversion.EqualitiesUpToObjective | model/model_conversion.go:114 | the objective keeps its coefficients and every new column gets 0 |
| Conversion.EqualitiesUpToRows | model/model_conversion.go:116-122 | every constraint row keeps its coefficients as a prefix |
| Conversion.Equalities | model/model_conversion.go:95-108 | every row of the result is =, right-hand sides are kept and one variable is added per row that was not = |
| Conversion.EqualitiesUpToEntry | model/model_conversion.go:95-140 | after the first k rows have their columns (all rows for ToSlackForm's ConvertToEqualities), an original column keeps its coefficient, and each row that is not = owns the new column numbered by the earlier rows that received one, holding 1 for <= and < (a slack) or -1 for >= and > (a surplus) there and 0 in every other row |
| Conversion.ColumnCountMonotone | model/model_conversion.go:95-107 | more rows never give fewer new columns |
| Conversion.EqualitiesOnLeRows | model/model_conversion.go:95-124 | on all-<= rows, row i gets the slack column n + i, so the new columns form an identity block |
| Conversion.EqualitiesGiveSlackBasis | model/model_conversion.go:95-124 | slack columns on a canonical problem give a well-formed slack form with one slack variable per row |
| Conversion.EqCountNone | model/model_conversion.go:75-86 | all-<= rows have no = row |
| Conversion.SlackForm | model/model_conversion.go:16-26 | the result is a well-formed Slack problem with every row =; a Slack problem is unchanged; from Undefined the rows are the canonical rows and each gets its own slack variable |
| Conversion.SlackFormRhs | model/model_conversion.go:16-26 | the slack columns keep the canonical right-hand sides |
| Conversion.SlackFormIdempotent | model/model_conversion.go:16-26 | converting to slack form twice is converting once |
| Model.LinearProgram.constructor | model/linearProgram.go:28-40 | a struct literal holds the given fields, and the fields left out get their Go zero values: no solution, no slack names, stage Undefined, direction MINIMIZE unless given |
| Model.LinearProgram.ToCanonicalForm | model/model_conversion.go:6-14 | the new value of the problem is the canonical form of the old one |
| Model.LinearProgram.ToSlackForm | model/model_conversion.go:17-26 | the new value of the problem is the slack form of the old one |
| Model.LinearProgram.EnsureMaximization | model/model_conversion.go:28-35 | the loop leaves the maximised problem |
| Model.LinearProgram.EnsureNonNegativeRhs | model/model_conversion.go:37-45 | the loop leaves the problem with non-negative right-hand sides |
| Model.LinearProgram.ConvertToLeConstraints | model/model_conversion.go:47-93 | the new value is the all-<= problem |
| Model.LinearProgram.LeRows | model/model_conversion.go:48-88 | the loop builds the rows and right-hand sides of the first source rows, all comparisons <=, with the count equal to their number |
| Model.LinearProgram.AppendLeRows | model/model_conversion.go:54-87 | one source row appends its <= image, its right-hand sides and as many <= comparisons |
| Model.LinearProgram.ConvertToEqualities | model/model_conversion.go:95-108 | the new value is the problem with one slack or surplus column per inequality |
| Model.LinearProgram.AddSlackVariable | model/model_conversion.go:110-124 | the new value has the column that is 1 in the given row and 0 elsewhere |
| Model.LinearProgram.AddSurplusVariable | model/model_conversion.go:126-140 | the new value has the column that is -1 in the given row and 0 elsewhere |
| Tableau.FirstNegative | solver/simplexAlgorithm.go:101-108 | the result is -1 exactly when no entry in the range is below -EPSILON; otherwise it is the first such entry |
| Tableau.EnteringColumn | solver/simplexAlgorithm.go:96-109 | -1 exactly when no objective-row entry left of the right-hand side is below -EPSILON; otherwise the smallest such column |
| Tableau.LeavingScan | solver/simplexAlgorithm.go:120-136 | a kept row comes from the rows scanned so far and has a pivot-column entry above EPSILON |
| Tableau.LeavingScanMinimal | solver/simplexAlgorithm.go:120-136 | nothing is kept exactly when no scanned row is eligible; otherwise the kept row is eligible with its own ratio, within EPSILON of every eligible ratio, and strictly below the ratio of every eligible row above it |
| Tableau.LeavingRow | solver/simplexAlgorithm.go:113-139 | the result is -1 or a constraint row whose pivot-column entry is above EPSILON |
| Tableau.LeavingRowMinimal | solver/simplexAlgorithm.go:113-139 | -1 exactly when no constraint row is eligible (unbounded); otherwise an eligible row whose ratio is within EPSILON of the minimum, with exact ties going to the smallest index |
| Tableau.Pivot | solver/simplexAlgorithm.go:143-162 | the pivoted grid has the same dimensions |
| Tableau.PivotEntry | solver/simplexAlgorithm.go:149-161 | (unfolding of Pivot, a proof helper) each entry of the pivoted grid is the pivot row's entry divided by the pivot element, or the row's entry minus its pivot-column entry times the new pivot-row entry |
| Tableau.PivotClearsColumn | solver/simplexAlgorithm.go:143-162 | after the pivot the pivot column is the unit vector of the pivot row |
| Tableau.PivotKeepsBasis | solver/simplexAlgorithm.go:233-235 | a pivot followed by recording the entering column as the row's basic variable keeps every basic column a unit vector |
| Tableau.RhsNonNegativeFrom | solver/simplexAlgorithm.go:169-175 | true exactly when every constraint row from i on has a non-negative right-hand side |
| Tableau.Feasible | solver/simplexAlgorithm.go:165-176 | true exactly when every constraint row's right-hand side is at least 0 |
| Tableau.FeasibleInitialGrid | solver/simplexAlgorithm.go:165-176 | the starting tableau is feasible exactly when every right-hand side of the problem is non-negative |
| Tableau.InitialGrid | solver/simplexAlgorithm.go:57-91 | the starting tableau has one row per constraint plus the objective row, and one column per variable plus the right-hand side |
| Tableau.InitialGridEntry | solver/simplexAlgorithm.go:71-91 | (unfolding of InitialGrid, a proof helper) a constraint row holds the coefficients then the right-hand side; the objective row holds the negated objective then 0 |
| Tableau.InitialBasis | solver/simplexAlgorithm.go:80-81 | there is one basic variable per constraint row, and row i's is the slack column n - m + i |
| Tableau.InitialBasisValid | solver/simplexAlgorithm.go:52-92 | in slack form the slack columns are a valid starting basis |
| Tableau.LastBasicRow | solver/simplexAlgorithm.go:189-194 | the last row whose basic variable is v, or -1 when there is none |
| Tableau.Extract | solver/simplexAlgorithm.go:179-203 | the solution has one value per original variable and ends with the objective value (the bottom-right entry) |
| Tableau.ExtractUnderBasis | solver/simplexAlgorithm.go:179-203 | under a valid basis a basic original variable takes its row's right-hand side and a non-basic one takes 0 |
| Tableau.Iterate | solver/simplexAlgorithm.go:217-236 | an optimal end keeps the grid's dimensions and has no entering column left |
| Tableau.IterateKeepsBasis | solver/simplexAlgorithm.go:217-236 | starting from a valid basis, the basis at optimality is valid |
| Tableau.IterateHalts | solver/simplexAlgorithm.go:218-231 | (unfolding of Iterate, a proof helper) with no entering column, no leaving row or no pivots left, an optimal end is the current grid and basis |
| Tableau.IterateStep | solver/simplexAlgorithm.go:228-235 | (unfolding of Iterate, a proof helper) one round pivots on the entering column and leaving row and continues from the new grid and basis |
| Tableau.Reported | solver/simplexAlgorithm.go:220-223 | the stored solution equals the extracted one, except that the objective value is negated for a minimisation |
| Tableau.Conclude | solver/simplexAlgorithm.go:217-236 | unbounded or out of pivots leaves the problem unchanged with the error; optimal stores a solution of one value per original variable plus the objective and resets the stage to Undefined; the error is never infeasibility |
| Tableau.SolveOutcome | solver/simplexAlgorithm.go:206-208 | Solve first converts to slack form: on an error the result is the slack form, and on success it is the slack form with a stored solution and the stage reset, and it stays well formed |
| Tableau.SolveSlackForm | solver/simplexAlgorithm.go:210-239 | infeasibility is reported exactly when the starting tableau is infeasible; on an error the problem is unchanged; on success only the solution and the stage change |
| Tableau.SolveSolution | solver/simplexAlgorithm.go:179-239 | on success the pivoting ended optimal with no entering column and a valid basis, and the stored solution is the one read off that basis: a basic original variable takes its row's right-hand side, a non-basic one takes 0, and the last value is the objective row's right-hand side, negated for a minimisation |
| Tableau.ConcludeUnderBasis | solver/simplexAlgorithm.go:179-203 | storing the result of an optimal grid with a valid basis gives no error and the solution read off that basis, objective sign restored for a minimisation |
| Tableau.InfeasibleIffNegativeRhs | solver/simplexAlgorithm.go:206-215 | Solve reports infeasibility exactly when a right-hand side of the slack form is negative |
| Simplex.SimplexTable.constructor | solver/simplexAlgorithm.go:210 | the zero tableau has no rows and no basic variables |
| Simplex.SimplexTable.InitializeTableau | solver/simplexAlgorithm.go:52-92 | the problem is converted to slack form unless it already is, and the arrays then hold the starting tableau and slack basis of the converted problem |
| Simplex.SimplexTable.LoadSlackForm | solver/simplexAlgorithm.go:57-91 | the arrays hold the starting tableau and slack basis of the problem |
| Simplex.SimplexTable.BuildTableau | solver/simplexAlgorithm.go:57-91 | fresh arrays of size (m+1) x (n+1) and m hold the starting tableau and slack basis |
| Simplex.SimplexTable.CopyConstraintRow | solver/simplexAlgorithm.go:71-79 | row i holds the constraint's coefficients then its right-hand side, and no other row changes |
| Simplex.SimplexTable.FillObjectiveRow | solver/simplexAlgorithm.go:85-91 | the bottom row holds the negated objective then 0, and no constraint row changes |
| Simplex.SimplexTable.FindEnteringVariable | solver/simplexAlgorithm.go:96-109 | the loop returns the entering column of the stored grid |
| Simplex.SimplexTable.FindLeavingVariable | solver/simplexAlgorithm.go:113-139 | the loop returns the leaving row of the stored grid, with no running minimum standing for +Inf |
| Simplex.SimplexTable.PerformPivot | solver/simplexAlgorithm.go:143-162 | the array afterwards holds the pivoted grid |
| Simplex.SimplexTable.SubtractPivotRow | solver/simplexAlgorithm.go:155-160 | row i becomes the pivoted grid's row i and no other row changes |
| Simplex.SimplexTable.PivotAndRecord | solver/simplexAlgorithm.go:233-235 | the array holds the pivoted grid and the pivot row's basic variable becomes the entering column |
| Simplex.SimplexTable.IsInitiallyFeasible | solver/simplexAlgorithm.go:165-176 | the result is the feasibility of the stored grid |
| Simplex.SimplexTable.PivotRound | solver/simplexAlgorithm.go:228-235 | no leaving row stops as unbounded; no pivots left stops as out of pivots; otherwise the round pivots and what is left of the iteration is unchanged |
| Simplex.SimplexTable.PivotStep | solver/simplexAlgorithm.go:233-235 | the pivot and basis update consume one pivot and keep what is left of the iteration unchanged |
| Simplex.SimplexTable.PivotUntilDone | solver/simplexAlgorithm.go:217-236 | the loop ends in the phase the iteration function gives from the starting grid and basis, and on optimality the array holds the final grid |
| Simplex.SimplexTable.ExtractSolution | solver/simplexAlgorithm.go:179-203 | the loop returns the extracted solution of the stored grid and basis |
| Simplex.Solve | solver/simplexAlgorithm.go:206-239 | the problem's new value and the error are exactly the solve outcome of the old problem |
| Simplex.SolveInSlackForm | solver/simplexAlgorithm.go:210-239 | after the conversion the tableau method yields exactly the slack-form outcome |
| Simplex.PivotAndStore | solver/simplexAlgorithm.go:217-236 | the pivoting loop and the storing of the solution yield exactly the concluded outcome of the iteration |
| Simplex.StoreSolution | solver/simplexAlgorithm.go:220-224 | the problem gains the extracted solution, with the objective sign restored, and stage Undefined; nothing else changes |
| Parser.ParseComparison | parser/parser.go:115-131 | a comparison is found exactly for the five tokens <, <=, >, >=, = |
| Parser.SetComparison | parser/parser.go:115-131 | an unknown token is the "invalid comparison operator" error and leaves the problem unchanged; a known token sets that one comparison and nothing else |
| Parser.ComparisonToString | parser/parser.go:226-241 | reading the token of a comparison back gives the same comparison |
| Parser.ParseComparisonInverse | parser/parser.go:226-241 | every token that parses is the token written for its comparison |
| Parser.ComparisonToStringInjective | parser/parser.go:226-241 | different comparisons get different tokens |
| Parser.Unique | parser/parser.go:155-165 | the result has no duplicates, holds exactly the input's entries, and is no longer than the input |
| Parser.UniqueKeepsFirstOrder | parser/parser.go:155-165 | the kept entries come in the order of their first appearance |
| Parser.UniqueOfDistinct | parser/parser.go:155-165 | a list without duplicates comes back unchanged |
| Parser.UniqueIdempotent | parser/parser.go:155-165 | de-duplicating twice is de-duplicating once |
| Parser.VarMapUpTo | parser/parser.go:70-73 | after k names the keys are those names and each key maps to an index below k that holds it |
| Parser.VarMapUpToLast | parser/parser.go:71-73 | a name not repeated later among the first k maps to its own index |
| Parser.BuildVarMap | parser/parser.go:69-75 | the keys are the names, each maps to an index that holds it, and a name not repeated later maps to its own index |
| Parser.BuildVarMapInverse | parser/parser.go:69-75 | over distinct names the map is the inverse of indexing |
| Parser.UniqueNamesIndexed | parser/parser.go:64-75 | the de-duplicated names each map to their own column |
| Examples.CanonicalCaseResult | model/model_conversion_test.go:7-36 | the minimisation with a >= row becomes a maximisation with negated objective, all rows <=, and the >= row negated with right-hand side -10 |
| Examples.SlackCaseResult | model/model_conversion_test.go:38-71 | two <= rows become = rows with slack columns s1 and s2 forming an identity block, four variables in all |
| Examples.SolveCaseSlack | solver/simplexAlgorithm_test.go:10-24 | the slack form of the three-row problem has slack columns s1 to s3 |
| Examples.SolveCaseIterate | solver/simplexAlgorithm_test.go:26-35 | three pivots reach the optimal tableau |
| Examples.SolveCaseOutcome | solver/simplexAlgorithm_test.go:10-36 | with at least three pivots allowed, Solve succeeds with x1 = 2, x2 = 6 and objective 36 |
| Examples.SolveCaseInPlace | solver/simplexAlgorithm_test.go:10-36 | the in-place solve of that problem stores [2, 6, 36] with no error |
| Examples.SolveCaseSolutionMap | solver/simplexAlgorithm_test.go:59-73 | the solution map is x1 to 2, x2 to 6 and objective to 36 |
| Examples.UnboundedCaseOutcome | solver/simplexAlgorithm_test.go:88-107 | Solve reports the problem unbounded after one pivot, leaving it in slack form |
| Examples.InfeasibleCaseOutcome | solver/simplexAlgorithm_test.go:109-130 | Solve reports the problem infeasible |
| Examples.GeRowCaseOutcome | solver/simplexAlgorithm.go:213-215 | the feasible problem "maximise -x subject to x >= 1" is reported infeasible |
| Examples.FeasibilityCases | solver/simplexAlgorithm_test.go:132-158 | the first grid is feasible and the second, with a negative right-hand side, is not |

## Left out

- Floating point: coefficients are exact reals. Rounding, `-0.0`, infinities and NaN are not modelled. The `1e-10` tolerances are kept exactly.
- `math.Inf(1)` as the starting minimum ratio is modelled as "no candidate yet" (`None`).
- Simplex.Solve: the Go loop has no bound, and Bland's rule is relied on for termination. The model takes a pivot budget `maxPivots` and reports `IterationLimit` when it runs out. Termination of the unbounded loop is not proved.
- `basicVariables` is a `[]float64` holding column indices in Go. Here it is an array of naturals, so the `int(...)` conversion is the identity.
- Preconditions. The model requires the counts to agree with the slice lengths. The parser (parser/parser.go:44-45 and 90-95) and the tests build problems that way. In Go, inconsistent counts either panic on an index out of range or, in `ConvertToLeConstraints`, silently drop the rows past `NbConstraints`. The model requires them away:
  - SetComparison requires a valid index.
  - The normalisation methods and Solve require the counts to match the slice lengths and the stage tag to match the rows.
  - GetSolution requires a stored solution to hold at least one value and no fewer values than there are variable names, which is exactly when the Go loop and its last-element read do not panic.
- Comparison, objective and stage are closed datatypes. The `default` branches of `comparisonToString` and `FlipComparison` for out-of-range integers cannot occur.
- Go slices alias: `MultiplyRow` returns a fresh slice, but a row appended unchanged by `ConvertToLeConstraints` is shared with the old model. Values here never alias.
- GetSolutionJSON's JSON encoding is not part of this model: `GetSolution` gives the map that is marshalled.
- The parser's regular-expression parsing, number parsing, `ConvertLPToJSON` and `equationToString` are not part of this model. So are the tableau's `String` method and all printing.
- `unique` uses a Go map as the seen set; here membership in the list built so far is used, which keeps the same entries in the same order.
