# Sudoku solver: a verified model

This project models the three classes at the core of the PHP Sudoku solver:

- `Sudoku\Sudoku` is the grid. It is an N×N matrix of integers where 0 marks an empty square. Its constructor rejects a matrix that is not square, then one smaller than 4×4. It answers questions about rows, columns and quadrants (the √N×√N boxes): which values a square may still take, which squares are empty, and whether the puzzle "is solvable".
- `Sudoku\Solver` is a greedy solver with no backtracking. Each step fills one square. It takes the first square, in row-major order, that has exactly one candidate (a *naked single*). If there is none, it writes the smallest candidate into the first empty square. It repeats this on a clone until no square is empty. `getSolutionFor` returns null when some empty square has no candidate.
- `Sudoku\Solution` is a proposed answer. It is filled square by square into a sparse `row => col => value` array. It checks the answer against a puzzle: `matches` compares it with the givens, and `isValid` checks completeness and that no value repeats in a row, column or quadrant.

The files:

- `wrappers.dfy` holds `Option`, `Result` and `Outcome`, which model the exceptions as values.
- `arith.dfy` holds the integer square root and facts about blocks of side q.
- `seqs.dfy` holds the sequence behaviour of `range`, `array_filter` and `array_search` + `unset`.
- `grid.dfy` holds the specification. It defines quadrants, the values a square sees, candidates, conflicts, empty squares and fillability.
- `sudoku.dfy`, `solver.dfy` and `solution.dfy` hold the three classes.

The Sudoku and Solution objects are Dafny classes whose methods update the `matrix` field. Each PHP loop is a Dafny loop with invariants, proved against the specification functions in `grid.dfy`.

## Model

| member | source | states |
|---|---|---|
| Seqs.OneTo | src/Sudoku/Sudoku.php:318-321 | `range(1, N)` holds exactly 1..N, ascending, with value i+1 at index i |
| Seqs.RemoveFirstIsWithout | src/Sudoku/Sudoku.php:304-313 | on an ascending list, unsetting the first occurrence of v removes every occurrence of v |
| Seqs.WithoutTwice | src/Sudoku/Sudoku.php:221-228 | filtering out F and then G is filtering out F ∪ G, so the order of the three forbidden lists does not matter |
| Grid.QuadrantFor | src/Sudoku/Sudoku.php:264-278 | the quadrant of (row, col) contains it, has side √N, and lies inside the grid when N is a perfect square |
| Grid.BlockStart | src/Sudoku/Sudoku.php:268-271 | `floor(a/q)*q` lies at most q-1 below a, so a's block starts there, and for a perfect-square N the block fits inside the grid; that it is a multiple of q is proved in Grid.BlockIndexOf |
| Grid.SameBlock | src/Sudoku/Sudoku.php:264-278 | an index lies in a's block exactly when both have the same block start |
| Grid.BlockCornerQuadrant | src/Sudoku/Sudoku.php:159-172 | every square whose block indices are (i, j) has the quadrant of that block's corner (i·q, j·q) |
| Grid.Candidates | src/Sudoku/Sudoku.php:221-228 | a value is a candidate iff it is in 1..N and not forbidden; the candidates are ascending |
| Grid.ForbiddenMeaning | src/Sudoku/Sudoku.php:245-258 | a value is forbidden at (r, c) iff it is non-zero and held by a square in the same row, column or quadrant |
| Grid.NoConflictIff | src/Sudoku/Sudoku.php:78-121 | no two squares that see each other clash iff no row, no column and no square's quadrant repeats a non-zero value |
| Grid.WriteKeepsNoConflict | test/SudokuShould.php:84-89 | writing a non-forbidden value into an empty square of a conflict-free grid keeps it conflict-free |
| Grid.SolvedIffNoEmptySquare | test/SudokuShould.php:95-99 | the grid is solved iff it has no empty square |
| Grid.WriteFillsOneSquare | src/Sudoku/Solver.php:14-32 | filling an empty square removes exactly that square from the empty ones, so the count drops by one |
| Grid.Unfillable | src/Sudoku/Sudoku.php:204-214 | one empty square without a candidate makes the grid not fillable |
| Grid.EveryEmptySquareListed | src/Sudoku/Sudoku.php:204-214 | when every listed empty square has a candidate, every empty square has one |
| Sudoku.IsSquareMatrix | src/Sudoku/Sudoku.php:32-44 | true iff every row has as many entries as there are rows |
| Sudoku.RemoveForbiddenValues | src/Sudoku/Sudoku.php:304-313 | on an ascending list, the result is that list without any forbidden value, still ascending |
| Sudoku.RemoveStep | src/Sudoku/Sudoku.php:307-311 | each round of the loop keeps the result equal to the list without the values removed so far |
| Sudoku.QuadrantValuesAll | src/Sudoku/Sudoku.php:284-297 | walking a box row by row visits exactly the values of the quadrant |
| Sudoku.QuadrantCellsAll | src/Sudoku/Sudoku.php:190-202 | walking a box row by row visits exactly the quadrant's squares holding v |
| Sudoku.CoverAll | src/Sudoku/Sudoku.php:159-172 | once every block has been visited, the list holds the quadrant of every square, and only quadrants inside the grid |
| Sudoku.AsWrittenMissesQuadrantRepeat | src/Sudoku/Sudoku.php:78-84 | for the 4×4 grid with 1 twice in the bottom-right quadrant, the as-written `isSolvable` condition holds although the grid has a conflict |
| Sudoku.IsBiggerThan4x4 | src/Sudoku/Sudoku.php:46-58 | at least four rows, then at least four entries in the first row |
| Sudoku.Sudoku.RowCount | src/Sudoku/Sudoku.php:60-63 | the number of rows |
| Sudoku.Sudoku.ValueForSquare | src/Sudoku/Sudoku.php:65-68 | the value stored at (row, col) |
| Sudoku.Sudoku.IsEmptySquare | src/Sudoku/Sudoku.php:70-73 | the square at (row, col) holds 0 |
| Sudoku.Sudoku.QuadrantForSquare | src/Sudoku/Solver.php:87-90 | the public name the Solver calls; the quadrant `getQuadrantFor` gives for (row, col) |
| Sudoku.Sudoku.IsSolved | test/SudokuShould.php:95-99 | no square of the grid is empty |
| Sudoku.Sudoku.IsValueValidForSquare | test/SudokuShould.php:47-52 | the value is not already in the square's row, column or quadrant |
| Sudoku.Sudoku.BuildPossibleValues | src/Sudoku/Sudoku.php:318-321 | `range(1, N)`, which Seqs.OneTo characterizes |
| Sudoku.Sudoku.Create | src/Sudoku/Sudoku.php:17-30 | the error is NotSquareMatrix when not square, else TooSmallMatrix when below 4×4, else a fresh grid holding the matrix |
| Sudoku.Sudoku.Clone | src/Sudoku/Solver.php:187-196 | a fresh grid with the same squares |
| Sudoku.Sudoku.SetValueForSquare | test/SudokuShould.php:47-89 | a filled square gives SquareAlreadyFilled and a forbidden value gives InvalidValueForSquare, both leaving the grid unchanged; otherwise exactly that square is written |
| Sudoku.Sudoku.GetValuesInQuadrant | src/Sudoku/Sudoku.php:284-297 | the returned values are exactly the non-zero values of the box |
| Sudoku.Sudoku.GetEmptySquares | src/Sudoku/Sudoku.php:230-243 | lists every empty square and only those, strictly in row-major order |
| Sudoku.Sudoku.HowManyOfValueAreInQuadrant | src/Sudoku/Sudoku.php:190-202 | the count is the number of squares of the box holding the value |
| Sudoku.Sudoku.HasRepeatedNumbersInQuadrant | src/Sudoku/Sudoku.php:174-188 | true iff a non-zero value of the box is held by two of its squares |
| Sudoku.Sudoku.HasRepeatedNumbersInRow | src/Sudoku/Sudoku.php:123-139 | true iff a non-zero value occurs twice in the row |
| Sudoku.Sudoku.HasRepeatedNumbersInColumn | src/Sudoku/Sudoku.php:141-157 | true iff a non-zero value occurs twice in the column |
| Sudoku.Sudoku.HasRepeatedNumbersPerRow | src/Sudoku/Sudoku.php:86-96 | true iff some row repeats a non-zero value |
| Sudoku.Sudoku.HasRepeatedNumbersPerColumn | src/Sudoku/Sudoku.php:99-109 | true iff some column repeats a non-zero value |
| Sudoku.Sudoku.BuildQuadrants | src/Sudoku/Sudoku.php:159-172 | corrected: every listed quadrant is a square's quadrant inside the grid, and every square's quadrant is listed |
| Sudoku.Sudoku.BuildQuadrantsAsWritten | src/Sudoku/Sudoku.php:159-172 | as written: N entries, all equal to the top-left quadrant |
| Sudoku.Sudoku.HasRepeatedNumbersPerQuadrant | src/Sudoku/Sudoku.php:111-121 | true iff some listed quadrant has a repeat |
| Sudoku.Sudoku.GetForbiddenValuesByRow | src/Sudoku/Sudoku.php:245-248 | the values returned are exactly the row's non-zero values |
| Sudoku.Sudoku.GetForbiddenValuesByColumn | src/Sudoku/Sudoku.php:250-253 | the values returned are exactly the column's non-zero values |
| Sudoku.Sudoku.GetForbiddenValuesByQuadrant | src/Sudoku/Sudoku.php:255-258 | the values returned are exactly the non-zero values of the square's quadrant |
| Sudoku.Sudoku.GetPossibleValuesForSquare | src/Sudoku/Sudoku.php:221-228 | the result is the ascending list of the square's candidates |
| Sudoku.Sudoku.IsSquareFillable | src/Sudoku/Sudoku.php:216-219 | true iff the square has a candidate |
| Sudoku.Sudoku.EmptySquaresAreFillable | src/Sudoku/Sudoku.php:204-214 | true iff every empty square has a candidate |
| Sudoku.Sudoku.IsSolvable | src/Sudoku/Sudoku.php:78-84 | corrected: true iff the grid has no conflict and every empty square has a candidate |
| Sudoku.Sudoku.IsSolvableAsWritten | src/Sudoku/Sudoku.php:78-84 | as written: true iff no row or column repeats, the top-left quadrant does not repeat, and every empty square has a candidate |
| Solver.NextMove | src/Sudoku/Solver.php:14-32 | the move `fillASquare` makes: the first naked single with its candidate, else the smallest candidate of the first empty square, else none |
| Solver.Run | src/Sudoku/Solver.php:187-196 | the grid `buildSolutionFor`'s loop ends with: moves applied until no square is empty, or none when a move is missing |
| Solver.NextMoveLegal | src/Sudoku/Solver.php:14-32 | every move writes a candidate (1..N, not forbidden) into an empty square |
| Solver.FirstOf | src/Sudoku/Solver.php:116-132 | a non-empty set of squares has a first square in row-major order |
| Solver.NextMoveTakesNakedSingle | src/Sudoku/Solver.php:17-24 | when some square is a naked single, the move fills the first naked single with its only candidate |
| Solver.NextMoveFallsBack | src/Sudoku/Solver.php:26-31 | with no naked single, the move writes the smallest candidate into the first empty square |
| Solver.NextMoveNone | src/Sudoku/Solver.php:14-32 | there is no move iff no square is a naked single and either no square is empty or the first empty square has no candidate |
| Solver.FirstEmptyUnique | src/Sudoku/Solver.php:116-132 | the first empty square is unique |
| Solver.FirstNakedSingleUnique | src/Sudoku/Solver.php:17-24 | the first naked single is unique |
| Solver.FillableHasMove | src/Sudoku/Solver.php:173-196 | on a fillable grid that is not solved there is always a move |
| Solver.RunSolves | src/Sudoku/Solver.php:187-196 | a completed run ends solved, keeps every given, and keeps a conflict-free grid conflict-free |
| Solver.GetValuesInRow | src/Sudoku/Solver.php:228-237 | the row's entries, left to right |
| Solver.GetValuesInColumn | src/Sudoku/Solver.php:244-253 | the column's entries, top to bottom |
| Solver.GetPossibleValuesForSquare | src/Sudoku/Solver.php:140-147 | the result is the ascending list of the square's candidates |
| Solver.EmptySquaresAreFillable | src/Sudoku/Solver.php:202-212 | true iff every empty square has a candidate |
| Solver.IsSolvable | src/Sudoku/Solver.php:164-167 | true iff every empty square has a candidate |
| Solver.FillASquare | src/Sudoku/Solver.php:14-32 | fills iff there is a move, and then writes exactly that move; otherwise the grid is unchanged |
| Solver.BuildSolutionFor | src/Sudoku/Solver.php:187-196 | None iff the run is cut short; otherwise a fresh, solved grid that extends the puzzle and is conflict-free when the puzzle was |
| Solver.GetSolutionFor | src/Sudoku/Solver.php:173-181 | Unsolvable (null) iff some empty square has no candidate; otherwise the run's solved grid, or Stuck where the source raises a TypeError |
| Solution.Solution.constructor | src/Sudoku/Solution.php:9-12 | no square is set |
| Solution.Solution.SetValueForSquare | src/Sudoku/Solution.php:33-38 | defines (row, col) as the value, creating the row if needed; every other square is unchanged |
| Solution.Solution.RowCount | src/Sudoku/Solution.php:82-85 | the number of rows defined so far |
| Solution.Solution.DimensionMatches | src/Sudoku/Solution.php:77-80 | true when the puzzle's row count differs from the Solution's, despite the name |
| Solution.Solution.ValueMatches | src/Sudoku/Solution.php:93-96 | square (i, j) is defined and equal to the puzzle's value there |
| Solution.Solution.IsComplete | src/Sudoku/Solution.php:40-52 | true iff no defined square holds 0 |
| Solution.Solution.Matches | src/Sudoku/Solution.php:54-71 | true iff the row counts agree and every given of the puzzle is defined with the same value |
| Solution.Solution.IsValueRepeatedByRow | src/Sudoku/Solution.php:127-130 | true iff two different squares of the row hold the value |
| Solution.Solution.IsValueRepeatedByColumn | src/Sudoku/Solution.php:132-135 | true iff two different squares of the column hold the value |
| Solution.Solution.IsValueRepeatedByQuadrant | src/Sudoku/Solution.php:137-151 | true iff more than one square of the box holds the value |
| Solution.Solution.CountInBox | src/Sudoku/Solution.php:141-149 | the count is the number of defined squares of the box holding the value |
| Solution.Solution.IsValid | src/Sudoku/Solution.php:98-125 | Ok(true) iff complete and every square passes the three repeat checks; Ok(false) only when incomplete or when the first square of the row-major walk that fails is defined; Err(p) exactly when the walk first reaches an undefined square p, where the source raises a TypeError |
| Solution.Solution.IsSolutionFor | src/Sudoku/Solution.php:18-31 | Ok(true) iff it matches the puzzle and is valid; Ok(false) only on a mismatch, an incomplete answer or a defined first failing square; Err(p) exactly when it matches and the walk first reaches an undefined square p, which the puzzle leaves empty |
| Solution.RowRepeatMeaning | src/Sudoku/Solution.php:127-130 | the row filter counts more than one iff two different columns of the row hold the value |
| Solution.ColumnRepeatMeaning | src/Sudoku/Solution.php:132-135 | the column filter counts more than one iff two different rows hold the value in that column |
| Solution.FirstFailureStops | src/Sudoku/Solution.php:105-124 | the walk of `isValid` stops at one square: when some square fails first, no square is the first undefined one |
| Solution.WriteStep | test/SolutionShould.php:135-139 | one `setValueForSquare` of the next square in row-major order extends the written part of the grid by that square |
| Solution.BuildMatchingSolution | test/SolutionShould.php:131-142 | test helper, not code under src/: `new Solution()` followed by a `setValueForSquare` per square, row by row, ends holding exactly the grid's squares and values |
| Solution.ValidIffNoConflict | src/Sudoku/Solution.php:98-125 | for a Solution holding exactly a solved grid (as BuildMatchingSolution leaves it), it is complete, and every square passes the checks iff the grid has no conflict |
| Solution.CleanIffNoClash | src/Sudoku/Solution.php:109-121 | one square passes the three checks iff it clashes with no square |
| Solution.RowClash | src/Sudoku/Solution.php:127-130 | the row count exceeds one iff the square clashes with a square of its row |
| Solution.ColumnClash | src/Sudoku/Solution.php:132-135 | the column count exceeds one iff the square clashes with a square of its column |
| Solution.BoxClash | src/Sudoku/Solution.php:137-151 | the box count exceeds one iff the square clashes with a square of its quadrant |
| Solution.SolvedGridIsSolution | src/Sudoku/Solution.php:18-31 | a Solution holding exactly a grid the Solver completed from a conflict-free puzzle (as BuildMatchingSolution leaves it) matches the puzzle and is valid |

## Left out

- The command-line script `solve_sudoku.php` is not part of this model. It reads a file, prints, and handles exceptions.
- PHP exceptions are modelled as values. The constructor returns `Result`. `setValueForSquare` returns `Outcome`. `Stuck` models the TypeError that Solver.php raises under its `strict_types=1`. `Err` models the TypeError of `Solution::isValid` when it passes the null of an undefined square to an `int` parameter; PHP raises that one in coercive mode too, and Solution.php has no `strict_types`.
- `sqrt` is floating point in the source. The model uses the integer square root. Where a proof needs the quadrant bounds inside the grid, the model assumes N is a perfect square. That covers the box walks of the Grid and the Solver, and the in-grid clause of Grid.QuadrantFor. Grid.QuadrantFor itself, Sudoku.Sudoku.QuadrantForSquare and Sudoku.Sudoku.SetValueForSquare accept any valid N. Other sizes pass the constructor, but in the source their quadrants depend on float rounding. Even for a perfect square, `(int)floor(..) * sqrt(..)` is a float, so the quadrant bounds are floats. `src/Sudoku/Sudoku.php` has no `strict_types` and coerces them to `int`, which the model follows. `src/Sudoku/Solver.php` declares `strict_types=1`. There, a `getQuadrantForSquare` shaped like `getQuadrantFor` would pass float bounds to `isEmptySquare(int, int)` and raise a TypeError. The model does not capture that TypeError.
- Solution.Solution.IsValueRepeatedByQuadrant: uses the integer square root of the row count, in place of the float `sqrt` of the source. The two differ only when the row count is not a perfect square.
- Sudoku.Sudoku.GetValuesInQuadrant: states the set of returned values, not their order or multiplicity. The only caller turns them into forbidden values, and there only the set matters.
- Sudoku.Sudoku.GetForbiddenValuesByRow: states the set of the row's values, not their order. `array_unique` is left out for the same reason.
- Sudoku.Sudoku.GetForbiddenValuesByColumn: states the set of the column's values, not their order; only the set feeds the candidate filter.
- Sudoku.Sudoku.GetForbiddenValuesByQuadrant: states the set of the quadrant's values, not their order; only the set feeds the candidate filter.
- `setValueForSquare`, `isSolved` and `getQuadrantForSquare` are called by the Solver and the tests. They are not defined in `src/Sudoku/Sudoku.php`. The model defines them as the tests in `test/SudokuShould.php` use them. PHP's `clone` copies the matrix by value, and Sudoku.Sudoku.Clone models that copy.
- `isValueRepeatedByColumn` in `src/Sudoku/Solver.php` is never called, so it is left out.
- The Solver repeats several Grid helpers (`getValuesInQuadrant`, `removeForbiddenValues`, the three `getForbiddenValuesBy…`, `getEmptySquares`, `buildPossibleValues`). Apart from the strict-typing TypeError noted above, they compute the same as the Grid's, so the model calls the Grid's. The Solver's `isSquareFillable` is inlined into its `EmptySquaresAreFillable`.
- Solution.Solution.IsComplete: walks the rows and squares in an arbitrary order. PHP walks arrays in insertion order. The result does not depend on the order.
- Solution.Solution.Matches: reading an undefined square raises a PHP warning and yields null, which does not match. The model leaves out the warning and keeps the mismatch.
- Solution.Solution.IsValid: requires a perfect-square row count only for a complete Solution. Only a complete Solution reaches the quadrant walk, whose result for other counts depends on float `sqrt` and float array keys. An incomplete Solution of any size is handled, and returns false.
- Solution.Solution.IsSolutionFor: requires a perfect-square row count only when the row count equals the puzzle's and the Solution is complete. That is the only case that reaches the quadrant walk; a dimension mismatch or an incomplete Solution of any size is handled.
- Integers are unbounded. The source's values are small grid indices and digits, so PHP's int width never matters.

## Findings

`buildQuadrants` (src/Sudoku/Sudoku.php:159-172) loops over the block indices i, j < q = √N. It passes them to `getQuadrantFor` as square coordinates. Every such square lies in the top-left quadrant, so `hasRepeatedNumbersPerQuadrant` only ever checks that one quadrant, N times. `isSolvable` then accepts grids with a repeat in any other quadrant.

| source | as written | input that shows it | evidently intended | confidence | as-written member | corrected member |
|---|---|---|---|---|---|---|
| src/Sudoku/Sudoku.php:159-172 | `getQuadrantFor($i, $j)` with block indices i, j < √N, so every entry is the top-left quadrant | the 4×4 grid of zeros with 1 at (2, 2) and at (3, 3): `isSolvable` returns true although the bottom-right quadrant holds 1 twice | `getQuadrantFor($i * √N, $j * √N)`, one entry per quadrant | not executed | Sudoku.AsWrittenMissesQuadrantRepeat (with Sudoku.Sudoku.BuildQuadrantsAsWritten and Sudoku.Sudoku.IsSolvableAsWritten) | Sudoku.Sudoku.BuildQuadrants and Sudoku.Sudoku.IsSolvable |

Two further points where the code, not its names, decides the model:

- `dimensionMatches` (src/Sudoku/Solution.php:77-80) returns true when the row counts differ. `matches` relies on this inverted meaning and returns false in that case. The model keeps the inverted name. Solution.Solution.Matches states the resulting behaviour, which is correct.
- The constructor (src/Sudoku/Sudoku.php:17-30) checks squareness before size. A non-square small matrix is therefore reported as not square.
