# Sudoku solver engine: a verified model

This project models the solving engine of the `Sudoku` class, `SudokuSolver/Sudoku.cs`, in Dafny and proves properties of the model. The engine has four parts:

- **Decoding.** `TransformStringToArray` turns the puzzle string into the 9×9 grid. Cell (row, col) takes the character at index `col + row * 9`. As in .NET, the string is a sequence of UTF-16 code units, and the model reads it the same way.
- **Empty-cell snapshot.** `FindEmptyCoordinates` lists the cells holding 0 in row-major order.
- **Elimination solver.** `SolveByElimination` sweeps the board and fills every empty cell whose row, column and block leave exactly one digit. The digit comes from the nested `FindOnlyPossibleNumber`. Sweeps repeat until one fills nothing.
- **Backtracking solver.** `SolveRecursively` and its nested `MakeAttempt` search the empty cells depth-first, trying digits 9 down to 1 in each. A digit is pruned when the cell's row, column or block already holds it. The search records a board whenever the last empty cell gets a digit, and it undoes every placement on the way back.

Modules:

- `Board` (`board.dfy`) holds the shared vocabulary:
  - the grid as `seq<seq<int>>`, with 0 for an empty cell;
  - `Excluded`, the row/column/block test both solvers perform;
  - the Sudoku rule `NoConflict`, and `Solves`;
  - `ValidCompletion`, which describes what the backtracking search accepts.
- `Decoding` (`decoding.dfy`) models `TransformStringToArray`.
- `EmptyCoordinates` (`empty_cells.dfy`) models `FindEmptyCoordinates`.
- `Elimination` (`elimination.dfy`) models `FindOnlyPossibleNumber` and `SolveByElimination`.
  - `OnlyCandidate` and `Eliminate` are pure specifications.
  - The methods `FindOnlyPossibleNumber`, `VisitCell`, `SweepRow`, `SweepBoard` and `SolveByElimination` follow the source's loops. Each is proved equal to the pure specification.
- `Backtracking` (`backtracking.dfy`) models `SolveRecursively` and `MakeAttempt`.
  - `Attempt` is one `MakeAttempt` call. `TryDigits` is the loop over 9..1.
  - `SolveRecursively` lists the recorded boards as values, in the order they are recorded.
  - The methods `MakeAttempt`, `TryDigitsOnBoard` and `SolveOnBoard` run the search on one shared `array2<int>`, as the source does. They prove that the board is restored on every return and that the recorded boards equal the functional model.
  - The shared `depth` counter of the source is the `depth` parameter. The source increments it before each recursive call and decrements it after, so at each call it equals the index of the cell being assigned.

The central results are:

- `FindOnlyPossibleNumber` returns d exactly when d is the sole open digit of the cell.
- Elimination:
  - only fills empty cells;
  - stops on a board where no empty cell has a sole candidate;
  - takes at most one sweep more than there are empty cells;
  - is idempotent;
  - keeps every solution of the puzzle, and keeps a conflict-free board conflict-free.
- The backtracking search records exactly the valid completions of the board. On a puzzle whose givens do not clash, those are exactly its solutions. They come in strictly descending order of their digits over the empty cells, so none is recorded twice.

## Model

| member | source | states |
|---|---|---|
| `Decoding.CellValue` | SudokuSolver/Sudoku.cs:23-28 | a code unit parses to its digit value when it is '0'..'9' (U+0030..U+0039); any other unit, including either half of a surrogate pair, leaves the cell at its initial 0 |
| `Decoding.Decode` | SudokuSolver/Sudoku.cs:18-33 | the result is a 9×9 grid with values 0..9; cell (row, col) holds the digit at code-unit index col + row * 9 when that unit is a digit, and 0 otherwise; needs at least 81 code units |
| `Decoding.SurrogatePairDecodes` | SudokuSolver/Sudoku.cs:20-28 | a character outside the Basic Multilingual Plane occupies two string positions; both halves leave their cells at 0, and the next position reads the following character |
| `Decoding.DecodeEncode` | SudokuSolver/Sudoku.cs:18-33 | decoding the row-major digit string of any grid gives that grid back |
| `Decoding.EncodeDecode` | SudokuSolver/Sudoku.cs:18-33 | on a string whose first 81 code units are digits, re-encoding the decoded grid gives those 81 characters back |
| `Decoding.DecodeIgnoresTail` | SudokuSolver/Sudoku.cs:20-23 | code units after index 80 never influence the grid |
| `EmptyCoordinates.EmptyFrom` | SudokuSolver/Sudoku.cs:38-44 | the scan from row-major position k lists only empty cells at positions k and later; `EmptyFromSpec` adds that they are strictly ascending and that none is missed |
| `EmptyCoordinates.EmptyCells` | SudokuSolver/Sudoku.cs:36-45 | the snapshot lists only empty cells, in strictly increasing row-major position (so each at most once), and misses no empty cell |
| `EmptyCoordinates.EmptyCellsUnique` | SudokuSolver/Sudoku.cs:36-45 | any list of empty cells in strictly increasing row-major order that misses none is the snapshot, so rebuilding it on an unchanged grid gives the same list |
| `EmptyCoordinates.FindEmptyCoordinates` | SudokuSolver/Sudoku.cs:36-45 | the nested row/column loops, starting from a cleared list and appending each cell holding 0, build exactly the snapshot |
| `EmptyCoordinates.FillingShrinks` | SudokuSolver/Sudoku.cs:51-64 | filling cells never adds empty cells, and a board that changed by filling has strictly fewer |
| `Elimination.FirstUnset` | SudokuSolver/Sudoku.cs:107-115 | the answer is 0 or one more than the position of an unset flag at or after the start position |
| `Elimination.FirstUnsetFinds` | SudokuSolver/Sudoku.cs:107-112 | when some flag at or after the start is unset, the scan answers a position no later than that flag |
| `Elimination.OnlyCandidate` | SudokuSolver/Sudoku.cs:99-115 | the answer is 0 or a digit 1..9; `OnlyCandidateIsSole` pins it to the sole open digit |
| `Elimination.OnlyCandidateIsSole` | SudokuSolver/Sudoku.cs:70-116 | the answer is nonzero exactly when the cell has a sole open digit, and is then that digit; it is 0 when all nine digits are excluded or two or more are open |
| `Elimination.MarkRow` | SudokuSolver/Sudoku.cs:73-78 | after the row scan, a flag is set exactly when it was set before or its digit occurs in the row |
| `Elimination.MarkColumn` | SudokuSolver/Sudoku.cs:80-85 | after the column scan, a flag is set exactly when it was set before or its digit occurs in the column |
| `Elimination.MarkBlock` | SudokuSolver/Sudoku.cs:87-97 | after the block scan, a flag is set exactly when it was set before or its digit occurs in the cell's 3×3 block |
| `Elimination.FindOnlyPossibleNumber` | SudokuSolver/Sudoku.cs:70-116 | marking, counting the marks and scanning for the first unmarked flag computes exactly the sole-candidate answer |
| `Elimination.SweepFrom` | SudokuSolver/Sudoku.cs:52-61 | a sweep from position k yields a 9×9 board of values 0..9; `SweepExtends`, `SweepKeepsNoConflict` and `SweepKeepsCompletions` state what it writes |
| `Elimination.SweepExtends` | SudokuSolver/Sudoku.cs:53-61 | a sweep writes only cells that were 0 and never changes a filled cell; it reports a fill exactly when the board changed |
| `Elimination.SweepKeepsNoConflict` | SudokuSolver/Sudoku.cs:53-61 | every digit a sweep writes is open in its row, column and block at that moment, so a conflict-free board stays conflict-free |
| `Elimination.IdleSweepIsStuck` | SudokuSolver/Sudoku.cs:51-64 | a sweep that fills nothing found no empty cell with a sole candidate |
| `Elimination.SweepIdleIffStuck` | SudokuSolver/Sudoku.cs:51-64 | a sweep fills nothing exactly when no empty cell has a sole candidate |
| `Elimination.Eliminate` | SudokuSolver/Sudoku.cs:48-64 | the do-while loop ends on a board that keeps every digit of the input and leaves no empty cell with a sole candidate, after between 1 and (number of empty cells + 1) sweeps |
| `Elimination.EliminateIdempotent` | SudokuSolver/Sudoku.cs:48-64 | running elimination on its own result changes nothing and takes a single sweep |
| `Elimination.ForcedDigitAgrees` | SudokuSolver/Sudoku.cs:55-58 | a digit forced into an empty cell is the digit every valid completion has there |
| `Elimination.SweepKeepsCompletions` | SudokuSolver/Sudoku.cs:53-61 | every valid completion of the board before a sweep is one of the board after it |
| `Elimination.EliminateKeepsCompletions` | SudokuSolver/Sudoku.cs:48-64 | every valid completion of the puzzle is a valid completion of the board elimination leaves |
| `Elimination.EliminateKeepsSolutions` | SudokuSolver/Sudoku.cs:48-64 | the puzzle and the board elimination leaves have exactly the same solutions |
| `Elimination.EliminateKeepsNoConflict` | SudokuSolver/Sudoku.cs:48-64 | elimination keeps a conflict-free board conflict-free |
| `Elimination.VisitCell` | SudokuSolver/Sudoku.cs:55-59 | the inner loop body skips a filled cell or one without a sole candidate, else writes the candidate and notes a fill, as one sweep step prescribes |
| `Elimination.SweepRow` | SudokuSolver/Sudoku.cs:54-60 | the loop over the columns of a row performs the row's nine sweep steps |
| `Elimination.SweepBoard` | SudokuSolver/Sudoku.cs:52-61 | one pass of the do-while body produces the sweep's board and fill flag |
| `Elimination.SolveByElimination` | SudokuSolver/Sudoku.cs:48-68 | the do-while loop returns the board and pass count of the elimination specification |
| `Board.PlaceKeepsNoConflict` | SudokuSolver/Sudoku.cs:58 | writing a digit that the row/column/block test admits into an empty cell keeps a conflict-free board conflict-free |
| `Board.CompletionDigitOpen` | SudokuSolver/Sudoku.cs:140-156 | the digit a valid completion puts in an empty cell passes the row/column/block test on the puzzle |
| `Board.ValidCompletionSolves` | SudokuSolver/Sudoku.cs:159-167 | every solution is a valid completion; when the givens do not clash, every valid completion is a solution |
| `Board.PlaceCompletions` | SudokuSolver/Sudoku.cs:159-160 | after placing an admitted digit, the valid completions are exactly the earlier ones that hold that digit there |
| `Board.FullCompletion` | SudokuSolver/Sudoku.cs:163-165 | a full board's only valid completion is the board itself |
| `Backtracking.SolveRecursively` | SudokuSolver/Sudoku.cs:119-132 | the search fails with an index error exactly when the board has no empty cell |
| `Backtracking.Attempt` | SudokuSolver/Sudoku.cs:135-181 | every board one MakeAttempt call records is a 9×9 board of values 0..9; `AttemptFinds` states which boards they are |
| `Backtracking.TryDigits` | SudokuSolver/Sudoku.cs:126-128 | every board the 9-down-to-1 loop records is a 9×9 board of values 0..9; `TryDigitsFinds` states which boards they are |
| `Backtracking.FrontierStep` | SudokuSolver/Sudoku.cs:159-171 | after a placement at depth d, the empty cells of the board are exactly the snapshot cells from d + 1 on |
| `Backtracking.AttemptFinds` | SudokuSolver/Sudoku.cs:135-181 | one MakeAttempt call records exactly the valid completions of the current board that hold num in the current cell |
| `Backtracking.TryDigitsFinds` | SudokuSolver/Sudoku.cs:170-173 | the loop from top down to 1 records exactly the valid completions whose digit in the current cell is at most top |
| `Backtracking.AttemptDescending` | SudokuSolver/Sudoku.cs:159-174 | the boards one attempt records come in strictly descending order of their digits from the current cell on |
| `Backtracking.TryDigitsDescending` | SudokuSolver/Sudoku.cs:170-173 | the boards the 9-down-to-1 loop records come in strictly descending order |
| `Backtracking.SolveRecursivelyFinds` | SudokuSolver/Sudoku.cs:119-132 | on a board with an empty cell, the recorded boards are exactly its valid completions; on a full board the search fails |
| `Backtracking.SolveRecursivelySolves` | SudokuSolver/Sudoku.cs:119-132 | on a puzzle whose givens do not clash and that has an empty cell, the recorded boards are exactly its solutions |
| `Backtracking.SolveRecursivelyOrdered` | SudokuSolver/Sudoku.cs:126-128 | the recorded boards are in strictly descending order of their digits over the snapshot, so no board is recorded twice |
| `Backtracking.InUnit` | SudokuSolver/Sudoku.cs:140-156 | the row-and-column loop followed by the block loop reports a hit exactly when num occurs in the row, the column or the block of the cell |
| `Backtracking.Write` | SudokuSolver/Sudoku.cs:159 | an array store sets one cell of the board and leaves the others unchanged |
| `Backtracking.SetUndo` | SudokuSolver/Sudoku.cs:179-180 | clearing a cell that was empty before the placement gives back the board as it was |
| `Backtracking.MakeAttempt` | SudokuSolver/Sudoku.cs:135-181 | on return the shared board is exactly as at entry, whether the digit was rejected or accepted; the copies taken when the last cell is filled are the boards of one attempt, and the list the source builds gets one entry per such board, each the shared board itself |
| `Backtracking.Place` | SudokuSolver/Sudoku.cs:159-180 | placing an admitted digit, recording or recursing, and clearing the cell again leaves the board as at entry and records the boards of the attempt |
| `Backtracking.Record` | SudokuSolver/Sudoku.cs:163-167 | the source adds the shared board itself to its list, while a copy would show exactly the board of that moment |
| `Backtracking.TryDigitsOnBoard` | SudokuSolver/Sudoku.cs:170-173 | the 9-down-to-1 loop on the shared board restores it and records the boards of the loop, with one list entry (the shared board) per recorded board |
| `Backtracking.SolveOnBoard` | SudokuSolver/Sudoku.cs:119-132 | the search on the shared board leaves it as it was and produces the outcome of the functional model; the list the source returns has one entry per recorded board, and every entry is the shared board, which by then holds the puzzle again |
| `Backtracking.AliasedSolutions` | SudokuSolver/Sudoku.cs:165 | the list as the source returns it, read as values, fails exactly on a full board and otherwise has one entry per recorded board |
| `Backtracking.AliasedEntriesUnsolved` | SudokuSolver/Sudoku.cs:163-167 | the list as built from references has one entry per recorded board, and none of the entries is a completion of the puzzle |
| `Backtracking.ClashingGivensRecorded` | SudokuSolver/Sudoku.cs:126-131 | when the givens already clash, every valid completion is still recorded, although none is a solution |
| `Backtracking.SolvedPuzzleFails` | SudokuSolver/Sudoku.cs:126-127 | a solved, conflict-free board is its own only solution, yet the search fails on it |
| `Backtracking.SolvePuzzle` | SudokuSolver/Sudoku.cs:119-132 | every board the corrected search lists solves the puzzle; `SolvePuzzleExact` adds that none is missed |
| `Backtracking.SolvePuzzleExact` | SudokuSolver/Sudoku.cs:119-132 | the corrected search lists exactly the solutions of the puzzle |
| `Backtracking.EliminationThenSearch` | SudokuSolver/Sudoku.cs:48-132 | the corrected search on the board elimination leaves lists exactly the solutions of the original puzzle; on a conflict-free puzzle, the source's search on that board does too whenever it is not full |

## Code and expected behaviour

In the points below the code does something other than what a reader would expect from a Sudoku solver. The model follows the code.

- **Non-digit characters.** A parser could be expected to reject a non-digit character. The code logs it and leaves the cell 0 (lines 23-28), and so does `Decode`.
- **Input length.** A puzzle string has 81 cells. The code reads the first 81 code units and ignores the rest (`DecodeIgnoresTail`). A shorter string fails at indexing, which the model states as the precondition `|s| >= 81`.
- **Givens that clash.** The comment at line 131 says the list "will be empty if it is unsolvable". A puzzle whose givens already clash is unsolvable. The pruning at lines 140-156 checks each candidate only against the board, never the givens against each other, so such a puzzle can still get boards recorded (see Findings).
- **A board with no empty cell.** The comment at line 125 says the search starts by trying digits in the first empty square. A board that is already solved has none, and line 127 fails with an index error instead of returning the board (see Findings).

## Left out

- `PrintGrid` and every console message, including the one logged for a non-digit character: presentation only.
- `tryCount`: a diagnostic counter that influences nothing.
- The `Sudoku` object itself: its `Grid` and `EmptyCoords` state are passed as values or parameters. `loopCount` is kept, as the second field of the elimination result.
- `SolveByElimination` on the array: it is modelled on grid values, because it only reads and writes single cells of the one board.
- `Backtracking.Attempt`, `Backtracking.TryDigits` and `Elimination.SweepFrom` carry only well-formedness contracts. Their meaning is stated by the lemmas about them (`AttemptFinds`, `TryDigitsFinds`, and `SweepExtends` with the other sweep lemmas).

## Findings

| source | as written | input that shows it | evidently intended | confidence | as-written member | corrected member |
|---|---|---|---|---|---|---|
| SudokuSolver/Sudoku.cs:165 | `solutions.Add(Grid)` stores the one shared board, and lines 179-180 later clear every placed digit again | a solved grid with cell (0,0) cleared: the list has one entry, and that entry shows 0 at (0,0) once the search returns | record a copy of the board at that moment | high, not executed | `Backtracking.SolveOnBoard` (its list entries) and `Backtracking.AliasedEntriesUnsolved` (about `Backtracking.AliasedSolutions`) | `Backtracking.SolveRecursivelyFinds` (about `Backtracking.SolveRecursively`, whose boards `MakeAttempt` records as copies) |
| SudokuSolver/Sudoku.cs:126-131 | the pruning test compares the candidate with the board only, so clashes among the givens go unnoticed and the list is not empty, although the comment at line 131 promises an empty list for an unsolvable puzzle | a solved grid S with cell (8,8) cleared and cell (0,1) overwritten by S[0][0]: the search records S with (0,1) changed, a board with the same digit twice in row 0 | no solutions when the givens clash | medium, not executed | `Backtracking.ClashingGivensRecorded` | `Backtracking.SolvePuzzleExact` (about `Backtracking.SolvePuzzle`) |
| SudokuSolver/Sudoku.cs:127 | `EmptyCoords[depth]` is read with an empty list when the board has no empty cell, which raises an index error | any solved grid | a solved, conflict-free board is returned as its own single solution | medium, not executed | `Backtracking.SolvedPuzzleFails` | `Backtracking.SolvePuzzleExact` (about `Backtracking.SolvePuzzle`) |
