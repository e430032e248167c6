# Sudoku solver: a verified model

This project models the `SudokuSolver` class of a small Sudoku web
service (`controllers/sudoku-solver.js`). The class has two entry points:

- `solveSudoku` validates an 81-character puzzle string, builds a 9x9
  board and fills it by backtracking, in place. It returns the filled
  board joined into a string of digits, or an error object.
- `checkPlacement` validates a puzzle string, a coordinate such as `A2`
  and a value such as `7`. It then reports in which of the cell's row,
  column and region the value already occurs.

The model is split into modules that follow the class:

- `Board` (Board.dfy): the board value, the decoding of a puzzle string
  (`stringToSudokuBoard`), and the joining of a finished board back into
  a string.
- `Validation` (Validation.dfy): the three input checks, with their error
  messages, and the conversion of a coordinate into a row and a column.
- `Constraints` (Constraints.dfy): the scans over a row, a column and a
  region (`isValid`, `checkRowPlacement`, `checkColPlacement`,
  `checkRegionPlacement`), each as a method over the board object. Each
  method is proved equal to a predicate on the board's value.
- `Solver` (Solver.dfy): the backtracking search.
  - `Search` and `TryFrom` state on board values what the search
    computes.
  - `Solve`, `TryDigits` and `Attempt` carry out the search in place on
    an `array2<int>`, with its loops, its writes and its undo. They are
    proved to leave exactly the board `Search` returns.
  - The lemmas prove the search sound, complete, and first in row-major
    digit order among all solutions.
- `SudokuSolver` (SudokuSolver.dfy): the two entry points.
  - `SolveOutcome` and `Placement` state their results on values.
  - `SolveSudoku` and `CheckPlacement` are the methods the source runs;
    each is proved to return the value its function states.
  - The lemmas say what the results mean.
- `Fixtures` (Fixtures.dfy): the puzzles of the two test suites, and what
  the model answers for them.

Behaviour of the code that the model keeps as written:

- The region scan `checkRegionPlacement` is a copy of `isValid`, so it
  also scans the cell's row and column. Every conflict list therefore
  contains `"region"` whenever it contains `"row"` or `"column"`
  (`SudokuSolver.ConflictMeaning`).
- There is no exception for the queried cell itself. A value that
  already stands in that cell conflicts on all three counts
  (`SudokuSolver.SelfConflict`).
- `solve` never checks that the givens are consistent. A full board is
  returned unchanged even if its digits clash
  (`SudokuSolver.FilledPuzzleUnchanged`). Solutions are first and
  complete only for legal givens; the digits the solver writes are legal
  in every case (`SudokuSolver.SolutionMeaning`).

Where the tests and the code disagree, the model follows the code:

- `tests/2_functional-tests.js:94` expects the conflict `["column"]` for
  A2 and 7. The code answers `["column", "region"]`
  (`Fixtures.PlacementA2Seven`).
- `tests/2_functional-tests.js:107` expects `["row", "column"]` for A5 and
  4. The code answers `["row", "column", "region"]`
  (`Fixtures.PlacementA5Four`).

Both differences come from the region scan above.

## Model

| member | source | states |
|---|---|---|
| Board.CellValue | controllers/sudoku-solver.js:18-22 | a puzzle character becomes a value 0..9, and 0 exactly for the placeholder '.' |
| Board.DecodeRow | controllers/sudoku-solver.js:17-26 | row r has nine cells; cell c is empty exactly when character 9*r + c is '.', and otherwise holds the digit 1..9 that prints as that character |
| Board.DigitChar | controllers/sudoku-solver.js:73 | joining a cell value 0..9 produces one decimal digit character |
| Board.Decode | controllers/sudoku-solver.js:14-29 | the board of a validated string has nine rows of nine cells, each 0..9 |
| Board.Set | controllers/sudoku-solver.js:37 | writing a digit into one cell keeps a well-formed board |
| Board.DecodeLayout | controllers/sudoku-solver.js:14-29 | cell (r, c) is empty exactly when character 9*r + c is '.', and otherwise holds the digit that character names |
| Board.Encode | controllers/sudoku-solver.js:73 | the joined board is 81 decimal digits, and a full board joins into digits 1..9 only; EncodeDecode and DecodeEncode make it the inverse of decoding |
| Board.EncodeDecode | controllers/sudoku-solver.js:73 | joining the board of a string without placeholders gives back that string |
| Board.DecodeEncode | controllers/sudoku-solver.js:73 | the joined string of a full board is 81 digits, and decoding it gives back the board |
| Board.ExtendsFill | controllers/sudoku-solver.js:37-38 | a board that keeps the givens after a write keeps the earlier givens and holds the written digit |
| Board.StringToSudokuBoard | controllers/sudoku-solver.js:14-29 | the one-character-at-a-time loop builds a fresh 9x9 board object whose cells are the decoding of the string |
| Validation.MatchesPuzzleClass | controllers/sudoku-solver.js:3-7 | the regular expression accepts exactly the strings whose every character is a digit 1..9 or '.' |
| Validation.Validate | controllers/sudoku-solver.js:2-11 | passes exactly the 81-character strings of puzzle characters; a wrong length gets the length error whatever the characters, and a bad character at the right length gets the character error |
| Validation.ValidateCoordinate | controllers/sudoku-solver.js:84-90 | the only failure is the coordinate error |
| Validation.ValidateValue | controllers/sudoku-solver.js:92-98 | the only failure is the value error |
| Validation.ToUpper | controllers/sudoku-solver.js:146 | a lower-case letter becomes the upper-case letter at the same place in the alphabet, an upper-case letter stays, and the result is an upper-case letter exactly when the input is a letter |
| Validation.CoordinateRow | controllers/sudoku-solver.js:146 | a row letter of either case gives a row in 0..8: its place in the alphabet counted from A or from a |
| Validation.CoordinateColumn | controllers/sudoku-solver.js:147 | a column digit 1..9 gives a column in 0..8 that prints back, plus one, as that digit |
| Validation.ValueNumber | controllers/sudoku-solver.js:148 | a value digit 1..9 gives a number 1..9 that prints back as that digit |
| Validation.AcceptedCoordinate | controllers/sudoku-solver.js:139-147 | an accepted coordinate gives a row and a column in 0..8 and is the upper- or lower-case name of exactly that cell |
| Validation.CellNameAccepted | controllers/sudoku-solver.js:84-90 | both spellings of every cell's name are accepted and map back to that cell |
| Validation.AcceptedValue | controllers/sudoku-solver.js:92-98 | the accepted values are exactly the strings "1".."9"; "0" and "10" are rejected |
| Constraints.BoxIndex | controllers/sudoku-solver.js:57-58 | the region arithmetic of the scan always stays on the board |
| Constraints.HitFromMeaning | controllers/sudoku-solver.js:53-63 | the scan from step i meets the number exactly when some step from i on does |
| Constraints.PlaceableScans | controllers/sudoku-solver.js:52-65 | the combined row/column/region scan finds the number exactly when the row, the column or the scanned region holds it |
| Constraints.BoxScanCoversRegion | controllers/sudoku-solver.js:57-58 | the nine steps of the region arithmetic visit exactly the cells of the 3x3 region of (row, col) |
| Constraints.PlaceableMeaning | controllers/sudoku-solver.js:52-65 | the test passes exactly when no cell sharing the row, the column or the region holds the number, the queried cell included |
| Constraints.IsValid | controllers/sudoku-solver.js:52-65 | the early-exit loop answers true exactly when the number is placeable on the board's value |
| Constraints.CheckRowPlacement | controllers/sudoku-solver.js:100-107 | true exactly when no cell of the row holds the number |
| Constraints.CheckColPlacement | controllers/sudoku-solver.js:109-116 | true exactly when no cell of the column holds the number |
| Constraints.CheckRegionPlacement | controllers/sudoku-solver.js:118-131 | the same answer as the placement test of the search, so false also when only the row or the column holds the number |
| Solver.ZerosFill | controllers/sudoku-solver.js:37 | filling one empty cell of a row removes exactly one empty cell of that row |
| Solver.EmptyCountRow | controllers/sudoku-solver.js:37 | replacing a row changes the board's empty-cell count by the difference of the two rows' counts |
| Solver.FillDecreases | controllers/sudoku-solver.js:37-38 | writing a digit into an empty cell leaves one empty cell fewer, so the recursion ends |
| Solver.FirstZero | controllers/sudoku-solver.js:33-34 | the column scan stops at an empty cell or runs off the row |
| Solver.FirstZeroRow | controllers/sudoku-solver.js:32-34 | the row scan stops at a row that has an empty cell or runs off the board |
| Solver.FirstZeroFirst | controllers/sudoku-solver.js:33-34 | no cell before the first empty cell of a row is empty |
| Solver.FirstZeroRowFirst | controllers/sudoku-solver.js:32-34 | every row before the first row with an empty cell is full |
| Solver.FirstEmpty | controllers/sudoku-solver.js:32-34 | the cell the nested scan reports is on the board and empty |
| Solver.FirstEmptyOrder | controllers/sudoku-solver.js:32-49 | every cell before the reported one is filled, and no cell is reported exactly when the board is full |
| Solver.Search | controllers/sudoku-solver.js:31-50 | the search of the source stated on board values, which the in-place Solve is proved to equal; a board it returns is well-formed, and what it means is stated by SearchShape, SearchSound, SearchComplete and SearchFirst |
| Solver.TryFrom | controllers/sudoku-solver.js:35-45 | the digit loop of the source stated on board values, which TryDigits is proved to equal; a board it returns is well-formed, and what it means is stated by the TryFrom lemmas |
| Solver.SearchShape | controllers/sudoku-solver.js:31-50 | a board the search returns is full and keeps every given |
| Solver.TryFromShape | controllers/sudoku-solver.js:35-45 | a board the digit loop from num returns is full, keeps every given, and holds a digit of at least num at the cell |
| Solver.ShapeTaken | controllers/sudoku-solver.js:36-39 | the board kept after writing num is full, keeps every given and holds num at the cell |
| Solver.WritesKeepLegal | controllers/sudoku-solver.js:31-50 | a full board that keeps legal givens and writes only legal digits is legal |
| Solver.CompletionPlaceable | controllers/sudoku-solver.js:36 | the digit a solution holds at an empty cell passes the placement test there |
| Solver.CompletionOfFill | controllers/sudoku-solver.js:37 | a solution is still a solution after the cell is filled with its own digit |
| Solver.SearchSound | controllers/sudoku-solver.js:31-50 | every digit the search writes differs from every cell sharing its row, column or region in the result |
| Solver.TryFromSound | controllers/sudoku-solver.js:35-45 | every board the digit loop returns writes only legal digits |
| Solver.SoundTaken | controllers/sudoku-solver.js:36-39 | the board kept after a placeable digit writes only legal digits |
| Solver.FillWritesLegal | controllers/sudoku-solver.js:36-38 | a placeable digit, written and then completed legally, keeps all the writes legal |
| Solver.SearchComplete | controllers/sudoku-solver.js:31-50 | when the givens have any solution, the search succeeds |
| Solver.TryFromComplete | controllers/sudoku-solver.js:35-45 | the digit loop succeeds while it has not passed the digit some solution holds at the cell |
| Solver.CompleteAt | controllers/sudoku-solver.js:36-39 | trying the digit a solution holds succeeds |
| Solver.CompletePast | controllers/sudoku-solver.js:35-44 | a smaller digit either succeeds or hands over to the next digit |
| Solver.SearchFirst | controllers/sudoku-solver.js:31-50 | the board the search returns comes no later than any solution in row-major digit order |
| Solver.TryFromFirst | controllers/sudoku-solver.js:35-45 | the digit loop from num returns a board no later than any solution holding at least num at the cell |
| Solver.SkippedFirst | controllers/sudoku-solver.js:35-44 | passing over a digit keeps the result no later than any solution |
| Solver.TakenFirst | controllers/sudoku-solver.js:36-39 | the board kept for the first successful digit comes no later than any solution |
| Solver.FailedDigitMissing | controllers/sudoku-solver.js:36-42 | a digit that fails the test or whose recursive solve fails is not the digit any solution holds there |
| Solver.EarlierFirstEmpty | controllers/sudoku-solver.js:32-35 | with only givens before the cell, the board with the smaller digit at the cell comes first |
| Solver.SearchCorrect | controllers/sudoku-solver.js:31-50 | on legal givens, the search fails only when no solution exists; when it succeeds it returns a solution that comes no later than any other |
| Solver.Solve | controllers/sudoku-solver.js:31-50 | the in-place solve answers true exactly when the search succeeds; the board then holds the search's board, and on failure it is as on entry |
| Solver.TryDigits | controllers/sudoku-solver.js:35-45 | the loop over the digits 1..9 succeeds exactly when the digit loop does, holds its board on success, and restores the board on failure |
| Solver.Attempt | controllers/sudoku-solver.js:36-43 | one digit succeeds exactly when it is placeable and the recursive solve succeeds; otherwise the write is undone |
| Solver.HoldsCells | controllers/sudoku-solver.js:36 | a board object holding g cell by cell has exactly g as its value |
| Solver.TakeStep | controllers/sudoku-solver.js:36-39 | a placeable digit whose recursive solve succeeds gives the result |
| Solver.SkipStep | controllers/sudoku-solver.js:40-44 | any other digit hands over to the next one |
| Solver.SetUndo | controllers/sudoku-solver.js:41 | resetting the cell just written to 0 restores the board |
| Solver.FirstEmptyAt | controllers/sudoku-solver.js:32-34 | the first cell the loops find empty is the scan's first empty cell |
| Solver.SameCellsEqual | controllers/sudoku-solver.js:31-50 | boards that agree on every cell are equal |
| SudokuSolver.SolveOutcome | controllers/sudoku-solver.js:67-77 | a wrong length gives the length error, a bad character the character error, and a solution comes only from a valid puzzle string |
| SudokuSolver.SolveSudoku | controllers/sudoku-solver.js:67-77 | validate, build, solve in place and join: exactly the outcome stated on values |
| SudokuSolver.SolutionMeaning | controllers/sudoku-solver.js:71-73 | a solution string is 81 digits that keep every given and write only legal digits; on legal givens it is a full legal board that comes no later than any solution |
| SudokuSolver.UnsolvableMeaning | controllers/sudoku-solver.js:72-76 | the unsolvable error comes only from a valid puzzle the search cannot fill; on legal givens that means no solution exists; and any puzzle with a solution is solved |
| SudokuSolver.WrittenPlaceable | controllers/sudoku-solver.js:36-37 | every digit the search writes into an empty cell passes the placement test on the puzzle |
| SudokuSolver.BlockedCellFails | controllers/sudoku-solver.js:35-45 | an empty cell where every digit fails the placement test makes the search fail |
| SudokuSolver.FilledPuzzleUnchanged | controllers/sudoku-solver.js:49 | a puzzle without placeholders is returned unchanged, whether or not its digits clash |
| SudokuSolver.ConflictList | controllers/sudoku-solver.js:150-159 | the conflict list has at most three entries, each "row", "column" or "region", and is empty exactly when the placement test passes; ConflictMeaning states its exact contents |
| SudokuSolver.Placement | controllers/sudoku-solver.js:134-164 | the result is an error exactly when the puzzle, the coordinate or the value fails its validation, and an invalid placement always names at least one conflict; PlacementErrorOrder and PlacementMeaning state which error and which conflicts |
| SudokuSolver.CheckPlacement | controllers/sudoku-solver.js:134-164 | the three validations in order, then the three scans appending "row", "column" and "region": exactly the stated placement result |
| SudokuSolver.PlacementErrorOrder | controllers/sudoku-solver.js:136-144 | the puzzle errors come first whatever the coordinate and value, then the coordinate error, then the value error; "0" is always rejected |
| SudokuSolver.ConflictMeaning | controllers/sudoku-solver.js:150-159 | the list is one of five, in source order; "row" and "column" appear exactly when the row or the column holds the number, "region" exactly when the row, the column or the region does; the list is empty exactly when no such cell holds it |
| SudokuSolver.SelfConflict | controllers/sudoku-solver.js:100-131 | the number already at the cell conflicts in the row, the column and the region |
| SudokuSolver.PlacementMeaning | controllers/sudoku-solver.js:134-164 | for valid inputs the answer is valid exactly when no cell sharing the named cell's row, column or region holds the value; an invalid answer is one of the four lists in source order, always names the region, and names the row or the column exactly when they hold the value |
| Fixtures.JoinLength | tests/1_unit-tests.js:7 | nine-character rows join into nine characters per row |
| Fixtures.JoinIndex | tests/1_unit-tests.js:7 | character 9*k + c of the joined string is character c of row k |
| Fixtures.DecodeByRows | tests/1_unit-tests.js:7 | rows of puzzle characters join into a valid puzzle string whose board holds their cells |
| Fixtures.ValidPuzzleBoard | tests/1_unit-tests.js:7 | the solvable puzzle is valid and decodes to the board written beside it |
| Fixtures.UnsolvablePuzzleBoard | tests/1_unit-tests.js:9 | the unsolvable puzzle is valid and decodes to the board written beside it |
| Fixtures.ValidPuzzleAccepted | tests/1_unit-tests.js:15-21 | the solvable puzzle passes validation |
| Fixtures.InvalidCharRejected | tests/1_unit-tests.js:22-28 | the puzzle with a 'b' gets the character error |
| Fixtures.InvalidLengthRejected | tests/1_unit-tests.js:29-35 | the 33-character puzzle gets the length error |
| Fixtures.LineScanFixtures | tests/1_unit-tests.js:37-66 | on the solvable puzzle's board, row 1 and column 1 have no 4 but do have a 2 |
| Fixtures.RegionScanFixtures | tests/1_unit-tests.js:68-81 | on the solvable puzzle's board, 4 passes the region scan at (1, 1) and 5 does not |
| Fixtures.UnsolvableGridFails | tests/1_unit-tests.js:90-96 | the search fails on the unsolvable board, because cell (1, 7) has no candidate |
| Fixtures.UnsolvableFixture | tests/1_unit-tests.js:90-96 | solving the unsolvable puzzle gives the error "Puzzle cannot be solved" |
| Fixtures.SolutionCells | tests/1_unit-tests.js:8 | every cell of the expected solution board holds a digit that keeps the puzzle's given and differs from every other cell of its row, column and region |
| Fixtures.CompletionByCells | tests/1_unit-tests.js:8 | a board each of whose cells passes that check is a solution of the puzzle |
| Fixtures.SolvableFixture | tests/1_unit-tests.js:84-89 | the expected string of U_10 and functional test 1 decodes to a solution of the valid puzzle, so its givens do not clash; solving the puzzle succeeds, and the board it returns is a solution that comes no later in row-major order than the expected one |
| Fixtures.PlacementA2Three | tests/2_functional-tests.js:80-91 | A2 with 3 on the solvable puzzle is a valid placement |
| Fixtures.PlacementA2Seven | tests/2_functional-tests.js:92-104 | A2 with 7 conflicts in the column and, as the code is written, in the region (the test expects the column only) |
| Fixtures.PlacementA5Four | tests/2_functional-tests.js:105-117 | A5 with 4 conflicts in the row, the column and, as the code is written, the region (the test expects row and column) |
| Fixtures.PlacementF4Three | tests/2_functional-tests.js:118-130 | F4 with 3 conflicts in the row, the column and the region |
| Fixtures.PlacementInputErrors | tests/2_functional-tests.js:174-199 | on a valid puzzle, coordinate R0 gives the coordinate error and value "0" the value error |
| Fixtures.SolveInputErrors | tests/2_functional-tests.js:42-65 | solving the invalid-character puzzle gives the character error, and solving the short puzzle the length error |
| Fixtures.PlacementFixtures | tests/2_functional-tests.js:80-199 | the answers to the placement checks of the functional suite, including the puzzle errors of the invalid-character and short puzzles |

## Left out

- `routes/api.js`, the HTTP layer, is not part of this model. This
  covers its required-field check (functional test 10,
  `tests/2_functional-tests.js:131-143`) and the wrapping of results
  into response bodies.
- The `console.log` call in `checkPlacement` (line 149) is output only
  and is not modelled.
- JavaScript coercions are left out; every input is modelled as a
  string:
  - a non-string value passed to the regular expressions (functional
    test 6 sends the number 3, which `test` turns into "3");
  - `parseInt` on anything but a digit;
  - `length` on an undefined puzzle.
- The board object is one `array2<int>`, not an array of row arrays. So
  the model does not capture the rows being separate objects that could
  alias.
- `board.flat().join("")` is modelled by its result, `Board.Encode`, and
  not as library calls.
- The running time of the backtracking search is not modelled.
- Fixtures.SolvableFixture: does not prove that the string returned
  for the valid puzzle equals the one `tests/1_unit-tests.js:84-103` and
  functional test 1 expect. That would mean evaluating the search over
  the puzzle's 43 empty cells inside the verifier, or proving that the
  puzzle has only one solution. The fixture proves instead that the
  expected board is a solution, that the puzzle is solved, and that the
  returned board is a solution coming no later in row-major order.
- Validation.Validate: counts the length of a puzzle string in
  characters (Unicode scalar values), whereas JavaScript's `length`
  counts UTF-16 code units. A string holding a character outside the
  Basic Multilingual Plane is therefore longer in the source than in the
  model. Such a string fails validation in both, but the two errors can
  swap:
  - with 81 characters in the model it gets the character error there
    and, being longer than 81 code units, the length error in the
    source;
  - with 80 characters in the model, one of them outside the plane, it
    gets the length error there and, being exactly 81 code units, the
    character error in the source.
- `solveSudoku` and `checkPlacement` call `validate` a second time to
  build the error they return; both calls give the same value, so the
  model calls it once.
