/**
 * The puzzles of the repository's test suites, and what the model says
 * the solver object answers for each of them. Each puzzle is written as
 * its nine rows of nine characters joined into the 81-character string
 * the tests send; its board is written out beside it.
 */
module Fixtures {
  import opened Board
  import opened Validation
  import opened Constraints
  import opened Solver
  import opened SudokuSolver

  /** The nine row strings of a puzzle joined into one string. */
  function Join(rows: seq<string>): string {
    if |rows| == 0 then [] else rows[0] + Join(rows[1..])
  }

  /** Joining rows of nine characters gives nine characters per row. */
  lemma {:induction false} JoinLength(rows: seq<string>)
    requires forall j :: 0 <= j < |rows| ==> |rows[j]| == 9
    ensures |Join(rows)| == 9 * |rows|
  {
    if |rows| > 0 {
      JoinLength(rows[1..]);
    }
  }

  /** Character 9 * k + c of the joined string is character c of row k. */
  lemma {:induction false} JoinIndex(rows: seq<string>, k: int, c: int)
    requires forall j :: 0 <= j < |rows| ==> |rows[j]| == 9
    requires 0 <= k < |rows| && 0 <= c < 9
    ensures |Join(rows)| == 9 * |rows| && Join(rows)[9 * k + c] == rows[k][c]
  {
    if k == 0 {
      JoinLength(rows[1..]);
    } else {
      JoinIndex(rows[1..], k - 1, c);
    }
  }

  /** Nine rows of puzzle characters join into a valid puzzle string whose board holds their cells. */
  lemma DecodeByRows(rows: seq<string>, g: Grid)
    requires |rows| == 9 && Is9x9(g)
    requires forall k :: 0 <= k < 9 ==> |rows[k]| == 9
    requires forall k, c :: 0 <= k < 9 && 0 <= c < 9 ==> IsPuzzleChar(rows[k][c]) && CellValue(rows[k][c]) == g[k][c]
    ensures IsPuzzleText(Join(rows)) && Decode(Join(rows)) == g
  {
    var s := Join(rows);
    JoinLength(rows);
    forall i | 0 <= i < 81
      ensures IsPuzzleChar(s[i])
    {
      JoinIndex(rows, i / 9, i % 9);
    }
    forall k | 0 <= k < 9
      ensures Decode(s)[k] == g[k]
    {
      forall c | 0 <= c < 9
        ensures Decode(s)[k][c] == g[k][c]
      {
        JoinIndex(rows, k, c);
      }
    }
  }

  const ValidRows: seq<string> := [
    "1.5..2.84",
    "..63.12.7",
    ".2..5....",
    ".9..1....",
    "8.2.3674.",
    "3.7.2..9.",
    "47...8..1",
    "..16....9",
    "26914.37."]

  const ValidGrid: Grid := [
    [1, 0, 5, 0, 0, 2, 0, 8, 4],
    [0, 0, 6, 3, 0, 1, 2, 0, 7],
    [0, 2, 0, 0, 5, 0, 0, 0, 0],
    [0, 9, 0, 0, 1, 0, 0, 0, 0],
    [8, 0, 2, 0, 3, 6, 7, 4, 0],
    [3, 0, 7, 0, 2, 0, 0, 9, 0],
    [4, 7, 0, 0, 0, 8, 0, 0, 1],
    [0, 0, 1, 6, 0, 0, 0, 0, 9],
    [2, 6, 9, 1, 4, 0, 3, 7, 0]]

  /** The board the tests expect for the valid puzzle, as its nine rows and as a board. */
  const SolutionRows: seq<string> := [
    "135762984",
    "946381257",
    "728459613",
    "694517832",
    "812936745",
    "357824196",
    "473298561",
    "581673429",
    "269145378"]

  const SolutionGrid: Grid := [
    [1, 3, 5, 7, 6, 2, 9, 8, 4],
    [9, 4, 6, 3, 8, 1, 2, 5, 7],
    [7, 2, 8, 4, 5, 9, 6, 1, 3],
    [6, 9, 4, 5, 1, 7, 8, 3, 2],
    [8, 1, 2, 9, 3, 6, 7, 4, 5],
    [3, 5, 7, 8, 2, 4, 1, 9, 6],
    [4, 7, 3, 2, 9, 8, 5, 6, 1],
    [5, 8, 1, 6, 7, 3, 4, 2, 9],
    [2, 6, 9, 1, 4, 5, 3, 7, 8]]

  const UnsolvableRows: seq<string> := [
    "1.5..2.84",
    "..63.12.7",
    ".2..5....",
    ".9..1....",
    "8.2.3674.",
    "3.7.2..9.",
    "47...8..1",
    "..16....9",
    "26914.35."]

  const UnsolvableGrid: Grid := [
    [1, 0, 5, 0, 0, 2, 0, 8, 4],
    [0, 0, 6, 3, 0, 1, 2, 0, 7],
    [0, 2, 0, 0, 5, 0, 0, 0, 0],
    [0, 9, 0, 0, 1, 0, 0, 0, 0],
    [8, 0, 2, 0, 3, 6, 7, 4, 0],
    [3, 0, 7, 0, 2, 0, 0, 9, 0],
    [4, 7, 0, 0, 0, 8, 0, 0, 1],
    [0, 0, 1, 6, 0, 0, 0, 0, 9],
    [2, 6, 9, 1, 4, 0, 3, 5, 0]]

  const InvalidCharRows: seq<string> := [
    "1.5..2.84",
    "..63.12.7",
    ".2..5....",
    ".9..1....",
    "8.2.3674.",
    "3.7.2..9.",
    "47...8..1",
    "..16....9",
    "26914.3b."]

  const InvalidLengthPuzzle: string := "1.5..2.84..63.12.7.2..5.....9..1."

  /** The solvable puzzle of both suites passes validation and decodes to its board. */
  lemma ValidPuzzleBoard()
    ensures IsPuzzleText(Join(ValidRows)) && Decode(Join(ValidRows)) == ValidGrid
  {
    DecodeByRows(ValidRows, ValidGrid);
  }

  /** The unsolvable puzzle passes validation and decodes to its board. */
  lemma UnsolvablePuzzleBoard()
    ensures IsPuzzleText(Join(UnsolvableRows)) && Decode(Join(UnsolvableRows)) == UnsolvableGrid
  {
    DecodeByRows(UnsolvableRows, UnsolvableGrid);
  }

  /** The valid puzzle passes validation. */
  lemma ValidPuzzleAccepted()
    ensures Validate(Join(ValidRows)) == Pass
  {
    ValidPuzzleBoard();
  }

  /** The puzzle with a 'b' in it gets the character error. */
  lemma InvalidCharRejected()
    ensures Validate(Join(InvalidCharRows)) == Fail(CharacterError)
  {
    JoinLength(InvalidCharRows);
    JoinIndex(InvalidCharRows, 8, 7);
  }

  /** The 33-character puzzle gets the length error. */
  lemma InvalidLengthRejected()
    ensures Validate(InvalidLengthPuzzle) == Fail(LengthError)
  {
  }

  /** The row and column scans on the board of the valid puzzle. */
  lemma LineScanFixtures()
    ensures !RowHas(ValidGrid, 1, 4) && RowHas(ValidGrid, 1, 2)
    ensures !ColHas(ValidGrid, 1, 4) && ColHas(ValidGrid, 1, 2)
  {
    assert ValidGrid[1][6] == 2;
    assert ValidGrid[2][1] == 2;
  }

  /** The region scan on the board of the valid puzzle: 4 fits at (1, 1), 5 does not. */
  lemma RegionScanFixtures()
    ensures Placeable(ValidGrid, 1, 1, 4) && !Placeable(ValidGrid, 1, 1, 5)
  {
    PlaceableMeaning(ValidGrid, 1, 1, 4);
    assert BoxCell(ValidGrid, 1, 1, 2) == 5;
  }

  /**
   * Cell (1, 7) of the unsolvable board is empty and every digit already
   * stands in a cell sharing its row, column or region, so the search
   * fails on it. (The givens themselves do not clash.)
   */
  lemma UnsolvableGridFails()
    ensures Search(UnsolvableGrid).None?
  {
    var g := UnsolvableGrid;
    var witnessRow := [1, 1, 1, 0, 8, 1, 1, 0, 5];
    var witnessCol := [5, 6, 3, 8, 7, 2, 8, 7, 7];
    forall d | 1 <= d <= 9
      ensures !Placeable(g, 1, 7, d)
    {
      PlaceableMeaning(g, 1, 7, d);
      var r, c := witnessRow[d - 1], witnessCol[d - 1];
      assert (r == 1 || c == 7 || SameBox(r, c, 1, 7)) && g[r][c] == d;
    }
    BlockedCellFails(g, 1, 7);
  }

  /** `solveSudoku` answers the unsolvable puzzle with the error object. */
  lemma UnsolvableFixture()
    ensures SolveOutcome(Join(UnsolvableRows)) == SolveError(UnsolvableError)
  {
    UnsolvablePuzzleBoard();
    UnsolvableGridFails();
  }

  /**
   * Step k of the check of cell (r, c): the k-th cell of its row, of its
   * column and of its region, unless it is (r, c) itself, holds another
   * number than (r, c).
   */
  predicate DiffersAt(h: Grid, r: int, c: int, k: int)
    requires Is9x9(h) && 0 <= r < 9 && 0 <= c < 9 && 0 <= k < 9
  {
    var br, bc := r / 3 * 3 + k / 3, c / 3 * 3 + k % 3;
    (k == c || h[r][k] != h[r][c]) &&
    (k == r || h[k][c] != h[r][c]) &&
    ((br == r && bc == c) || h[br][bc] != h[r][c])
  }

  /** Cell (r, c) of h holds a digit that keeps g's given and that no peer of the cell holds. */
  predicate SolvesCell(h: Grid, g: Grid, r: int, c: int)
    requires Is9x9(h) && Is9x9(g) && 0 <= r < 9 && 0 <= c < 9
  {
    1 <= h[r][c] <= 9 && (g[r][c] == 0 || h[r][c] == g[r][c]) &&
    DiffersAt(h, r, c, 0) && DiffersAt(h, r, c, 1) && DiffersAt(h, r, c, 2) &&
    DiffersAt(h, r, c, 3) && DiffersAt(h, r, c, 4) && DiffersAt(h, r, c, 5) &&
    DiffersAt(h, r, c, 6) && DiffersAt(h, r, c, 7) && DiffersAt(h, r, c, 8)
  }

  /** Every cell of row r passes the check. */
  predicate SolvesRow(h: Grid, g: Grid, r: int)
    requires Is9x9(h) && Is9x9(g) && 0 <= r < 9
  {
    SolvesCell(h, g, r, 0) && SolvesCell(h, g, r, 1) && SolvesCell(h, g, r, 2) &&
    SolvesCell(h, g, r, 3) && SolvesCell(h, g, r, 4) && SolvesCell(h, g, r, 5) &&
    SolvesCell(h, g, r, 6) && SolvesCell(h, g, r, 7) && SolvesCell(h, g, r, 8)
  }

  /** Each step of the check of a cell that passes it holds. */
  lemma CellDiffers(h: Grid, g: Grid, r: int, c: int, k: int)
    requires Is9x9(h) && Is9x9(g) && 0 <= r < 9 && 0 <= c < 9 && 0 <= k < 9 && SolvesCell(h, g, r, c)
    ensures DiffersAt(h, r, c, k)
  {
  }

  /** The step of the region scan of (r1, c1) that visits (r2, c2) in the same region. */
  lemma BoxStep(r1: int, c1: int, r2: int, c2: int) returns (k: int)
    requires 0 <= r1 < 9 && 0 <= c1 < 9 && 0 <= r2 < 9 && 0 <= c2 < 9 && SameBox(r1, c1, r2, c2)
    ensures 0 <= k < 9 && r1 / 3 * 3 + k / 3 == r2 && c1 / 3 * 3 + k % 3 == c2
  {
    k := r2 % 3 * 3 + c2 % 3;
    assert k / 3 == r2 % 3 && k % 3 == c2 % 3;
  }

  /** Two peers of a board whose cells all pass the check hold different numbers. */
  lemma PeersDiffer(h: Grid, g: Grid, r1: int, c1: int, r2: int, c2: int)
    requires Is9x9(h) && Is9x9(g) && 0 <= r1 < 9 && 0 <= c1 < 9 && 0 <= r2 < 9 && 0 <= c2 < 9
    requires Peers(r1, c1, r2, c2) && SolvesCell(h, g, r1, c1)
    ensures h[r1][c1] != h[r2][c2]
  {
    if r1 == r2 {
      CellDiffers(h, g, r1, c1, c2);
    } else if c1 == c2 {
      CellDiffers(h, g, r1, c1, r2);
    } else {
      var k := BoxStep(r1, c1, r2, c2);
      CellDiffers(h, g, r1, c1, k);
    }
  }

  /** A board each of whose cells passes the check is a solution of g. */
  lemma CompletionByCells(h: Grid, g: Grid)
    requires Is9x9(h) && IsGrid(g)
    requires forall r, c :: 0 <= r < 9 && 0 <= c < 9 ==> SolvesCell(h, g, r, c)
    ensures IsCompletion(h, g)
  {
    forall r, c | 0 <= r < 9 && 0 <= c < 9
      ensures 1 <= h[r][c] <= 9 && (g[r][c] != 0 ==> h[r][c] == g[r][c])
    {
      assert SolvesCell(h, g, r, c);
    }
    forall r1, c1, r2, c2 | 0 <= r1 < 9 && 0 <= c1 < 9 && 0 <= r2 < 9 && 0 <= c2 < 9 && Peers(r1, c1, r2, c2)
      ensures h[r1][c1] != h[r2][c2]
    {
      PeersDiffer(h, g, r1, c1, r2, c2);
    }
  }

  /** The givens of a board that has a solution do not clash. */
  lemma CompletionGivensLegal(h: Grid, g: Grid)
    requires IsGrid(g) && IsCompletion(h, g)
    ensures Legal(g)
  {
  }

  /** A row that passes the check has every cell passing it. */
  lemma RowCells(h: Grid, g: Grid, r: int)
    requires Is9x9(h) && Is9x9(g) && 0 <= r < 9 && SolvesRow(h, g, r)
    ensures forall c :: 0 <= c < 9 ==> SolvesCell(h, g, r, c)
  {
  }

  /** The cells of the expected board, one by one. */
  lemma SolutionValues()
    ensures SolutionGrid[0][0] == 1
    ensures SolutionGrid[0][1] == 3
    ensures SolutionGrid[0][2] == 5
    ensures SolutionGrid[0][3] == 7
    ensures SolutionGrid[0][4] == 6
    ensures SolutionGrid[0][5] == 2
    ensures SolutionGrid[0][6] == 9
    ensures SolutionGrid[0][7] == 8
    ensures SolutionGrid[0][8] == 4
    ensures SolutionGrid[1][0] == 9
    ensures SolutionGrid[1][1] == 4
    ensures SolutionGrid[1][2] == 6
    ensures SolutionGrid[1][3] == 3
    ensures SolutionGrid[1][4] == 8
    ensures SolutionGrid[1][5] == 1
    ensures SolutionGrid[1][6] == 2
    ensures SolutionGrid[1][7] == 5
    ensures SolutionGrid[1][8] == 7
    ensures SolutionGrid[2][0] == 7
    ensures SolutionGrid[2][1] == 2
    ensures SolutionGrid[2][2] == 8
    ensures SolutionGrid[2][3] == 4
    ensures SolutionGrid[2][4] == 5
    ensures SolutionGrid[2][5] == 9
    ensures SolutionGrid[2][6] == 6
    ensures SolutionGrid[2][7] == 1
    ensures SolutionGrid[2][8] == 3
    ensures SolutionGrid[3][0] == 6
    ensures SolutionGrid[3][1] == 9
    ensures SolutionGrid[3][2] == 4
    ensures SolutionGrid[3][3] == 5
    ensures SolutionGrid[3][4] == 1
    ensures SolutionGrid[3][5] == 7
    ensures SolutionGrid[3][6] == 8
    ensures SolutionGrid[3][7] == 3
    ensures SolutionGrid[3][8] == 2
    ensures SolutionGrid[4][0] == 8
    ensures SolutionGrid[4][1] == 1
    ensures SolutionGrid[4][2] == 2
    ensures SolutionGrid[4][3] == 9
    ensures SolutionGrid[4][4] == 3
    ensures SolutionGrid[4][5] == 6
    ensures SolutionGrid[4][6] == 7
    ensures SolutionGrid[4][7] == 4
    ensures SolutionGrid[4][8] == 5
    ensures SolutionGrid[5][0] == 3
    ensures SolutionGrid[5][1] == 5
    ensures SolutionGrid[5][2] == 7
    ensures SolutionGrid[5][3] == 8
    ensures SolutionGrid[5][4] == 2
    ensures SolutionGrid[5][5] == 4
    ensures SolutionGrid[5][6] == 1
    ensures SolutionGrid[5][7] == 9
    ensures SolutionGrid[5][8] == 6
    ensures SolutionGrid[6][0] == 4
    ensures SolutionGrid[6][1] == 7
    ensures SolutionGrid[6][2] == 3
    ensures SolutionGrid[6][3] == 2
    ensures SolutionGrid[6][4] == 9
    ensures SolutionGrid[6][5] == 8
    ensures SolutionGrid[6][6] == 5
    ensures SolutionGrid[6][7] == 6
    ensures SolutionGrid[6][8] == 1
    ensures SolutionGrid[7][0] == 5
    ensures SolutionGrid[7][1] == 8
    ensures SolutionGrid[7][2] == 1
    ensures SolutionGrid[7][3] == 6
    ensures SolutionGrid[7][4] == 7
    ensures SolutionGrid[7][5] == 3
    ensures SolutionGrid[7][6] == 4
    ensures SolutionGrid[7][7] == 2
    ensures SolutionGrid[7][8] == 9
    ensures SolutionGrid[8][0] == 2
    ensures SolutionGrid[8][1] == 6
    ensures SolutionGrid[8][2] == 9
    ensures SolutionGrid[8][3] == 1
    ensures SolutionGrid[8][4] == 4
    ensures SolutionGrid[8][5] == 5
    ensures SolutionGrid[8][6] == 3
    ensures SolutionGrid[8][7] == 7
    ensures SolutionGrid[8][8] == 8
  {
  }

  /** Row 0 of the expected board passes the check. */
  lemma SolutionRow0()
    ensures forall c :: 0 <= c < 9 ==> SolvesCell(SolutionGrid, ValidGrid, 0, c)
  {
    SolutionValues();
    RowCells(SolutionGrid, ValidGrid, 0);
  }

  /** Row 1 of the expected board passes the check. */
  lemma SolutionRow1()
    ensures forall c :: 0 <= c < 9 ==> SolvesCell(SolutionGrid, ValidGrid, 1, c)
  {
    SolutionValues();
    RowCells(SolutionGrid, ValidGrid, 1);
  }

  /** Row 2 of the expected board passes the check. */
  lemma SolutionRow2()
    ensures forall c :: 0 <= c < 9 ==> SolvesCell(SolutionGrid, ValidGrid, 2, c)
  {
    SolutionValues();
    RowCells(SolutionGrid, ValidGrid, 2);
  }

  /** Row 3 of the expected board passes the check. */
  lemma SolutionRow3()
    ensures forall c :: 0 <= c < 9 ==> SolvesCell(SolutionGrid, ValidGrid, 3, c)
  {
    SolutionValues();
    RowCells(SolutionGrid, ValidGrid, 3);
  }

  /** Row 4 of the expected board passes the check. */
  lemma SolutionRow4()
    ensures forall c :: 0 <= c < 9 ==> SolvesCell(SolutionGrid, ValidGrid, 4, c)
  {
    SolutionValues();
    RowCells(SolutionGrid, ValidGrid, 4);
  }

  /** Row 5 of the expected board passes the check. */
  lemma SolutionRow5()
    ensures forall c :: 0 <= c < 9 ==> SolvesCell(SolutionGrid, ValidGrid, 5, c)
  {
    SolutionValues();
    RowCells(SolutionGrid, ValidGrid, 5);
  }

  /** Row 6 of the expected board passes the check. */
  lemma SolutionRow6()
    ensures forall c :: 0 <= c < 9 ==> SolvesCell(SolutionGrid, ValidGrid, 6, c)
  {
    SolutionValues();
    RowCells(SolutionGrid, ValidGrid, 6);
  }

  /** Row 7 of the expected board passes the check. */
  lemma SolutionRow7()
    ensures forall c :: 0 <= c < 9 ==> SolvesCell(SolutionGrid, ValidGrid, 7, c)
  {
    SolutionValues();
    RowCells(SolutionGrid, ValidGrid, 7);
  }

  /** Row 8 of the expected board passes the check. */
  lemma SolutionRow8()
    ensures forall c :: 0 <= c < 9 ==> SolvesCell(SolutionGrid, ValidGrid, 8, c)
  {
    SolutionValues();
    RowCells(SolutionGrid, ValidGrid, 8);
  }

  /** The expected board of the solvable puzzle passes the check at every cell. */
  lemma SolutionCells()
    ensures Is9x9(SolutionGrid) && forall r, c :: 0 <= r < 9 && 0 <= c < 9 ==> SolvesCell(SolutionGrid, ValidGrid, r, c)
  {
    SolutionRow0();
    SolutionRow1();
    SolutionRow2();
    SolutionRow3();
    SolutionRow4();
    SolutionRow5();
    SolutionRow6();
    SolutionRow7();
    SolutionRow8();
  }

  /**
   * `solveSudoku` solves the puzzle of U_10 and of functional test 1.
   * The expected board of the tests is a solution of the puzzle, so the
   * givens do not clash; the search succeeds, its board is a solution,
   * and it comes no later in row-major order than the expected board.
   */
  lemma SolvableFixture()
    ensures IsPuzzleText(Join(SolutionRows)) && Decode(Join(SolutionRows)) == SolutionGrid
    ensures IsPuzzleText(Join(ValidRows)) && Decode(Join(ValidRows)) == ValidGrid
    ensures IsCompletion(SolutionGrid, ValidGrid) && Legal(ValidGrid)
    ensures Search(ValidGrid).Some? && SolveOutcome(Join(ValidRows)) == Solution(Encode(Search(ValidGrid).value))
    ensures IsCompletion(Search(ValidGrid).value, ValidGrid) && LexLeq(Search(ValidGrid).value, SolutionGrid)
  {
    DecodeByRows(SolutionRows, SolutionGrid);
    ValidPuzzleBoard();
    SolutionCells();
    CompletionByCells(SolutionGrid, ValidGrid);
    CompletionGivensLegal(SolutionGrid, ValidGrid);
    SearchComplete(ValidGrid, SolutionGrid);
    SearchCorrect(ValidGrid);
  }

  /** Coordinate A2 with value 3 fits: 3 is in neither row A, column 2 nor the top-left region. */
  lemma PlacementA2Three(puzzle: string)
    requires IsPuzzleText(puzzle) && Decode(puzzle) == ValidGrid
    ensures Placement(puzzle, "A2", "3") == ValidPlacement
  {
    PlaceableMeaning(ValidGrid, 0, 1, 3);
  }

  /** A2 with 7: column 2 holds a 7, so the code reports the column and, through its region scan, the region. */
  lemma PlacementA2Seven(puzzle: string)
    requires IsPuzzleText(puzzle) && Decode(puzzle) == ValidGrid
    ensures Placement(puzzle, "A2", "7") == InvalidPlacement(["column", "region"])
  {
    assert ValidGrid[6][1] == 7;
  }

  /** A5 with 4: row A and column 5 hold a 4, and the region scan reports them again. */
  lemma PlacementA5Four(puzzle: string)
    requires IsPuzzleText(puzzle) && Decode(puzzle) == ValidGrid
    ensures Placement(puzzle, "A5", "4") == InvalidPlacement(["row", "column", "region"])
  {
    assert ValidGrid[0][8] == 4 && ValidGrid[8][4] == 4;
  }

  /** F4 with 3: row F, column 4 and the centre-left region all hold a 3. */
  lemma PlacementF4Three(puzzle: string)
    requires IsPuzzleText(puzzle) && Decode(puzzle) == ValidGrid
    ensures Placement(puzzle, "F4", "3") == InvalidPlacement(["row", "column", "region"])
  {
    assert ValidGrid[5][0] == 3 && ValidGrid[1][3] == 3;
  }

  /** On any valid puzzle, coordinate R0 is rejected whatever the value, and value "0" on A1. */
  lemma PlacementInputErrors(puzzle: string)
    requires IsPuzzleText(puzzle)
    ensures Placement(puzzle, "R0", "9") == CheckError(CoordinateError)
    ensures Placement(puzzle, "A1", "0") == CheckError(ValueError)
  {
  }

  /** The answers to the placement checks of the functional suite, as the code gives them. */
  lemma PlacementFixtures()
    ensures Placement(Join(ValidRows), "A2", "3") == ValidPlacement
    ensures Placement(Join(ValidRows), "A2", "7") == InvalidPlacement(["column", "region"])
    ensures Placement(Join(ValidRows), "A5", "4") == InvalidPlacement(["row", "column", "region"])
    ensures Placement(Join(ValidRows), "F4", "3") == InvalidPlacement(["row", "column", "region"])
    ensures Placement(Join(ValidRows), "R0", "9") == CheckError(CoordinateError)
    ensures Placement(Join(ValidRows), "A1", "0") == CheckError(ValueError)
    ensures Placement(Join(InvalidCharRows), "A2", "7") == CheckError(CharacterError)
    ensures Placement(InvalidLengthPuzzle, "A2", "7") == CheckError(LengthError)
  {
    ValidPuzzleBoard();
    PlacementA2Three(Join(ValidRows));
    PlacementA2Seven(Join(ValidRows));
    PlacementA5Four(Join(ValidRows));
    PlacementF4Three(Join(ValidRows));
    PlacementInputErrors(Join(ValidRows));
    InvalidCharRejected();
    InvalidLengthRejected();
  }

  /** `solveSudoku` answers the invalid-character and the short puzzle with their validation errors. */
  lemma SolveInputErrors()
    ensures SolveOutcome(Join(InvalidCharRows)) == SolveError(CharacterError)
    ensures SolveOutcome(InvalidLengthPuzzle) == SolveError(LengthError)
  {
    InvalidCharRejected();
    InvalidLengthRejected();
  }
}
