/**
 * The two entry points of the solver object. `solveSudoku` validates a
 * puzzle string, builds its board, runs the backtracking search in place
 * and joins the finished board back into a string. `checkPlacement`
 * validates a puzzle string, a coordinate and a value, then reports in
 * which of the row, the column and the region of the cell the value
 * already occurs. `SolveOutcome` and `Placement` state on values what
 * the two entry points return; the methods are proved to return exactly
 * that, and the lemmas say what those values mean.
 */
module SudokuSolver {
  import opened Board
  import opened Validation
  import opened Constraints
  import opened Solver

  const UnsolvableError: string := "Puzzle cannot be solved"

  /** What `solveSudoku` returns: the solved puzzle string, or an object holding an error message. */
  datatype SolveResult = Solution(solution: string) | SolveError(error: string)

  /** What `checkPlacement` returns: `{ valid: true }`, `{ valid: false, conflict }`, or an error object. */
  datatype CheckResult = ValidPlacement | InvalidPlacement(conflict: seq<string>) | CheckError(error: string)

  /**
   * The result of `solveSudoku`: the validation error of a malformed
   * string, the joined board the search finds, or the error for a
   * puzzle the search cannot fill.
   */
  function SolveOutcome(puzzle: string): (r: SolveResult)
    ensures |puzzle| != 81 ==> r == SolveError(LengthError)
    ensures |puzzle| == 81 && (exists i :: 0 <= i < |puzzle| && !IsPuzzleChar(puzzle[i])) ==> r == SolveError(CharacterError)
    ensures r.Solution? ==> IsPuzzleText(puzzle)
  {
    if Validate(puzzle) != Pass then SolveError(Validate(puzzle).error)
    else
      var found := Search(Decode(puzzle));
      if found.Some? then Solution(Encode(found.value)) else SolveError(UnsolvableError)
  }

  /** `solveSudoku`: validate, build the board, solve it in place, and join it row-major. */
  method SolveSudoku(puzzle: string) returns (r: SolveResult)
    ensures r == SolveOutcome(puzzle)
  {
    var verdict := Validate(puzzle);
    if verdict != Pass {
      return SolveError(verdict.error);
    }
    var board := StringToSudokuBoard(puzzle);
    ghost var g := Cells(board);
    assert Holds(board, g);
    var solved := Solve(board, g);
    if solved {
      HoldsCells(board, Search(g).value);
      return Solution(Encode(Cells(board)));
    }
    return SolveError(UnsolvableError);
  }

  /**
   * A solution string: 81 digits that keep every given of the puzzle,
   * where every digit written into an empty cell differs from all
   * cells sharing its row, column or region. When the givens themselves
   * do not clash, the whole board is legal and no other solution comes
   * before it in row-major order.
   */
  lemma SolutionMeaning(puzzle: string)
    requires SolveOutcome(puzzle).Solution?
    ensures IsPuzzleText(puzzle) && IsDigitText(SolveOutcome(puzzle).solution)
    ensures forall i :: 0 <= i < 81 && puzzle[i] != '.' ==> SolveOutcome(puzzle).solution[i] == puzzle[i]
    ensures WritesLegal(Decode(SolveOutcome(puzzle).solution), Decode(puzzle))
    ensures Legal(Decode(puzzle)) ==> IsCompletion(Decode(SolveOutcome(puzzle).solution), Decode(puzzle))
    ensures Legal(Decode(puzzle)) ==> forall k :: IsCompletion(k, Decode(puzzle)) ==> LexLeq(Decode(SolveOutcome(puzzle).solution), k)
  {
    var g := Decode(puzzle);
    var h := Search(g).value;
    var s := SolveOutcome(puzzle).solution;
    SearchShape(g);
    SearchSound(g);
    DecodeEncode(h);
    forall i | 0 <= i < 81 && puzzle[i] != '.'
      ensures s[i] == puzzle[i]
    {
      var r, c := i / 9, i % 9;
      assert 9 * r + c == i;
      DecodeLayout(puzzle, r, c);
      DecodeLayout(s, r, c);
    }
    if Legal(g) {
      SearchCorrect(g);
    }
  }

  /**
   * The unsolvable error comes only from a well-formed puzzle the search
   * cannot fill; when the givens do not clash, that means the puzzle has
   * no solution at all. Conversely a well-formed puzzle with a solution
   * is always solved.
   */
  lemma UnsolvableMeaning(puzzle: string)
    ensures SolveOutcome(puzzle) == SolveError(UnsolvableError) ==> IsPuzzleText(puzzle) && Search(Decode(puzzle)).None?
    ensures SolveOutcome(puzzle) == SolveError(UnsolvableError) && Legal(Decode(puzzle)) ==>
      forall h :: !IsCompletion(h, Decode(puzzle))
    ensures IsPuzzleText(puzzle) && (exists h :: IsCompletion(h, Decode(puzzle))) ==> SolveOutcome(puzzle).Solution?
  {
    if IsPuzzleText(puzzle) {
      var g := Decode(puzzle);
      if exists h :: IsCompletion(h, g) {
        var h :| IsCompletion(h, g);
        SearchComplete(g, h);
      }
      if Search(g).None? && Legal(g) {
        SearchCorrect(g);
      }
    }
  }

  /** Every digit the search writes into an empty cell passes the placement test on the puzzle. */
  lemma WrittenPlaceable(g: Grid, row: int, col: int)
    requires IsGrid(g) && Search(g).Some? && 0 <= row < 9 && 0 <= col < 9 && g[row][col] == 0
    ensures 1 <= Search(g).value[row][col] <= 9
    ensures Placeable(g, row, col, Search(g).value[row][col])
  {
    var h := Search(g).value;
    SearchShape(g);
    SearchSound(g);
    var num := h[row][col];
    PlaceableMeaning(g, row, col, num);
    forall r, c | 0 <= r < 9 && 0 <= c < 9 && (r == row || c == col || SameBox(r, c, row, col))
      ensures g[r][c] != num
    {
      if (r, c) != (row, col) && g[r][c] != 0 {
        assert Peers(row, col, r, c) && h[r][c] == g[r][c];
      }
    }
  }

  /**
   * An empty cell at which every digit fails the placement test is
   * filled by no board the search could return, so the search fails.
   */
  lemma BlockedCellFails(g: Grid, row: int, col: int)
    requires IsGrid(g) && 0 <= row < 9 && 0 <= col < 9 && g[row][col] == 0
    requires forall d :: 1 <= d <= 9 ==> !Placeable(g, row, col, d)
    ensures Search(g).None?
  {
    if Search(g).Some? {
      WrittenPlaceable(g, row, col);
      assert false;
    }
  }

  /** A puzzle with no empty cell is returned unchanged, whether or not its digits clash. */
  lemma FilledPuzzleUnchanged(puzzle: string)
    requires IsDigitText(puzzle)
    ensures SolveOutcome(puzzle) == Solution(puzzle)
  {
    var g := Decode(puzzle);
    forall r, c | 0 <= r < 9 && 0 <= c < 9
      ensures g[r][c] != 0
    {
      DecodeLayout(puzzle, r, c);
    }
    FirstEmptyOrder(g);
    EncodeDecode(puzzle);
  }

  /**
   * The conflict list of a placement check on a value board: "row" when
   * the row scan finds the number, then "column" when the column scan
   * does, then "region" when the region scan does, which is the same
   * scan as the search's placement test. The list is empty exactly when
   * that test passes.
   */
  function ConflictList(g: Grid, row: int, col: int, num: int): (conflict: seq<string>)
    requires Is9x9(g) && 0 <= row < 9 && 0 <= col < 9
    ensures |conflict| <= 3
    ensures forall k :: 0 <= k < |conflict| ==> conflict[k] == "row" || conflict[k] == "column" || conflict[k] == "region"
    ensures |conflict| == 0 <==> Placeable(g, row, col, num)
  {
    PlaceableScans(g, row, col, num);
    (if RowHas(g, row, num) then ["row"] else []) +
    (if ColHas(g, col, num) then ["column"] else []) +
    (if !Placeable(g, row, col, num) then ["region"] else [])
  }

  /**
   * The result of `checkPlacement`: the first validation error among
   * puzzle, coordinate and value, otherwise the conflicts of the value
   * at the cell the coordinate names on the puzzle's board.
   */
  function Placement(puzzle: string, coord: string, value: string): (r: CheckResult)
    ensures r.CheckError? <==> !(IsPuzzleText(puzzle) && ValidateCoordinate(coord) == Pass && ValidateValue(value) == Pass)
    ensures r.InvalidPlacement? ==> |r.conflict| > 0
  {
    if Validate(puzzle) != Pass then CheckError(Validate(puzzle).error)
    else if ValidateCoordinate(coord) != Pass then CheckError(CoordinateError)
    else if ValidateValue(value) != Pass then CheckError(ValueError)
    else
      AcceptedCoordinate(coord);
      var conflict := ConflictList(Decode(puzzle), CoordinateRow(coord), CoordinateColumn(coord), ValueNumber(value));
      if |conflict| > 0 then InvalidPlacement(conflict) else ValidPlacement
  }

  /**
   * `checkPlacement`: the three validations in order, then the board,
   * the cell and the number, then the three scans, each adding its name
   * to the conflict list when it finds the number.
   */
  method CheckPlacement(puzzle: string, coord: string, value: string) returns (r: CheckResult)
    ensures r == Placement(puzzle, coord, value)
  {
    var verdict := Validate(puzzle);
    if verdict != Pass {
      return CheckError(verdict.error);
    }
    verdict := ValidateCoordinate(coord);
    if verdict != Pass {
      return CheckError(verdict.error);
    }
    verdict := ValidateValue(value);
    if verdict != Pass {
      return CheckError(verdict.error);
    }
    var board := StringToSudokuBoard(puzzle);
    AcceptedCoordinate(coord);
    var row := ToUpper(coord[0]) as int - 'A' as int;
    var col := coord[1] as int - '0' as int - 1;
    var num := value[0] as int - '0' as int;
    assert row == CoordinateRow(coord) && col == CoordinateColumn(coord) && num == ValueNumber(value);
    var conflict: seq<string> := [];
    var ok := CheckRowPlacement(board, row, num);
    if !ok {
      conflict := conflict + ["row"];
    }
    ok := CheckColPlacement(board, col, num);
    if !ok {
      conflict := conflict + ["column"];
    }
    ok := CheckRegionPlacement(board, row, col, num);
    if !ok {
      conflict := conflict + ["region"];
    }
    if |conflict| > 0 {
      return InvalidPlacement(conflict);
    }
    return ValidPlacement;
  }

  /**
   * The validations run in order and the first failure wins: a puzzle of
   * the wrong length or with a foreign character is reported whatever
   * the coordinate and the value, a bad coordinate whatever the value,
   * and the value "0" is rejected.
   */
  lemma PlacementErrorOrder(puzzle: string, coord: string, value: string)
    ensures |puzzle| != 81 ==> Placement(puzzle, coord, value) == CheckError(LengthError)
    ensures |puzzle| == 81 && (exists i :: 0 <= i < |puzzle| && !IsPuzzleChar(puzzle[i])) ==>
      Placement(puzzle, coord, value) == CheckError(CharacterError)
    ensures IsPuzzleText(puzzle) && !(|coord| == 2 && IsRowLetter(coord[0]) && IsNonZeroDigit(coord[1])) ==>
      Placement(puzzle, coord, value) == CheckError(CoordinateError)
    ensures IsPuzzleText(puzzle) && ValidateCoordinate(coord) == Pass && (forall n :: 1 <= n <= 9 ==> value != [DigitChar(n)]) ==>
      Placement(puzzle, coord, value) == CheckError(ValueError)
    ensures IsPuzzleText(puzzle) && ValidateCoordinate(coord) == Pass ==> Placement(puzzle, coord, "0") == CheckError(ValueError)
  {
    AcceptedValue(value);
    AcceptedValue("0");
  }

  /**
   * What the conflict list says: "row", "column" and "region" appear in
   * that order; "row" exactly when the cell's row holds the number,
   * "column" exactly when its column does, and "region" exactly when
   * its row, its column or its region does. So "region" comes with
   * every other conflict, and the list is empty exactly when no cell
   * sharing a row, a column or a region with the cell, nor the cell
   * itself, holds the number.
   */
  lemma ConflictMeaning(g: Grid, row: int, col: int, num: int)
    requires Is9x9(g) && 0 <= row < 9 && 0 <= col < 9
    ensures ConflictList(g, row, col, num) in
      [[], ["region"], ["row", "region"], ["column", "region"], ["row", "column", "region"]]
    ensures "row" in ConflictList(g, row, col, num) <==> exists c :: 0 <= c < 9 && g[row][c] == num
    ensures "column" in ConflictList(g, row, col, num) <==> exists r :: 0 <= r < 9 && g[r][col] == num
    ensures "region" in ConflictList(g, row, col, num) <==>
      exists r, c :: 0 <= r < 9 && 0 <= c < 9 && (r == row || c == col || SameBox(r, c, row, col)) && g[r][c] == num
    ensures |ConflictList(g, row, col, num)| == 0 <==>
      forall r, c :: 0 <= r < 9 && 0 <= c < 9 && (r == row || c == col || SameBox(r, c, row, col)) ==> g[r][c] != num
  {
    PlaceableMeaning(g, row, col, num);
    if RowHas(g, row, num) {
      var c :| 0 <= c < 9 && g[row][c] == num;
      assert 0 <= row < 9 && 0 <= c < 9 && (row == row || c == col || SameBox(row, c, row, col)) && g[row][c] == num;
    }
    if ColHas(g, col, num) {
      var r :| 0 <= r < 9 && g[r][col] == num;
      assert 0 <= r < 9 && 0 <= col < 9 && (r == row || col == col || SameBox(r, col, row, col)) && g[r][col] == num;
    }
    var list := ConflictList(g, row, col, num);
    if !Placeable(g, row, col, num) {
      if RowHas(g, row, num) && ColHas(g, col, num) {
        assert list == ["row", "column", "region"];
      } else if RowHas(g, row, num) {
        assert list == ["row", "region"];
      } else if ColHas(g, col, num) {
        assert list == ["column", "region"];
      } else {
        assert list == ["region"];
      }
    } else {
      assert list == [];
    }
  }

  /** There is no exception for the cell itself: a number already at the cell conflicts on all three counts. */
  lemma SelfConflict(g: Grid, row: int, col: int)
    requires IsGrid(g) && 0 <= row < 9 && 0 <= col < 9
    ensures ConflictList(g, row, col, g[row][col]) == ["row", "column", "region"]
  {
    ConflictMeaning(g, row, col, g[row][col]);
    assert SameBox(row, col, row, col);
  }

  /**
   * For valid inputs, the answer is valid exactly when no cell sharing
   * the row, the column or the region of the named cell (the cell
   * included) holds the value on the puzzle's board; otherwise the
   * conflict list always contains "region".
   */
  lemma PlacementMeaning(puzzle: string, coord: string, value: string)
    requires IsPuzzleText(puzzle) && ValidateCoordinate(coord) == Pass && ValidateValue(value) == Pass
    ensures 0 <= CoordinateRow(coord) < 9 && 0 <= CoordinateColumn(coord) < 9
    ensures Placement(puzzle, coord, value).ValidPlacement? || Placement(puzzle, coord, value).InvalidPlacement?
    ensures Placement(puzzle, coord, value).InvalidPlacement? ==>
      Placement(puzzle, coord, value).conflict in [["region"], ["row", "region"], ["column", "region"], ["row", "column", "region"]]
    ensures Placement(puzzle, coord, value).ValidPlacement? <==>
      forall r, c ::
        (0 <= r < 9 && 0 <= c < 9 &&
         (r == CoordinateRow(coord) || c == CoordinateColumn(coord) || SameBox(r, c, CoordinateRow(coord), CoordinateColumn(coord)))) ==>
        Decode(puzzle)[r][c] != ValueNumber(value)
    ensures Placement(puzzle, coord, value).InvalidPlacement? ==>
      "region" in Placement(puzzle, coord, value).conflict &&
      ("row" in Placement(puzzle, coord, value).conflict <==>
        exists c :: 0 <= c < 9 && Decode(puzzle)[CoordinateRow(coord)][c] == ValueNumber(value)) &&
      ("column" in Placement(puzzle, coord, value).conflict <==>
        exists r :: 0 <= r < 9 && Decode(puzzle)[r][CoordinateColumn(coord)] == ValueNumber(value))
  {
    AcceptedCoordinate(coord);
    ConflictMeaning(Decode(puzzle), CoordinateRow(coord), CoordinateColumn(coord), ValueNumber(value));
  }
}
