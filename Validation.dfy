/**
 * Syntactic checks on the three inputs, run before any board is built:
 * the puzzle string, the coordinate and the value of a placement check.
 * Each check passes or fails with one fixed error message. The source
 * states each check as a regular expression; here each expression is a
 * predicate on the characters.
 */
module Validation {
  import opened Board

  const LengthError: string := "Expected puzzle to be 81 characters long"
  const CharacterError: string := "Invalid characters in puzzle"
  const CoordinateError: string := "Invalid coordinate"
  const ValueError: string := "Invalid value"

  /** The outcome of one check: `true`, or an object holding the error message. */
  datatype Verdict = Pass | Fail(error: string)

  /**
   * The expression /^[1-9\.]*$/: the whole string is a (possibly empty)
   * repetition of the class [1-9.], matched one character at a time.
   */
  function MatchesPuzzleClass(s: string): (b: bool)
    ensures b <==> forall i :: 0 <= i < |s| ==> IsPuzzleChar(s[i])
  {
    |s| == 0 || (IsPuzzleChar(s[0]) && MatchesPuzzleClass(s[1..]))
  }

  /**
   * Checks a puzzle string: the length first, then the characters. A
   * string of the wrong length gets the length error whatever it holds.
   */
  function Validate(s: string): (r: Verdict)
    ensures r == Pass <==> IsPuzzleText(s)
    ensures |s| != 81 ==> r == Fail(LengthError)
    ensures |s| == 81 && (exists i :: 0 <= i < |s| && !IsPuzzleChar(s[i])) ==> r == Fail(CharacterError)
  {
    if |s| != 81 then Fail(LengthError)
    else if !MatchesPuzzleClass(s) then Fail(CharacterError)
    else Pass
  }

  /** The row letters A..I, in either case. */
  predicate IsRowLetter(ch: char) {
    'a' <= ch <= 'i' || 'A' <= ch <= 'I'
  }

  /** The digits 1..9: column numbers and placement values alike. */
  predicate IsNonZeroDigit(ch: char) {
    '1' <= ch <= '9'
  }

  /** Checks a coordinate against /^[a-iA-I][1-9]$/: one row letter, then one column digit. */
  function ValidateCoordinate(coord: string): (r: Verdict)
    ensures r == Pass || r == Fail(CoordinateError)
  {
    if |coord| == 2 && IsRowLetter(coord[0]) && IsNonZeroDigit(coord[1]) then Pass
    else Fail(CoordinateError)
  }

  /** Checks a value against /^[1-9]$/: exactly one digit 1..9. */
  function ValidateValue(value: string): (r: Verdict)
    ensures r == Pass || r == Fail(ValueError)
  {
    if |value| == 1 && IsNonZeroDigit(value[0]) then Pass
    else Fail(ValueError)
  }

  /**
   * ASCII upper-casing of one character, as `toUpperCase` does on the
   * letters a..z: a lower-case letter becomes the upper-case letter at
   * the same place in the alphabet, and an upper-case letter stays.
   */
  function ToUpper(ch: char): (u: char)
    ensures 'a' <= ch <= 'z' ==> 'A' <= u <= 'Z' && u as int - 'A' as int == ch as int - 'a' as int
    ensures 'A' <= ch <= 'Z' ==> u == ch
    ensures ('A' <= u <= 'Z') <==> ('a' <= ch <= 'z' || 'A' <= ch <= 'Z')
  {
    if 'a' <= ch <= 'z' then (ch as int - 32) as char else ch
  }

  /** The row of a coordinate: the character code of its upper-cased letter minus 65 ('A'). */
  function CoordinateRow(coord: string): (row: int)
    requires |coord| >= 1
    ensures IsRowLetter(coord[0]) ==> 0 <= row < 9
    ensures 'a' <= coord[0] <= 'i' ==> row == coord[0] as int - 'a' as int
    ensures 'A' <= coord[0] <= 'I' ==> row == coord[0] as int - 'A' as int
  {
    ToUpper(coord[0]) as int - 'A' as int
  }

  /** The column of a coordinate: its digit, parsed, minus one. */
  function CoordinateColumn(coord: string): (col: int)
    requires |coord| >= 2
    ensures IsNonZeroDigit(coord[1]) ==> 0 <= col < 9 && DigitChar(col + 1) == coord[1]
  {
    coord[1] as int - '0' as int - 1
  }

  /** The number a value string stands for: its one digit, parsed. */
  function ValueNumber(value: string): (num: int)
    requires |value| >= 1
    ensures IsNonZeroDigit(value[0]) ==> 1 <= num <= 9 && DigitChar(num) == value[0]
  {
    value[0] as int - '0' as int
  }

  /** The name of cell (row, col): a letter from A (or a) and a digit from 1. */
  function CellName(row: int, col: int, lower: bool): (name: string)
    requires 0 <= row < 9 && 0 <= col < 9
  {
    [((if lower then 'a' else 'A') as int + row) as char, ('1' as int + col) as char]
  }

  /**
   * Every accepted coordinate names a cell of the board: its row and
   * column both lie in 0..8, and it is the upper- or lower-case name of
   * exactly that cell.
   */
  lemma AcceptedCoordinate(coord: string)
    requires ValidateCoordinate(coord) == Pass
    ensures 0 <= CoordinateRow(coord) < 9 && 0 <= CoordinateColumn(coord) < 9
    ensures coord == CellName(CoordinateRow(coord), CoordinateColumn(coord), 'a' <= coord[0] <= 'i')
  {
  }

  /** Both names of every cell are accepted and map back to that cell. */
  lemma CellNameAccepted(row: int, col: int, lower: bool)
    requires 0 <= row < 9 && 0 <= col < 9
    ensures ValidateCoordinate(CellName(row, col, lower)) == Pass
    ensures CoordinateRow(CellName(row, col, lower)) == row
    ensures CoordinateColumn(CellName(row, col, lower)) == col
  {
  }

  /** The accepted values are exactly the one-digit strings "1".."9"; "0" and "10" are rejected. */
  lemma AcceptedValue(value: string)
    ensures ValidateValue(value) == Pass <==> exists n :: 1 <= n <= 9 && value == [DigitChar(n)]
    ensures ValidateValue(value) == Pass ==> 1 <= ValueNumber(value) <= 9 && value == [DigitChar(ValueNumber(value))]
    ensures ValidateValue("0") == Fail(ValueError) && ValidateValue("10") == Fail(ValueError)
  {
    if ValidateValue(value) == Pass {
      var n := ValueNumber(value);
      assert value == [DigitChar(n)];
    }
  }
}
