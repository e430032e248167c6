/**
 * The 9x9 board and its 81-character string form.
 *
 * A puzzle string is read row-major: character 9*r + c is the cell in
 * row r, column c. A digit '1'..'9' is a given, '.' is an empty cell.
 * On the board an empty cell holds 0 and a filled cell its digit.
 * The solver works on a mutable `array2<int>`; `Cells` gives its value
 * as a `Grid`, the nested sequence the specifications talk about.
 */
module Board {

  /** A board as a value: nine rows of nine cells. */
  type Grid = seq<seq<int>>

  /** Nine rows of nine cells. */
  predicate Is9x9(g: Grid) {
    |g| == 9 && forall r :: 0 <= r < 9 ==> |g[r]| == 9
  }

  /** Nine rows of nine cells, every cell 0 (empty) or a digit 1..9. */
  predicate IsGrid(g: Grid) {
    Is9x9(g) && forall r, c :: 0 <= r < 9 && 0 <= c < 9 ==> 0 <= g[r][c] <= 9
  }

  /** The characters a puzzle string may hold: the digits 1..9 and the placeholder '.'. */
  predicate IsPuzzleChar(ch: char) {
    ch == '.' || '1' <= ch <= '9'
  }

  /** What the validator lets through: exactly 81 puzzle characters. */
  predicate IsPuzzleText(s: string) {
    |s| == 81 && forall i :: 0 <= i < |s| ==> IsPuzzleChar(s[i])
  }

  /** A puzzle string without any placeholder: every cell given. */
  predicate IsDigitText(s: string) {
    |s| == 81 && forall i :: 0 <= i < |s| ==> '1' <= s[i] <= '9'
  }

  /** The cell value of one puzzle character: 0 for '.', the digit's value otherwise. */
  function CellValue(ch: char): (v: int)
    requires IsPuzzleChar(ch)
    ensures 0 <= v <= 9
    ensures v == 0 <==> ch == '.'
  {
    if ch == '.' then 0 else ch as int - '0' as int
  }

  /** The decimal digit that prints a cell value (what joining a number 0..9 yields). */
  function DigitChar(v: int): (ch: char)
    requires 0 <= v <= 9
    ensures '0' <= ch <= '9'
  {
    (v + '0' as int) as char
  }

  /**
   * Row r of the board of a validated puzzle string, from characters
   * 9*r .. 9*r + 8: a cell is empty exactly where the character is the
   * placeholder, and otherwise holds the digit that character names.
   */
  function DecodeRow(s: string, r: int): (row: seq<int>)
    requires IsPuzzleText(s) && 0 <= r < 9
    ensures |row| == 9
    ensures forall c :: 0 <= c < 9 ==> (row[c] == 0 <==> s[9 * r + c] == '.')
    ensures forall c :: 0 <= c < 9 && s[9 * r + c] != '.' ==> 1 <= row[c] <= 9 && DigitChar(row[c]) == s[9 * r + c]
  {
    var row := seq(9, c requires 0 <= c < 9 => CellValue(s[9 * r + c]));
    assert forall c :: 0 <= c < 9 ==> row[c] == CellValue(s[9 * r + c]);
    row
  }

  /** The board of a validated puzzle string, filled row-major. */
  function Decode(s: string): (g: Grid)
    requires IsPuzzleText(s)
    ensures IsGrid(g)
  {
    seq(9, r requires 0 <= r < 9 => DecodeRow(s, r))
  }

  /** The board flattened row-major and its numbers joined into one string. */
  function Encode(g: Grid): (s: string)
    requires IsGrid(g)
    ensures |s| == 81 && forall i :: 0 <= i < 81 ==> '0' <= s[i] <= '9'
    ensures Full(g) ==> IsDigitText(s)
  {
    seq(81, i requires 0 <= i < 81 => DigitChar(g[i / 9][i % 9]))
  }

  /** The board with cell (r, c) set to v. */
  function Set(g: Grid, r: int, c: int, v: int): (h: Grid)
    requires IsGrid(g) && 0 <= r < 9 && 0 <= c < 9 && 0 <= v <= 9
    ensures IsGrid(h)
  {
    g[r := g[r][c := v]]
  }

  /** No cell is empty. */
  predicate Full(g: Grid)
    requires IsGrid(g)
  {
    forall r, c :: 0 <= r < 9 && 0 <= c < 9 ==> g[r][c] != 0
  }

  /** Every non-empty cell of g holds the same digit in h. */
  predicate Extends(h: Grid, g: Grid)
    requires IsGrid(h) && IsGrid(g)
  {
    forall r, c :: 0 <= r < 9 && 0 <= c < 9 && g[r][c] != 0 ==> h[r][c] == g[r][c]
  }

  /** A board extending g with cell (r, c) filled extends g and holds the filled digit there. */
  lemma ExtendsFill(h: Grid, g: Grid, r: int, c: int, v: int)
    requires IsGrid(h) && IsGrid(g) && 0 <= r < 9 && 0 <= c < 9 && g[r][c] == 0 && 1 <= v <= 9
    requires Extends(h, Set(g, r, c, v))
    ensures Extends(h, g) && h[r][c] == v
  {
    var next := Set(g, r, c, v);
    assert next[r][c] == v;
    forall r2, c2 | 0 <= r2 < 9 && 0 <= c2 < 9 && g[r2][c2] != 0
      ensures h[r2][c2] == g[r2][c2]
    {
      assert next[r2][c2] == g[r2][c2];
    }
  }

  /** Decoding lays the string out row-major: cell (r, c) comes from character 9*r + c. */
  lemma DecodeLayout(s: string, r: int, c: int)
    requires IsPuzzleText(s) && 0 <= r < 9 && 0 <= c < 9
    ensures 0 <= 9 * r + c < 81
    ensures Decode(s)[r][c] == 0 <==> s[9 * r + c] == '.'
    ensures s[9 * r + c] != '.' ==> 1 <= Decode(s)[r][c] <= 9 && DigitChar(Decode(s)[r][c]) == s[9 * r + c]
  {
  }

  /** Re-encoding the board of a placeholder-free string gives the string back. */
  lemma EncodeDecode(s: string)
    requires IsDigitText(s)
    ensures IsPuzzleText(s) && Encode(Decode(s)) == s
  {
    var g := Decode(s);
    var t := Encode(g);
    forall i | 0 <= i < 81
      ensures t[i] == s[i]
    {
      assert 9 * (i / 9) + i % 9 == i;
    }
  }

  /** Decoding the string of a full board gives the board back. */
  lemma DecodeEncode(g: Grid)
    requires IsGrid(g) && Full(g)
    ensures IsDigitText(Encode(g)) && IsPuzzleText(Encode(g))
    ensures Decode(Encode(g)) == g
  {
    var s := Encode(g);
    forall i | 0 <= i < 81
      ensures '1' <= s[i] <= '9'
    {
      assert g[i / 9][i % 9] != 0;
    }
    var h := Decode(s);
    forall r | 0 <= r < 9
      ensures h[r] == g[r]
    {
      forall c | 0 <= c < 9
        ensures h[r][c] == g[r][c]
      {
        var i := 9 * r + c;
        assert i / 9 == r && i % 9 == c;
      }
    }
  }

  /** A board object: a 9 by 9 array of cells. */
  predicate IsBoard(b: array2<int>) {
    b.Length0 == 9 && b.Length1 == 9
  }

  /** The value a board object holds. */
  function Cells(b: array2<int>): (g: Grid)
    requires IsBoard(b)
    reads b
    ensures Is9x9(g)
    ensures forall r, c :: 0 <= r < 9 && 0 <= c < 9 ==> g[r][c] == b[r, c]
  {
    seq(9, r requires 0 <= r < 9 reads b => seq(9, c requires 0 <= c < 9 reads b => b[r, c]))
  }

  /**
   * Builds the board of a validated puzzle string, one character at a
   * time: each character is appended to the current row as 0 or its
   * digit, and after every ninth character a new row is started.
   */
  method StringToSudokuBoard(s: string) returns (board: array2<int>)
    requires IsPuzzleText(s)
    ensures fresh(board) && IsBoard(board)
    ensures Cells(board) == Decode(s)
  {
    board := new int[9, 9];
    var row, col := 0, 0;
    for i := 0 to |s|
      invariant i == 9 * row + col && 0 <= col < 9
      invariant forall r, c :: 0 <= r < 9 && 0 <= c < 9 && 9 * r + c < i ==> board[r, c] == CellValue(s[9 * r + c])
    {
      board[row, col] := CellValue(s[i]);
      if (i + 1) % 9 == 0 {
        assert col == 8;
        row, col := row + 1, 0;
      } else {
        col := col + 1;
      }
    }
    ghost var g := Cells(board);
    ghost var d := Decode(s);
    forall r | 0 <= r < 9
      ensures g[r] == d[r]
    {
      assert forall c :: 0 <= c < 9 ==> g[r][c] == d[r][c];
    }
  }
}
