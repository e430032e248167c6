/**
 * Whether a digit may go into a cell. The three scans of the source
 * look at the cell's row, its column, and the 3x3 region whose corner
 * is (row / 3 * 3, col / 3 * 3); none of them skips the cell itself.
 * The region scan is the same loop as the placement test of the search,
 * so it also looks at the row and the column.
 */
module Constraints {
  import opened Board

  /** Some cell of row `row` holds `num`. */
  predicate RowHas(g: Grid, row: int, num: int)
    requires Is9x9(g) && 0 <= row < 9
  {
    exists i :: 0 <= i < 9 && g[row][i] == num
  }

  /** Some cell of column `col` holds `num`. */
  predicate ColHas(g: Grid, col: int, num: int)
    requires Is9x9(g) && 0 <= col < 9
  {
    exists i :: 0 <= i < 9 && g[i][col] == num
  }

  /** Step i of the box scan visits row row / 3 * 3 + i / 3 and column col / 3 * 3 + i % 3. */
  predicate BoxHas(g: Grid, row: int, col: int, num: int)
    requires Is9x9(g) && 0 <= row < 9 && 0 <= col < 9
  {
    exists i :: 0 <= i < 9 && BoxCell(g, row, col, i) == num
  }

  /** The cell step i of the box scan of (row, col) visits. */
  function BoxCell(g: Grid, row: int, col: int, i: int): int
    requires Is9x9(g) && 0 <= row < 9 && 0 <= col < 9 && 0 <= i < 9
  {
    BoxIndex(row, i);
    BoxIndex(col, i);
    g[row / 3 * 3 + i / 3][col / 3 * 3 + i % 3]
  }

  /** The box scan's index arithmetic stays on the board. */
  lemma BoxIndex(x: int, i: int)
    requires 0 <= x < 9 && 0 <= i < 9
    ensures 0 <= x / 3 * 3 + i / 3 < 9 && 0 <= x / 3 * 3 + i % 3 < 9
  {
  }

  /** Step i of the combined scan meets `num`: in the row, in the column or in the box. */
  predicate HitAt(g: Grid, row: int, col: int, num: int, i: int)
    requires Is9x9(g) && 0 <= row < 9 && 0 <= col < 9 && 0 <= i < 9
  {
    BoxIndex(row, i);
    BoxIndex(col, i);
    g[row][i] == num || g[i][col] == num || BoxCell(g, row, col, i) == num
  }

  /** Step i or a later step of the combined scan meets `num`. */
  predicate HitFrom(g: Grid, row: int, col: int, num: int, i: int)
    requires Is9x9(g) && 0 <= row < 9 && 0 <= col < 9 && 0 <= i <= 9
    decreases 9 - i
  {
    i < 9 && (HitAt(g, row, col, num, i) || HitFrom(g, row, col, num, i + 1))
  }

  /** The placement test: `num` is in none of the row, the column and the box of (row, col). */
  predicate Placeable(g: Grid, row: int, col: int, num: int)
    requires Is9x9(g) && 0 <= row < 9 && 0 <= col < 9
  {
    !RowHas(g, row, num) && !ColHas(g, col, num) && !BoxHas(g, row, col, num)
  }

  /** The scan from step i meets `num` exactly when some step from i on does. */
  lemma {:induction false} HitFromMeaning(g: Grid, row: int, col: int, num: int, i: int)
    requires Is9x9(g) && 0 <= row < 9 && 0 <= col < 9 && 0 <= i <= 9
    decreases 9 - i
    ensures HitFrom(g, row, col, num, i) <==> exists k :: i <= k < 9 && HitAt(g, row, col, num, k)
  {
    if i < 9 {
      HitFromMeaning(g, row, col, num, i + 1);
      if HitAt(g, row, col, num, i) {
        assert i <= i < 9 && HitAt(g, row, col, num, i);
      }
    }
  }

  /** The combined scan meets `num` exactly when the row, the column or the box holds it. */
  lemma PlaceableScans(g: Grid, row: int, col: int, num: int)
    requires Is9x9(g) && 0 <= row < 9 && 0 <= col < 9
    ensures Placeable(g, row, col, num) <==> !HitFrom(g, row, col, num, 0)
  {
    HitFromMeaning(g, row, col, num, 0);
  }

  /** Two cells lie in the same 3x3 region. */
  predicate SameBox(r1: int, c1: int, r2: int, c2: int) {
    r1 / 3 == r2 / 3 && c1 / 3 == c2 / 3
  }

  /** Two different cells that share a row, a column or a region. */
  predicate Peers(r1: int, c1: int, r2: int, c2: int) {
    (r1 != r2 || c1 != c2) && (r1 == r2 || c1 == c2 || SameBox(r1, c1, r2, c2))
  }

  /** No digit occurs twice in a row, a column or a region. */
  predicate Legal(g: Grid)
    requires IsGrid(g)
  {
    forall r1, c1, r2, c2 ::
      0 <= r1 < 9 && 0 <= c1 < 9 && 0 <= r2 < 9 && 0 <= c2 < 9 && Peers(r1, c1, r2, c2) && g[r1][c1] != 0
      ==> g[r1][c1] != g[r2][c2]
  }

  /** The index arithmetic of the box scan visits exactly the nine cells of the region of (row, col). */
  lemma BoxScanCoversRegion(g: Grid, row: int, col: int, num: int)
    requires Is9x9(g) && 0 <= row < 9 && 0 <= col < 9
    ensures BoxHas(g, row, col, num) <==>
      exists r, c :: 0 <= r < 9 && 0 <= c < 9 && SameBox(r, c, row, col) && g[r][c] == num
  {
    if BoxHas(g, row, col, num) {
      var i :| 0 <= i < 9 && BoxCell(g, row, col, i) == num;
      BoxIndex(row, i);
      BoxIndex(col, i);
      var r, c := row / 3 * 3 + i / 3, col / 3 * 3 + i % 3;
      assert SameBox(r, c, row, col);
    }
    if exists r, c :: 0 <= r < 9 && 0 <= c < 9 && SameBox(r, c, row, col) && g[r][c] == num {
      var r, c :| 0 <= r < 9 && 0 <= c < 9 && SameBox(r, c, row, col) && g[r][c] == num;
      var i := 3 * (r % 3) + c % 3;
      assert i / 3 == r % 3 && i % 3 == c % 3;
      assert row / 3 * 3 + i / 3 == r && col / 3 * 3 + i % 3 == c;
      assert BoxCell(g, row, col, i) == num;
    }
  }

  /** A digit is placeable at (row, col) iff no cell sharing its row, column or region holds it. */
  lemma PlaceableMeaning(g: Grid, row: int, col: int, num: int)
    requires Is9x9(g) && 0 <= row < 9 && 0 <= col < 9
    ensures Placeable(g, row, col, num) <==>
      forall r, c :: 0 <= r < 9 && 0 <= c < 9 && (r == row || c == col || SameBox(r, c, row, col)) ==> g[r][c] != num
  {
    PlaceableScans(g, row, col, num);
    BoxScanCoversRegion(g, row, col, num);
  }

  /** The placement test of the search (`isValid`): a single scan with early exit. */
  method IsValid(board: array2<int>, row: int, col: int, num: int) returns (ok: bool)
    requires IsBoard(board) && 0 <= row < 9 && 0 <= col < 9
    ensures ok == Placeable(Cells(board), row, col, num)
  {
    ghost var g := Cells(board);
    for i := 0 to 9
      invariant HitFrom(g, row, col, num, 0) == HitFrom(g, row, col, num, i)
    {
      BoxIndex(row, i);
      BoxIndex(col, i);
      if board[row, i] == num || board[i, col] == num || board[row / 3 * 3 + i / 3, col / 3 * 3 + i % 3] == num {
        assert HitAt(g, row, col, num, i);
        PlaceableScans(g, row, col, num);
        return false;
      }
    }
    PlaceableScans(g, row, col, num);
    return true;
  }

  /** The row scan of a placement check. */
  method CheckRowPlacement(board: array2<int>, row: int, num: int) returns (ok: bool)
    requires IsBoard(board) && 0 <= row < 9
    ensures ok == !RowHas(Cells(board), row, num)
  {
    for i := 0 to 9
      invariant forall k :: 0 <= k < i ==> board[row, k] != num
    {
      if board[row, i] == num {
        return false;
      }
    }
    return true;
  }

  /** The column scan of a placement check. */
  method CheckColPlacement(board: array2<int>, col: int, num: int) returns (ok: bool)
    requires IsBoard(board) && 0 <= col < 9
    ensures ok == !ColHas(Cells(board), col, num)
  {
    for i := 0 to 9
      invariant forall k :: 0 <= k < i ==> board[k, col] != num
    {
      if board[i, col] == num {
        return false;
      }
    }
    return true;
  }

  /**
   * The region scan of a placement check. It is the same loop as
   * `IsValid`, so it fails whenever the row or the column holds `num`.
   */
  method CheckRegionPlacement(board: array2<int>, row: int, col: int, num: int) returns (ok: bool)
    requires IsBoard(board) && 0 <= row < 9 && 0 <= col < 9
    ensures ok == Placeable(Cells(board), row, col, num)
  {
    ghost var g := Cells(board);
    for i := 0 to 9
      invariant HitFrom(g, row, col, num, 0) == HitFrom(g, row, col, num, i)
    {
      BoxIndex(row, i);
      BoxIndex(col, i);
      if board[row, i] == num || board[i, col] == num || board[row / 3 * 3 + i / 3, col / 3 * 3 + i % 3] == num {
        assert HitAt(g, row, col, num, i);
        PlaceableScans(g, row, col, num);
        return false;
      }
    }
    PlaceableScans(g, row, col, num);
    return true;
  }
}
