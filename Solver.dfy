/**
 * The backtracking search. `Search` and `TryFrom` state what the search
 * computes, as functions on grid values: take the first empty cell in
 * row-major order, try the digits 1..9 in ascending order, keep the
 * first that passes the placement test and lets the rest of the board
 * be filled. `Solve` is the search as the source runs it, in place on
 * a board object, writing a candidate and undoing the write when the
 * recursive attempt fails; its contract ties it to `Search`.
 */
module Solver {
  import opened Board
  import opened Constraints

  datatype Option<T> = None | Some(value: T)

  /** The result of the row-major scan for an empty cell. */
  datatype Scan = Filled | EmptyAt(row: int, col: int)

  /** Cell (r1, c1) comes before cell (r2, c2) in row-major order. */
  predicate Before(r1: int, c1: int, r2: int, c2: int) {
    r1 < r2 || (r1 == r2 && c1 < c2)
  }

  /** The number of empty cells of a row. */
  function Zeros(s: seq<int>): nat {
    if |s| == 0 then 0 else (if s[0] == 0 then 1 else 0) + Zeros(s[1..])
  }

  /** The number of empty cells of a board: the search's termination measure. */
  function EmptyCount(g: Grid): nat {
    if |g| == 0 then 0 else Zeros(g[0]) + EmptyCount(g[1..])
  }

  /** Filling one empty cell of a row with a digit removes one of its empty cells. */
  lemma {:induction false} ZerosFill(s: seq<int>, i: int, v: int)
    requires 0 <= i < |s| && s[i] == 0 && v != 0
    ensures Zeros(s[i := v]) == Zeros(s) - 1
  {
    if i > 0 {
      assert s[i := v][1..] == s[1..][i - 1 := v];
      ZerosFill(s[1..], i - 1, v);
    } else {
      assert s[i := v][1..] == s[1..];
    }
  }

  /** Replacing one row changes the board's count of empty cells by the difference of the two rows' counts. */
  lemma {:induction false} EmptyCountRow(g: Grid, r: int, row: seq<int>)
    requires 0 <= r < |g|
    ensures EmptyCount(g[r := row]) == EmptyCount(g) - Zeros(g[r]) + Zeros(row)
  {
    if r > 0 {
      assert g[r := row][1..] == g[1..][r - 1 := row];
      EmptyCountRow(g[1..], r - 1, row);
    } else {
      assert g[r := row][1..] == g[1..];
    }
  }

  /** Filling an empty cell with a digit removes exactly one empty cell. */
  lemma FillDecreases(g: Grid, r: int, c: int, v: int)
    requires IsGrid(g) && 0 <= r < 9 && 0 <= c < 9 && g[r][c] == 0 && 1 <= v <= 9
    ensures EmptyCount(Set(g, r, c, v)) == EmptyCount(g) - 1
  {
    ZerosFill(g[r], c, v);
    EmptyCountRow(g, r, g[r][c := v]);
  }

  /** The index of the first empty cell of a row; the row's length when it has none. */
  function FirstZero(s: seq<int>): (i: nat)
    ensures i <= |s| && (i < |s| ==> s[i] == 0)
  {
    if |s| == 0 || s[0] == 0 then 0 else 1 + FirstZero(s[1..])
  }

  /** The index of the first row holding an empty cell; the number of rows when there is none. */
  function FirstZeroRow(g: seq<seq<int>>): (r: nat)
    ensures r <= |g| && (r < |g| ==> FirstZero(g[r]) < |g[r]|)
  {
    if |g| == 0 || FirstZero(g[0]) < |g[0]| then 0 else 1 + FirstZeroRow(g[1..])
  }

  /** No cell before the first empty cell of a row is empty. */
  lemma {:induction false} FirstZeroFirst(s: seq<int>, j: int)
    requires 0 <= j < FirstZero(s)
    ensures s[j] != 0
  {
    if j > 0 {
      FirstZeroFirst(s[1..], j - 1);
    }
  }

  /** Every row before the first row holding an empty cell is full. */
  lemma {:induction false} FirstZeroRowFirst(g: seq<seq<int>>, r: int)
    requires 0 <= r < FirstZeroRow(g)
    ensures FirstZero(g[r]) == |g[r]|
  {
    if r > 0 {
      FirstZeroRowFirst(g[1..], r - 1);
    }
  }

  /** The first empty cell of the board in row-major order; `Filled` when there is none. */
  function FirstEmpty(g: Grid): (s: Scan)
    requires IsGrid(g)
    ensures s.EmptyAt? ==> 0 <= s.row < 9 && 0 <= s.col < 9 && g[s.row][s.col] == 0
  {
    var r := FirstZeroRow(g);
    if r == 9 then Filled else EmptyAt(r, FirstZero(g[r]))
  }

  /** The cell the scan reports is empty and every cell before it is filled; the scan reports none exactly on a full board. */
  lemma FirstEmptyOrder(g: Grid)
    requires IsGrid(g)
    ensures FirstEmpty(g).EmptyAt? ==> forall r, c :: 0 <= r < 9 && 0 <= c < 9 && Before(r, c, FirstEmpty(g).row, FirstEmpty(g).col) ==> g[r][c] != 0
    ensures FirstEmpty(g).Filled? <==> Full(g)
  {
    var row := FirstZeroRow(g);
    forall r, c | 0 <= r < 9 && 0 <= c < 9 && (r < row || (r == row && c < FirstZero(g[r])))
      ensures g[r][c] != 0
    {
      if r < row {
        FirstZeroRowFirst(g, r);
      }
      FirstZeroFirst(g[r], c);
    }
  }

  /**
   * The search on a board value: on a full board it succeeds with that
   * board; otherwise it tries the digits at the first empty cell.
   */
  function Search(g: Grid): (found: Option<Grid>)
    requires IsGrid(g)
    decreases EmptyCount(g), 1, 0
    ensures found.Some? ==> IsGrid(found.value)
  {
    match FirstEmpty(g)
    case Filled => Some(g)
    case EmptyAt(r, c) => TryFrom(g, r, c, 1)
  }

  /**
   * The digits num..9 at the empty cell (r, c), in ascending order: the
   * first that passes the placement test and whose recursive search
   * succeeds gives the result; when none does, the search fails.
   */
  function TryFrom(g: Grid, r: int, c: int, num: int): (found: Option<Grid>)
    requires IsGrid(g) && 0 <= r < 9 && 0 <= c < 9 && g[r][c] == 0 && 1 <= num <= 10
    decreases EmptyCount(g), 0, 10 - num
    ensures found.Some? ==> IsGrid(found.value)
  {
    if num == 10 then None
    else if Placeable(g, r, c, num) then
      FillDecreases(g, r, c, num);
      var attempt := Search(Set(g, r, c, num));
      if attempt.Some? then attempt else TryFrom(g, r, c, num + 1)
    else TryFrom(g, r, c, num + 1)
  }

  /** A board the search returns is full and keeps every given. */
  lemma {:induction false} SearchShape(g: Grid)
    requires IsGrid(g) && Search(g).Some?
    decreases EmptyCount(g), 1, 0, 0
    ensures Full(Search(g).value) && Extends(Search(g).value, g)
  {
    FirstEmptyOrder(g);
    match FirstEmpty(g)
    case Filled =>
    case EmptyAt(r, c) => TryFromShape(g, r, c, 1);
  }

  /** A board the digit loop returns is full, keeps every given, and holds one of the digits tried. */
  lemma {:induction false} TryFromShape(g: Grid, r: int, c: int, num: int)
    requires IsGrid(g) && 0 <= r < 9 && 0 <= c < 9 && g[r][c] == 0 && 1 <= num <= 10
    requires TryFrom(g, r, c, num).Some?
    decreases EmptyCount(g), 0, 10 - num, 1
    ensures Full(TryFrom(g, r, c, num).value) && Extends(TryFrom(g, r, c, num).value, g)
    ensures num <= TryFrom(g, r, c, num).value[r][c]
  {
    if num == 10 {
      assert false;
    } else if Placeable(g, r, c, num) && Search(Set(g, r, c, num)).Some? {
      ShapeTaken(g, r, c, num);
    } else {
      SkipStep(g, r, c, num);
      TryFromShape(g, r, c, num + 1);
    }
  }

  /** The board kept for a digit is full, keeps every given and holds that digit at (r, c). */
  lemma {:induction false} ShapeTaken(g: Grid, r: int, c: int, num: int)
    requires IsGrid(g) && 0 <= r < 9 && 0 <= c < 9 && g[r][c] == 0 && 1 <= num <= 9
    requires Placeable(g, r, c, num) && Search(Set(g, r, c, num)).Some?
    decreases EmptyCount(g), 0, 0, 0
    ensures Full(TryFrom(g, r, c, num).value) && Extends(TryFrom(g, r, c, num).value, g)
    ensures num <= TryFrom(g, r, c, num).value[r][c]
  {
    TakeStep(g, r, c, num);
    FillDecreases(g, r, c, num);
    SearchShape(Set(g, r, c, num));
    ExtendsFill(Search(Set(g, r, c, num)).value, g, r, c, num);
  }

  /**
   * Every digit the search writes differs from every cell sharing its
   * row, column or region in the finished board h: only pairs of givens
   * (cells non-empty in g) may clash.
   */
  predicate WritesLegal(h: Grid, g: Grid)
    requires IsGrid(h) && IsGrid(g)
  {
    forall r1, c1, r2, c2 {:trigger Peers(r1, c1, r2, c2)} ::
      0 <= r1 < 9 && 0 <= c1 < 9 && 0 <= r2 < 9 && 0 <= c2 < 9 && Peers(r1, c1, r2, c2) && g[r1][c1] == 0
      ==> h[r1][c1] != h[r2][c2]
  }

  /** A solution of g: a full legal board that keeps every given of g. */
  predicate IsCompletion(h: Grid, g: Grid)
    requires IsGrid(g)
  {
    IsGrid(h) && Full(h) && Extends(h, g) && Legal(h)
  }

  /** The two boards agree on every cell. */
  predicate SameCells(h: Grid, k: Grid)
    requires IsGrid(h) && IsGrid(k)
  {
    forall r, c :: 0 <= r < 9 && 0 <= c < 9 ==> h[r][c] == k[r][c]
  }

  /** h and k agree on every cell before (r, c) in row-major order. */
  predicate AgreeBefore(h: Grid, k: Grid, r: int, c: int)
    requires IsGrid(h) && IsGrid(k)
  {
    forall r2, c2 :: 0 <= r2 < 9 && 0 <= c2 < 9 && Before(r2, c2, r, c) ==> h[r2][c2] == k[r2][c2]
  }

  /** h comes no later than k when both are read row-major, as strings of digits. */
  predicate LexLeq(h: Grid, k: Grid)
    requires IsGrid(h) && IsGrid(k)
  {
    h == k ||
    exists r, c {:trigger AgreeBefore(h, k, r, c)} ::
      0 <= r < 9 && 0 <= c < 9 && h[r][c] < k[r][c] && AgreeBefore(h, k, r, c)
  }

  /** Boards that agree on every cell are equal. */
  lemma SameCellsEqual(h: Grid, k: Grid)
    requires IsGrid(h) && IsGrid(k) && SameCells(h, k)
    ensures h == k
  {
    forall r | 0 <= r < 9
      ensures h[r] == k[r]
    {
      assert forall c :: 0 <= c < 9 ==> h[r][c] == k[r][c];
    }
  }

  /** A board whose writes are legal keeps legal givens legal. */
  lemma WritesKeepLegal(h: Grid, g: Grid)
    requires IsGrid(h) && IsGrid(g) && Extends(h, g) && WritesLegal(h, g) && Legal(g) && Full(h)
    ensures Legal(h)
  {
    forall r1, c1, r2, c2 |
      0 <= r1 < 9 && 0 <= c1 < 9 && 0 <= r2 < 9 && 0 <= c2 < 9 && Peers(r1, c1, r2, c2) && h[r1][c1] != 0
      ensures h[r1][c1] != h[r2][c2]
    {
      if g[r1][c1] != 0 && g[r2][c2] != 0 {
        assert g[r1][c1] != g[r2][c2];
      } else if g[r2][c2] == 0 {
        assert Peers(r2, c2, r1, c1);
      }
    }
  }

  /** If a completion holds `num` at (r, c), the placement test lets `num` through there. */
  lemma CompletionPlaceable(g: Grid, h: Grid, r: int, c: int)
    requires IsGrid(g) && IsCompletion(h, g) && 0 <= r < 9 && 0 <= c < 9 && g[r][c] == 0
    ensures Placeable(g, r, c, h[r][c])
  {
    var num := h[r][c];
    PlaceableMeaning(g, r, c, num);
    forall r2, c2 | 0 <= r2 < 9 && 0 <= c2 < 9 && (r2 == r || c2 == c || SameBox(r2, c2, r, c))
      ensures g[r2][c2] != num
    {
      if (r2, c2) != (r, c) {
        assert Peers(r, c, r2, c2);
      }
    }
  }

  /** A completion of g with `num` at the empty cell (r, c) is a completion of g with (r, c) set to `num`. */
  lemma CompletionOfFill(g: Grid, h: Grid, r: int, c: int)
    requires IsGrid(g) && IsCompletion(h, g) && 0 <= r < 9 && 0 <= c < 9 && g[r][c] == 0
    ensures IsCompletion(h, Set(g, r, c, h[r][c]))
  {
  }

  /**
   * Soundness of the search: a board it returns is full, keeps every
   * given, and every digit it wrote differs from all cells sharing its
   * row, column or region.
   */
  lemma {:induction false} SearchSound(g: Grid)
    requires IsGrid(g) && Search(g).Some?
    decreases EmptyCount(g), 1, 0, 0
    ensures WritesLegal(Search(g).value, g)
  {
    match FirstEmpty(g)
    case Filled => FirstEmptyOrder(g);
    case EmptyAt(r, c) => TryFromSound(g, r, c, 1);
  }

  /** Every board the digit loop from `num` returns writes only legal digits. */
  lemma {:induction false} TryFromSound(g: Grid, r: int, c: int, num: int)
    requires IsGrid(g) && 0 <= r < 9 && 0 <= c < 9 && g[r][c] == 0 && 1 <= num <= 10
    requires TryFrom(g, r, c, num).Some?
    decreases EmptyCount(g), 0, 10 - num, 1
    ensures WritesLegal(TryFrom(g, r, c, num).value, g)
  {
    if num == 10 {
      assert false;
    } else if Placeable(g, r, c, num) && Search(Set(g, r, c, num)).Some? {
      SoundTaken(g, r, c, num);
    } else {
      SkipStep(g, r, c, num);
      TryFromSound(g, r, c, num + 1);
    }
  }

  /** The digit the search keeps at (r, c) writes only legal digits. */
  lemma {:induction false} SoundTaken(g: Grid, r: int, c: int, num: int)
    requires IsGrid(g) && 0 <= r < 9 && 0 <= c < 9 && g[r][c] == 0 && 1 <= num <= 9
    requires Placeable(g, r, c, num) && Search(Set(g, r, c, num)).Some?
    decreases EmptyCount(g), 0, 0, 0
    ensures WritesLegal(TryFrom(g, r, c, num).value, g)
  {
    TakeStep(g, r, c, num);
    FillDecreases(g, r, c, num);
    SearchSound(Set(g, r, c, num));
    SearchShape(Set(g, r, c, num));
    FillWritesLegal(g, r, c, num, Search(Set(g, r, c, num)).value);
  }

  /** A placeable digit written into an empty cell keeps the writes of a later board legal. */
  lemma FillWritesLegal(g: Grid, r: int, c: int, num: int, h: Grid)
    requires IsGrid(g) && 0 <= r < 9 && 0 <= c < 9 && g[r][c] == 0 && 1 <= num <= 9
    requires Placeable(g, r, c, num)
    requires IsGrid(h) && Extends(h, Set(g, r, c, num)) && WritesLegal(h, Set(g, r, c, num))
    ensures WritesLegal(h, g)
  {
    var next := Set(g, r, c, num);
    PlaceableMeaning(g, r, c, num);
    forall r1, c1, r2, c2 |
      0 <= r1 < 9 && 0 <= c1 < 9 && 0 <= r2 < 9 && 0 <= c2 < 9 && Peers(r1, c1, r2, c2) && g[r1][c1] == 0
      ensures h[r1][c1] != h[r2][c2]
    {
      if (r1, c1) == (r, c) {
        if next[r2][c2] == 0 {
          assert Peers(r2, c2, r1, c1);
        } else {
          assert h[r2][c2] == g[r2][c2];
        }
      } else {
        assert next[r1][c1] == 0;
      }
    }
  }

  /** Completeness of the search: when the givens admit any solution, the search finds one. */
  lemma {:induction false} SearchComplete(g: Grid, h: Grid)
    requires IsGrid(g) && IsCompletion(h, g)
    decreases EmptyCount(g), 1, 0, 0
    ensures Search(g).Some?
  {
    match FirstEmpty(g)
    case Filled =>
    case EmptyAt(r, c) => TryFromComplete(g, r, c, 1, h);
  }

  /** While `num` has not passed the digit a solution holds at (r, c), the digit loop from `num` succeeds. */
  lemma {:induction false} TryFromComplete(g: Grid, r: int, c: int, num: int, h: Grid)
    requires IsGrid(g) && 0 <= r < 9 && 0 <= c < 9 && g[r][c] == 0 && 1 <= num <= 10
    requires IsCompletion(h, g) && num <= h[r][c]
    decreases EmptyCount(g), 0, 10 - num, 1
    ensures TryFrom(g, r, c, num).Some?
  {
    if h[r][c] == num {
      CompleteAt(g, r, c, num, h);
    } else {
      CompletePast(g, r, c, num, h);
    }
  }

  /** The digit a solution holds at (r, c) is placeable there and its search succeeds. */
  lemma {:induction false} CompleteAt(g: Grid, r: int, c: int, num: int, h: Grid)
    requires IsGrid(g) && 0 <= r < 9 && 0 <= c < 9 && g[r][c] == 0 && 1 <= num <= 9
    requires IsCompletion(h, g) && num == h[r][c]
    decreases EmptyCount(g), 0, 10 - num, 0
    ensures TryFrom(g, r, c, num).Some?
  {
    CompletionPlaceable(g, h, r, c);
    CompletionOfFill(g, h, r, c);
    FillDecreases(g, r, c, num);
    SearchComplete(Set(g, r, c, num), h);
    TakeStep(g, r, c, num);
  }

  /** A digit below the one a solution holds either succeeds or hands over to the next. */
  lemma {:induction false} CompletePast(g: Grid, r: int, c: int, num: int, h: Grid)
    requires IsGrid(g) && 0 <= r < 9 && 0 <= c < 9 && g[r][c] == 0 && 1 <= num <= 9
    requires IsCompletion(h, g) && num < h[r][c]
    decreases EmptyCount(g), 0, 10 - num, 0
    ensures TryFrom(g, r, c, num).Some?
  {
    if Placeable(g, r, c, num) && Search(Set(g, r, c, num)).Some? {
      TakeStep(g, r, c, num);
    } else {
      SkipStep(g, r, c, num);
      TryFromComplete(g, r, c, num + 1, h);
    }
  }

  /**
   * The search returns the first solution in row-major digit order: the
   * board it returns comes no later than any solution of the givens.
   */
  lemma {:induction false} SearchFirst(g: Grid, k: Grid)
    requires IsGrid(g) && Search(g).Some? && IsCompletion(k, g)
    decreases EmptyCount(g), 1, 0, 0
    ensures LexLeq(Search(g).value, k)
  {
    FirstEmptyOrder(g);
    match FirstEmpty(g)
    case Filled =>
      assert SameCells(g, k);
      SameCellsEqual(g, k);
    case EmptyAt(r, c) => TryFromFirst(g, r, c, 1, k);
  }

  /**
   * With every cell before (r, c) a given, the digit loop from `num`
   * returns a board no later than any solution holding `num` or more at (r, c).
   */
  lemma {:induction false} TryFromFirst(g: Grid, r: int, c: int, num: int, k: Grid)
    requires IsGrid(g) && 0 <= r < 9 && 0 <= c < 9 && g[r][c] == 0 && 1 <= num <= 10
    requires forall r2, c2 :: 0 <= r2 < 9 && 0 <= c2 < 9 && Before(r2, c2, r, c) ==> g[r2][c2] != 0
    requires TryFrom(g, r, c, num).Some? && IsCompletion(k, g) && num <= k[r][c]
    decreases EmptyCount(g), 0, 10 - num, 1
    ensures LexLeq(TryFrom(g, r, c, num).value, k)
  {
    if num == 10 {
      assert false;
    } else if Placeable(g, r, c, num) && Search(Set(g, r, c, num)).Some? {
      TakeStep(g, r, c, num);
      TakenFirst(g, r, c, num, k);
    } else {
      SkippedFirst(g, r, c, num, k);
    }
  }

  /** A digit the search passes over leaves the rest of the digits to come no later than any solution. */
  lemma {:induction false} SkippedFirst(g: Grid, r: int, c: int, num: int, k: Grid)
    requires IsGrid(g) && 0 <= r < 9 && 0 <= c < 9 && g[r][c] == 0 && 1 <= num <= 9
    requires forall r2, c2 :: 0 <= r2 < 9 && 0 <= c2 < 9 && Before(r2, c2, r, c) ==> g[r2][c2] != 0
    requires !(Placeable(g, r, c, num) && Search(Set(g, r, c, num)).Some?)
    requires TryFrom(g, r, c, num).Some? && IsCompletion(k, g) && num <= k[r][c]
    decreases EmptyCount(g), 0, 10 - num, 0
    ensures LexLeq(TryFrom(g, r, c, num).value, k)
  {
    SkipStep(g, r, c, num);
    FailedDigitMissing(g, r, c, num, k);
    TryFromFirst(g, r, c, num + 1, k);
  }

  /** The digit the search keeps at (r, c) gives a board no later than any solution. */
  lemma {:induction false} TakenFirst(g: Grid, r: int, c: int, num: int, k: Grid)
    requires IsGrid(g) && 0 <= r < 9 && 0 <= c < 9 && g[r][c] == 0 && 1 <= num <= 9
    requires forall r2, c2 :: 0 <= r2 < 9 && 0 <= c2 < 9 && Before(r2, c2, r, c) ==> g[r2][c2] != 0
    requires Placeable(g, r, c, num) && Search(Set(g, r, c, num)).Some? && IsCompletion(k, g) && num <= k[r][c]
    decreases EmptyCount(g), 0, 0, 0
    ensures LexLeq(Search(Set(g, r, c, num)).value, k)
  {
    var next := Set(g, r, c, num);
    FillDecreases(g, r, c, num);
    if k[r][c] == num {
      CompletionOfFill(g, k, r, c);
      SearchFirst(next, k);
    } else {
      var h := Search(next).value;
      SearchShape(next);
      ExtendsFill(h, g, r, c, num);
      EarlierFirstEmpty(g, r, c, h, k);
    }
  }

  /** A digit the search rejected or could not complete at (r, c) is not what any solution holds there. */
  lemma FailedDigitMissing(g: Grid, r: int, c: int, num: int, k: Grid)
    requires IsGrid(g) && 0 <= r < 9 && 0 <= c < 9 && g[r][c] == 0 && 1 <= num <= 9 && IsCompletion(k, g)
    requires !(Placeable(g, r, c, num) && Search(Set(g, r, c, num)).Some?)
    ensures k[r][c] != num
  {
    if k[r][c] == num {
      CompletionPlaceable(g, k, r, c);
      CompletionOfFill(g, k, r, c);
      FillDecreases(g, r, c, num);
      SearchComplete(Set(g, r, c, num), k);
    }
  }

  /**
   * Two boards keeping the givens of g, where every cell before (r, c)
   * is a given: the one with the smaller digit at (r, c) comes first.
   */
  lemma EarlierFirstEmpty(g: Grid, r: int, c: int, h: Grid, k: Grid)
    requires IsGrid(g) && IsGrid(h) && IsGrid(k) && 0 <= r < 9 && 0 <= c < 9
    requires forall r2, c2 :: 0 <= r2 < 9 && 0 <= c2 < 9 && Before(r2, c2, r, c) ==> g[r2][c2] != 0
    requires Extends(h, g) && Extends(k, g) && h[r][c] < k[r][c]
    ensures LexLeq(h, k)
  {
    assert AgreeBefore(h, k, r, c);
  }

  /**
   * What the search promises on legal givens: it fails only when no
   * solution exists, and when it succeeds it returns a solution that
   * comes no later than any other in row-major digit order.
   */
  lemma SearchCorrect(g: Grid)
    requires IsGrid(g) && Legal(g)
    ensures Search(g).None? ==> forall h :: !IsCompletion(h, g)
    ensures Search(g).Some? ==> IsCompletion(Search(g).value, g)
    ensures Search(g).Some? ==> forall k :: IsCompletion(k, g) ==> LexLeq(Search(g).value, k)
  {
    if Search(g).Some? {
      SearchSound(g);
      SearchShape(g);
      WritesKeepLegal(Search(g).value, g);
      forall k | IsCompletion(k, g)
        ensures LexLeq(Search(g).value, k)
      {
        SearchFirst(g, k);
      }
    } else {
      forall h | IsCompletion(h, g)
        ensures false
      {
        SearchComplete(g, h);
      }
    }
  }

  /**
   * The search as the source runs it, on the board object in place.
   * On success the board holds the board `Search` returns; on failure
   * every tentative write has been undone and the board is as on entry.
   */
  method Solve(board: array2<int>, ghost g: Grid) returns (solved: bool)
    requires IsBoard(board) && IsGrid(g) && Holds(board, g)
    modifies board
    decreases EmptyCount(g), 2
    ensures solved == Search(g).Some?
    ensures solved ==> Holds(board, Search(g).value)
    ensures !solved ==> Holds(board, g)
  {
    for row := 0 to 9
      invariant Holds(board, g)
      invariant forall r, c :: 0 <= r < row && 0 <= c < 9 ==> g[r][c] != 0
    {
      for col := 0 to 9
        invariant Holds(board, g)
        invariant forall r, c :: 0 <= r < 9 && 0 <= c < 9 && Before(r, c, row, col) ==> g[r][c] != 0
      {
        if board[row, col] == 0 {
          FirstEmptyAt(g, row, col);
          solved := TryDigits(board, row, col, g);
          return;
        }
      }
    }
    assert Full(g);
    return true;
  }

  /**
   * The digit loop of the source at the empty cell (row, col): each
   * digit 1..9 in turn is attempted, and the first attempt that succeeds
   * ends the loop; when all fail the board is as on entry.
   */
  method TryDigits(board: array2<int>, row: int, col: int, ghost g: Grid) returns (solved: bool)
    requires IsBoard(board) && IsGrid(g) && Holds(board, g) && 0 <= row < 9 && 0 <= col < 9 && g[row][col] == 0
    modifies board
    decreases EmptyCount(g), 1
    ensures solved == TryFrom(g, row, col, 1).Some?
    ensures solved ==> Holds(board, TryFrom(g, row, col, 1).value)
    ensures !solved ==> Holds(board, g)
  {
    for num := 1 to 10
      invariant Holds(board, g)
      invariant TryFrom(g, row, col, 1) == TryFrom(g, row, col, num)
    {
      solved := Attempt(board, row, col, num, g);
      if solved {
        TakeStep(g, row, col, num);
        return;
      }
      SkipStep(g, row, col, num);
    }
    return false;
  }

  /**
   * One digit of the loop: the placement test, the write, the recursive
   * solve, and the undo of the write when that solve fails.
   */
  method Attempt(board: array2<int>, row: int, col: int, num: int, ghost g: Grid) returns (done: bool)
    requires IsBoard(board) && IsGrid(g) && Holds(board, g) && 0 <= row < 9 && 0 <= col < 9 && g[row][col] == 0 && 1 <= num <= 9
    modifies board
    decreases EmptyCount(g), 0
    ensures done == (Placeable(g, row, col, num) && Search(Set(g, row, col, num)).Some?)
    ensures done ==> Holds(board, Search(Set(g, row, col, num)).value)
    ensures !done ==> Holds(board, g)
  {
    HoldsCells(board, g);
    var ok := IsValid(board, row, col, num);
    if !ok {
      return false;
    }
    board[row, col] := num;
    ghost var next := Set(g, row, col, num);
    assert Holds(board, next);
    FillDecreases(g, row, col, num);
    done := Solve(board, next);
    if done {
      return;
    }
    board[row, col] := 0;
    SetUndo(g, row, col, num);
    assert Holds(board, g);
  }

  /** The board object holds the board value g, cell by cell. */
  ghost predicate Holds(board: array2<int>, g: Grid)
    requires IsBoard(board) && IsGrid(g)
    reads board
  {
    forall r, c :: 0 <= r < 9 && 0 <= c < 9 ==> board[r, c] == g[r][c]
  }

  /** A board object that holds g cell by cell has g as its value. */
  lemma HoldsCells(board: array2<int>, g: Grid)
    requires IsBoard(board) && IsGrid(g) && Holds(board, g)
    ensures Cells(board) == g
  {
    SameCellsEqual(Cells(board), g);
  }

  /** A digit that passes the placement test and whose recursive search succeeds gives the result. */
  lemma TakeStep(g: Grid, r: int, c: int, num: int)
    requires IsGrid(g) && 0 <= r < 9 && 0 <= c < 9 && g[r][c] == 0 && 1 <= num <= 9
    requires Placeable(g, r, c, num) && Search(Set(g, r, c, num)).Some?
    ensures TryFrom(g, r, c, num) == Search(Set(g, r, c, num))
  {
  }

  /** Any other digit hands over to the next one. */
  lemma SkipStep(g: Grid, r: int, c: int, num: int)
    requires IsGrid(g) && 0 <= r < 9 && 0 <= c < 9 && g[r][c] == 0 && 1 <= num <= 9
    requires !(Placeable(g, r, c, num) && Search(Set(g, r, c, num)).Some?)
    ensures TryFrom(g, r, c, num) == TryFrom(g, r, c, num + 1)
  {
  }

  /** Clearing the cell just filled restores the board. */
  lemma SetUndo(g: Grid, r: int, c: int, v: int)
    requires IsGrid(g) && 0 <= r < 9 && 0 <= c < 9 && g[r][c] == 0 && 0 <= v <= 9
    ensures Set(Set(g, r, c, v), r, c, 0) == g
  {
    assert Set(g, r, c, v)[r][c := 0] == g[r];
  }

  /** The scan's first empty cell is the empty cell all of whose predecessors are filled. */
  lemma FirstEmptyAt(g: Grid, row: int, col: int)
    requires IsGrid(g) && 0 <= row < 9 && 0 <= col < 9 && g[row][col] == 0
    requires forall r, c :: 0 <= r < 9 && 0 <= c < 9 && Before(r, c, row, col) ==> g[r][c] != 0
    ensures FirstEmpty(g) == EmptyAt(row, col)
  {
    var s := FirstEmpty(g);
    FirstEmptyOrder(g);
    assert !Full(g);
    assert !Before(row, col, s.row, s.col);
  }

}
