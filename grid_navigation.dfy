/**
 * The desktop grid: desktops are numbered row by row on a `rows` x `columns`
 * grid, and the arrow hotkeys move to the neighbouring index, optionally
 * wrapping around at the edges. All arithmetic is C#'s truncating `/` and `%`.
 */
module GridNavigation {
  import opened CSharpInt

  /** The grid part of the settings: its dimensions and the wrap-around flag. */
  datatype Grid = Grid(rows: int, columns: int, wrapAround: bool)

  /** Positive dimensions: with zero columns `ColumnOf` and `RowOf` would divide by zero. */
  predicate ValidGrid(g: Grid) { g.rows >= 1 && g.columns >= 1 }

  /** Number of desktops the grid asks for. */
  function DesktopCount(g: Grid): int { g.rows * g.columns }

  predicate InGrid(g: Grid, index: int) { 0 <= index < DesktopCount(g) }

  /** The column of `index`, counted from 0 at the left; it is shifted by one row
      first so that the index just before 0 still lands in the last column. */
  function ColumnOf(g: Grid, index: int): int
    requires ValidGrid(g)
  {
    Rem(index + g.columns, g.columns)
  }

  /** The row of `index`, counted from 0 at the top, taken round the number of
      rows so that one row past either end lands back on the grid. */
  function RowOf(g: Grid, index: int): int
    requires ValidGrid(g)
  {
    Rem(Quot(index, g.columns) + g.rows, g.rows)
  }

  function Left(g: Grid, current: int): int
    requires ValidGrid(g)
  {
    if ColumnOf(g, current - 1) < ColumnOf(g, current) then current - 1
    else if g.wrapAround then current + g.columns - 1
    else current
  }

  function Right(g: Grid, current: int): int
    requires ValidGrid(g)
  {
    if ColumnOf(g, current + 1) > ColumnOf(g, current) then current + 1
    else if g.wrapAround then current - g.columns + 1
    else current
  }

  function Up(g: Grid, current: int): int
    requires ValidGrid(g)
  {
    if RowOf(g, current - g.columns) < RowOf(g, current) then current - g.columns
    else if g.wrapAround then (g.rows - 1) * g.columns + ColumnOf(g, current)
    else current
  }

  function Down(g: Grid, current: int): int
    requires ValidGrid(g)
  {
    if RowOf(g, current + g.columns) > RowOf(g, current) then current + g.columns
    else if g.wrapAround then ColumnOf(g, current)
    else current
  }

  // ---------------------------------------------------------------------------
  // Where things are on the grid

  /** From `-Columns` upwards the truncating arithmetic still yields a column in
      `[0, Columns)` and a row in `[0, Rows)`; the navigation never asks about
      anything lower than `Current - Columns`. */
  lemma ColumnAndRowInRange(g: Grid, index: int)
    requires ValidGrid(g) && index >= -g.columns
    ensures 0 <= ColumnOf(g, index) < g.columns
    ensures 0 <= RowOf(g, index) < g.rows
  {
    RemBounds(index + g.columns, g.columns);
    var q := Quot(index, g.columns);
    if index >= 0 {
      NonNegativeAgrees(index, g.columns);
    } else {
      QuotJustBelowZero(index, g.columns);
    }
    assert q >= -1;
    RemBounds(q + g.rows, g.rows);
  }

  /** Inside the grid the column and the row are the Euclidean remainder and quotient. */
  lemma {:induction false} PositionInGrid(g: Grid, index: int)
    requires ValidGrid(g) && InGrid(g, index)
    ensures ColumnOf(g, index) == index % g.columns
    ensures RowOf(g, index) == index / g.columns
    ensures index == RowOf(g, index) * g.columns + ColumnOf(g, index)
  {
    var c, k := g.columns, index % g.columns;
    var r := index / g.columns;
    NonNegativeAgrees(index + c, c);
    DivModOf(index + c, c, r + 1, k);
    NonNegativeAgrees(index, c);
    assert r < g.rows by {
      if r >= g.rows {
        ScaledAwayFromZero(r - g.rows + 1, c);
      }
    }
    NonNegativeAgrees(r + g.rows, g.rows);
    DivModOf(r + g.rows, g.rows, 1, r);
  }

  /** The grid index of a (row, column) position: the desktops are exactly the
      `Rows * Columns` cells of the grid, in row-major order. */
  lemma {:induction false} CellIndex(g: Grid, row: int, column: int)
    requires ValidGrid(g) && 0 <= row < g.rows && 0 <= column < g.columns
    ensures InGrid(g, row * g.columns + column)
    ensures RowOf(g, row * g.columns + column) == row
    ensures ColumnOf(g, row * g.columns + column) == column
  {
    var index := row * g.columns + column;
    ScaledAwayFromZero(g.rows - row, g.columns);
    assert (g.rows - row) * g.columns == DesktopCount(g) - row * g.columns;
    PositionInGrid(g, index);
    DivModOf(index, g.columns, row, column);
  }

  /** Two grid indexes with the same row and the same column are the same index. */
  lemma PositionDeterminesIndex(g: Grid, i: int, j: int)
    requires ValidGrid(g) && InGrid(g, i) && InGrid(g, j)
    requires RowOf(g, i) == RowOf(g, j) && ColumnOf(g, i) == ColumnOf(g, j)
    ensures i == j
  {
    PositionInGrid(g, i);
    PositionInGrid(g, j);
  }

  // ---------------------------------------------------------------------------
  // What each arrow does, in terms of rows and columns

  /** The column of the index just before a grid index. */
  lemma ColumnBefore(g: Grid, current: int)
    requires ValidGrid(g) && InGrid(g, current)
    ensures ColumnOf(g, current - 1) == if current % g.columns == 0 then g.columns - 1 else current % g.columns - 1
  {
    var c, k, r := g.columns, current % g.columns, current / g.columns;
    NonNegativeAgrees(current - 1 + c, c);
    if k == 0 {
      DivModOf(current - 1 + c, c, r, c - 1);
    } else {
      DivModOf(current - 1 + c, c, r + 1, k - 1);
    }
  }

  /** The column of the index just after a grid index. */
  lemma ColumnAfter(g: Grid, current: int)
    requires ValidGrid(g) && InGrid(g, current)
    ensures ColumnOf(g, current + 1) == if current % g.columns == g.columns - 1 then 0 else current % g.columns + 1
  {
    var c, k, r := g.columns, current % g.columns, current / g.columns;
    NonNegativeAgrees(current + 1 + c, c);
    if k == c - 1 {
      DivModOf(current + 1 + c, c, r + 2, 0);
    } else {
      DivModOf(current + 1 + c, c, r + 1, k + 1);
    }
  }

  /** The row of the index one row back. In the first row the truncating `/`
      gives `Rows - 1` for index 0 and row 0 for the others, never a smaller row
      than the current one. */
  lemma RowBefore(g: Grid, current: int)
    requires ValidGrid(g) && InGrid(g, current)
    ensures current / g.columns == 0 ==>
      RowOf(g, current - g.columns) == if current == 0 then g.rows - 1 else 0
    ensures current / g.columns != 0 ==> RowOf(g, current - g.columns) == current / g.columns - 1
  {
    var c, k, r := g.columns, current % g.columns, current / g.columns;
    PositionInGrid(g, current);
    ColumnAndRowInRange(g, current);
    assert 0 <= r < g.rows;
    if r == 0 {
      QuotJustBelowZero(current - c, c);
      var q := Quot(current - c, c);
      NonNegativeAgrees(q + g.rows, g.rows);
      if current == 0 {
        DivModOf(g.rows - 1, g.rows, 0, g.rows - 1);
      } else {
        DivModOf(g.rows, g.rows, 1, 0);
      }
    } else {
      OneRowBack(current, c, r, k);
      NonNegativeAgrees(current - c, c);
      DivModOf(current - c, c, r - 1, k);
      NonNegativeAgrees(r - 1 + g.rows, g.rows);
      DivModOf(r - 1 + g.rows, g.rows, 1, r - 1);
    }
  }

  /** Stepping one row back from row `r` keeps the column. */
  lemma OneRowBack(current: int, c: int, r: int, k: int)
    requires c > 0 && r == current / c && k == current % c
    ensures current - c == (r - 1) * c + k
  {
    assert current == r * c + k;
    assert (r - 1) * c == r * c - c;
  }

  /** Stepping one row on from row `r` keeps the column. */
  lemma OneRowOn(current: int, c: int, r: int, k: int)
    requires c > 0 && r == current / c && k == current % c
    ensures current + c == (r + 1) * c + k
  {
    assert current == r * c + k;
    assert (r + 1) * c == r * c + c;
  }

  /** The row of the index one row on: the next row, or row 0 past the last row. */
  lemma RowAfter(g: Grid, current: int)
    requires ValidGrid(g) && InGrid(g, current)
    ensures RowOf(g, current + g.columns) == if current / g.columns == g.rows - 1 then 0 else current / g.columns + 1
  {
    var c, k, r := g.columns, current % g.columns, current / g.columns;
    PositionInGrid(g, current);
    ColumnAndRowInRange(g, current);
    OneRowOn(current, c, r, k);
    NonNegativeAgrees(current + c, c);
    DivModOf(current + c, c, r + 1, k);
    NonNegativeAgrees(r + 1 + g.rows, g.rows);
    if r == g.rows - 1 {
      DivModOf(r + 1 + g.rows, g.rows, 2, 0);
    } else {
      DivModOf(r + 1 + g.rows, g.rows, 1, r + 1);
    }
  }

  /** Left: one column back, or at the first column the last column of the same
      row (wrap-around) or nowhere. */
  lemma LeftMoves(g: Grid, current: int)
    requires ValidGrid(g) && InGrid(g, current)
    ensures ColumnOf(g, current) != 0 ==> Left(g, current) == current - 1
    ensures ColumnOf(g, current) == 0 ==>
      Left(g, current) == if g.wrapAround then current + g.columns - 1 else current
  {
    PositionInGrid(g, current);
    ColumnBefore(g, current);
  }

  /** Right: one column on, or at the last column the first column of the same
      row (wrap-around) or nowhere. */
  lemma RightMoves(g: Grid, current: int)
    requires ValidGrid(g) && InGrid(g, current)
    ensures ColumnOf(g, current) != g.columns - 1 ==> Right(g, current) == current + 1
    ensures ColumnOf(g, current) == g.columns - 1 ==>
      Right(g, current) == if g.wrapAround then current - g.columns + 1 else current
  {
    PositionInGrid(g, current);
    ColumnAfter(g, current);
  }

  /** Up: one row back, or in the first row the same column of the last row
      (wrap-around) or nowhere. */
  lemma UpMoves(g: Grid, current: int)
    requires ValidGrid(g) && InGrid(g, current)
    ensures RowOf(g, current) != 0 ==> Up(g, current) == current - g.columns
    ensures RowOf(g, current) == 0 ==>
      Up(g, current) == if g.wrapAround then (g.rows - 1) * g.columns + ColumnOf(g, current) else current
  {
    PositionInGrid(g, current);
    RowBefore(g, current);
  }

  /** Down: one row on, or in the last row the same column of the first row
      (wrap-around) or nowhere. */
  lemma DownMoves(g: Grid, current: int)
    requires ValidGrid(g) && InGrid(g, current)
    ensures RowOf(g, current) != g.rows - 1 ==> Down(g, current) == current + g.columns
    ensures RowOf(g, current) == g.rows - 1 ==>
      Down(g, current) == if g.wrapAround then ColumnOf(g, current) else current
  {
    PositionInGrid(g, current);
    ColumnAndRowInRange(g, current);
    RowAfter(g, current);
  }

  // ---------------------------------------------------------------------------
  // Where each arrow lands, as a (row, column) position

  lemma LeftLands(g: Grid, current: int)
    requires ValidGrid(g) && InGrid(g, current)
    ensures InGrid(g, Left(g, current))
    ensures RowOf(g, Left(g, current)) == RowOf(g, current)
    ensures ColumnOf(g, Left(g, current)) ==
      if ColumnOf(g, current) != 0 then ColumnOf(g, current) - 1
      else if g.wrapAround then g.columns - 1 else 0
  {
    PositionInGrid(g, current);
    LeftMoves(g, current);
    var r, k := RowOf(g, current), ColumnOf(g, current);
    var col := if k != 0 then k - 1 else if g.wrapAround then g.columns - 1 else 0;
    ColumnAndRowInRange(g, current);
    CellIndex(g, r, col);
    assert Left(g, current) == r * g.columns + col;
  }

  lemma RightLands(g: Grid, current: int)
    requires ValidGrid(g) && InGrid(g, current)
    ensures InGrid(g, Right(g, current))
    ensures RowOf(g, Right(g, current)) == RowOf(g, current)
    ensures ColumnOf(g, Right(g, current)) ==
      if ColumnOf(g, current) != g.columns - 1 then ColumnOf(g, current) + 1
      else if g.wrapAround then 0 else g.columns - 1
  {
    PositionInGrid(g, current);
    RightMoves(g, current);
    var r, k := RowOf(g, current), ColumnOf(g, current);
    var col := if k != g.columns - 1 then k + 1 else if g.wrapAround then 0 else g.columns - 1;
    ColumnAndRowInRange(g, current);
    CellIndex(g, r, col);
    assert Right(g, current) == r * g.columns + col;
  }

  lemma UpLands(g: Grid, current: int)
    requires ValidGrid(g) && InGrid(g, current)
    ensures InGrid(g, Up(g, current))
    ensures ColumnOf(g, Up(g, current)) == ColumnOf(g, current)
    ensures RowOf(g, Up(g, current)) ==
      if RowOf(g, current) != 0 then RowOf(g, current) - 1
      else if g.wrapAround then g.rows - 1 else 0
  {
    PositionInGrid(g, current);
    UpMoves(g, current);
    var r, k := RowOf(g, current), ColumnOf(g, current);
    var row := if r != 0 then r - 1 else if g.wrapAround then g.rows - 1 else 0;
    ColumnAndRowInRange(g, current);
    CellIndex(g, row, k);
    if r != 0 {
      OneRowBack(current, g.columns, r, k);
    }
    assert Up(g, current) == row * g.columns + k;
  }

  lemma DownLands(g: Grid, current: int)
    requires ValidGrid(g) && InGrid(g, current)
    ensures InGrid(g, Down(g, current))
    ensures ColumnOf(g, Down(g, current)) == ColumnOf(g, current)
    ensures RowOf(g, Down(g, current)) ==
      if RowOf(g, current) != g.rows - 1 then RowOf(g, current) + 1
      else if g.wrapAround then 0 else g.rows - 1
  {
    PositionInGrid(g, current);
    DownMoves(g, current);
    var r, k := RowOf(g, current), ColumnOf(g, current);
    var row := if r != g.rows - 1 then r + 1 else if g.wrapAround then 0 else g.rows - 1;
    ColumnAndRowInRange(g, current);
    CellIndex(g, row, k);
    if r != g.rows - 1 {
      OneRowOn(current, g.columns, r, k);
    }
    assert Down(g, current) == row * g.columns + k;
  }

  // ---------------------------------------------------------------------------
  // The properties the hotkeys rely on

  /** From any desktop of the grid every arrow leads to a desktop of the grid. */
  lemma NavigationStaysInGrid(g: Grid, current: int)
    requires ValidGrid(g) && InGrid(g, current)
    ensures InGrid(g, Left(g, current)) && InGrid(g, Right(g, current))
    ensures InGrid(g, Up(g, current)) && InGrid(g, Down(g, current))
  {
    LeftLands(g, current);
    RightLands(g, current);
    UpLands(g, current);
    DownLands(g, current);
  }

  /** Left and Right stay in the row; Up and Down stay in the column. */
  lemma ArrowsKeepTheirLine(g: Grid, current: int)
    requires ValidGrid(g) && InGrid(g, current)
    ensures RowOf(g, Left(g, current)) == RowOf(g, current)
    ensures RowOf(g, Right(g, current)) == RowOf(g, current)
    ensures ColumnOf(g, Up(g, current)) == ColumnOf(g, current)
    ensures ColumnOf(g, Down(g, current)) == ColumnOf(g, current)
  {
    LeftLands(g, current);
    RightLands(g, current);
    UpLands(g, current);
    DownLands(g, current);
  }

  /** Without wrap-around an arrow stays put exactly at the matching edge. */
  lemma EdgesStopWithoutWrap(g: Grid, current: int)
    requires ValidGrid(g) && InGrid(g, current) && !g.wrapAround
    ensures Left(g, current) == current <==> ColumnOf(g, current) == 0
    ensures Right(g, current) == current <==> ColumnOf(g, current) == g.columns - 1
    ensures Up(g, current) == current <==> RowOf(g, current) == 0
    ensures Down(g, current) == current <==> RowOf(g, current) == g.rows - 1
  {
    LeftMoves(g, current);
    RightMoves(g, current);
    UpMoves(g, current);
    DownMoves(g, current);
  }

  /** With wrap-around the grid is a torus: each arrow is undone by its opposite. */
  lemma WrapArrowsAreInverse(g: Grid, current: int)
    requires ValidGrid(g) && InGrid(g, current) && g.wrapAround
    ensures Right(g, Left(g, current)) == current
    ensures Left(g, Right(g, current)) == current
    ensures Down(g, Up(g, current)) == current
    ensures Up(g, Down(g, current)) == current
  {
    ColumnAndRowInRange(g, current);
    LeftLands(g, current);
    RightLands(g, current);
    UpLands(g, current);
    DownLands(g, current);
    var left, right, up, down := Left(g, current), Right(g, current), Up(g, current), Down(g, current);
    RightLands(g, left);
    LeftLands(g, right);
    DownLands(g, up);
    UpLands(g, down);
    PositionDeterminesIndex(g, Right(g, left), current);
    PositionDeterminesIndex(g, Left(g, right), current);
    PositionDeterminesIndex(g, Down(g, up), current);
    PositionDeterminesIndex(g, Up(g, down), current);
  }

  /** A 3 x 3 grid from desktop 0 (top left), without wrap-around: Left and Up
      stay, Right and Down move. */
  lemma ThreeByThreeLeft() ensures Left(Grid(3, 3, false), 0) == 0 {}
  lemma ThreeByThreeUp() ensures Up(Grid(3, 3, false), 0) == 0 {}
  lemma ThreeByThreeRight() ensures Right(Grid(3, 3, false), 0) == 1 {}
  lemma ThreeByThreeDown() ensures Down(Grid(3, 3, false), 0) == 3 {}

  /** The same grid with wrap-around: Left goes to the end of the row, Up to
      the bottom of the column. */
  lemma ThreeByThreeWrapLeft() ensures Left(Grid(3, 3, true), 0) == 2 {}
  lemma ThreeByThreeWrapUp() ensures Up(Grid(3, 3, true), 0) == 6 {}
}
