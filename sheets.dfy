/** The part of a spreadsheet worksheet that the test-plan copy uses: a grid
    of cell values addressed by 1-based row and column, whose cells can be
    read and overwritten one at a time. */
module Sheets {

  datatype Option<+T> = None | Some(value: T)

  /** A cell's value: a text, or None for an empty cell. */
  type Cell = Option<string>

  /** Sheet contents, row by row: sheet row `r` is `g[r - 1]`, and within a
      row, column `c` is the element at `c - 1`. */
  type Grid = seq<seq<Cell>>

  /** Every row holds at least this many leading columns (1..17, all the
      columns the copy reads or writes). */
  const Columns: nat := 17

  predicate WellFormed(g: Grid)
  {
    forall i :: 0 <= i < |g| ==> |g[i]| >= Columns
  }

  /** Sheet row `row` (1-based). */
  function Row(g: Grid, row: nat): seq<Cell>
    requires 1 <= row <= |g|
  {
    g[row - 1]
  }

  /** Column `col` (1-based) of a row. */
  function Get(cells: seq<Cell>, col: nat): Cell
    requires 1 <= col <= |cells|
  {
    cells[col - 1]
  }

  /** The cell at (`row`, `col`), both 1-based. */
  function At(g: Grid, row: nat, col: nat): Cell
    requires 1 <= row <= |g| && 1 <= col <= |Row(g, row)|
  {
    Get(Row(g, row), col)
  }

  /** A worksheet whose cell values are overwritten in place. */
  class Worksheet {
    var grid: Grid

    ghost predicate Valid()
      reads this
    {
      WellFormed(grid)
    }

    /** `ws.max_row`: the index of the last row. */
    function MaxRow(): nat
      reads this
    {
      |grid|
    }

    /** `ws.cell(row=row, column=col).value` */
    function Value(row: nat, col: nat): Cell
      reads this
      requires Valid() && 1 <= row <= MaxRow() && 1 <= col <= Columns
    {
      At(grid, row, col)
    }

    /** The values of the tuple of cells that `ws.iter_rows(..., min_col=1,
        max_col=17)` yields for sheet row `row`: tuple index `i` holds
        column `i + 1`. */
    function IterRow(row: nat): (t: seq<Cell>)
      reads this
      requires Valid() && 1 <= row <= MaxRow()
      ensures |t| == Columns
      ensures forall i :: 0 <= i < Columns ==> t[i] == Value(row, i + 1)
    {
      grid[row - 1][..Columns]
    }

    /** `ws.cell(row=row, column=col).value = v`: exactly that one cell
        changes. */
    method SetValue(row: nat, col: nat, v: Cell)
      requires Valid() && 1 <= row <= MaxRow() && 1 <= col <= Columns
      modifies this
      ensures Valid()
      ensures grid == old(grid)[row - 1 := old(grid)[row - 1][col - 1 := v]]
    {
      grid := grid[row - 1 := grid[row - 1][col - 1 := v]];
    }
  }
}
