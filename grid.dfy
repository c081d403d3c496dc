/**
 * The 3x3 button grid of the main window: position index i in 0..8 sits at
 * column i % 3 and grid row i / 3 + 1 (grid row 0 holds the window's own
 * controls), and the first-free scan over the FilledPositions flags.
 */
module Grid {

  datatype Option<T> = None | Some(value: T)

  /** BUTTONS_NUMBER: the number of positions in the grid. */
  const Positions := 9

  function ColumnOf(i: int): int { i % 3 }

  function RowOf(i: int): int { i / 3 + 1 }

  /** `ColumnNumber + (RowNumber - 1) * 3`, the FilledPositions index of a grid cell. */
  function IndexOf(column: int, row: int): int { column + (row - 1) * 3 }

  /** A cell a button may occupy: three columns by grid rows 1 to 3. */
  predicate OnGrid(column: int, row: int) {
    0 <= column <= 2 && 1 <= row <= 3
  }

  /** Index and cell are converted back and forth without loss, in both directions. */
  lemma PositionRoundTrip(i: int, column: int, row: int)
    ensures 0 <= i < Positions ==>
      OnGrid(ColumnOf(i), RowOf(i)) && IndexOf(ColumnOf(i), RowOf(i)) == i
    ensures OnGrid(column, row) ==>
      0 <= IndexOf(column, row) < Positions &&
      ColumnOf(IndexOf(column, row)) == column && RowOf(IndexOf(column, row)) == row
  {
  }

  /** Any column 0 to 2 and any row, on the grid or past it, is recovered from its index. */
  lemma CellOfIndex(column: int, row: int)
    requires 0 <= column <= 2
    ensures ColumnOf(IndexOf(column, row)) == column && RowOf(IndexOf(column, row)) == row
  {
    var i := IndexOf(column, row);
    assert i == (row - 1) * 3 + column;
  }

  /**
   * The cursor step after a button is placed: the column moves right and wraps
   * to 0 on the next row after column 2.
   */
  function Advance(column: int, row: int): (int, int) {
    if column + 1 > 2 then (0, row + 1) else (column + 1, row)
  }

  /** Advancing the cursor moves it to the next index in row-major order. */
  lemma AdvanceIsNextIndex(column: int, row: int)
    requires 0 <= column <= 2
    ensures 0 <= Advance(column, row).0 <= 2
    ensures IndexOf(Advance(column, row).0, Advance(column, row).1) == IndexOf(column, row) + 1
  {
  }

  /** The lowest index whose flag is false, if any. */
  function FirstFree(filled: seq<bool>): (r: Option<nat>)
    ensures r.Some? ==> r.value < |filled| && !filled[r.value]
    ensures r.Some? ==> forall j :: 0 <= j < r.value ==> filled[j]
    ensures r.None? ==> forall j :: 0 <= j < |filled| ==> filled[j]
  {
    if filled == [] then None
    else if !filled[0] then Some(0)
    else match FirstFree(filled[1..])
      case None => None
      case Some(i) => Some(i + 1)
  }
}
