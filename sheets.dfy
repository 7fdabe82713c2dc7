/**
 * A worksheet as the header locator and the row extractor see it: the row
 * count the workbook reader reports and a grid of text cells.
 */
module Sheets {

  /** `maxRow` is the bound the scans run to (the reader's `MaxRow`); `cells` holds the text of each row. */
  datatype Sheet = Sheet(maxRow: nat, cells: seq<seq<string>>)

  /**
   * The text at (row, col). Like the reader's `Row(i).Col(j)`, it never fails:
   * any position outside the grid, a negative one included, reads as "".
   */
  function Cell(s: Sheet, row: int, col: int): (text: string)
    ensures (0 <= row < |s.cells| && 0 <= col < |s.cells[row]|) ==> text == s.cells[row][col]
    ensures !(0 <= row < |s.cells| && 0 <= col < |s.cells[row]|) ==> text == ""
  {
    if 0 <= row < |s.cells| && 0 <= col < |s.cells[row]| then s.cells[row][col] else ""
  }
}
