/**
 * The header locator (`findData`): finds the first row of a sheet holding the
 * three column labels, searching in row `i` only the first `i + 5` columns.
 */
module HeaderLocator {
  import opened Opt
  import opened Sheets

  const IdLabel: string := "Код"
  const PriceLabel: string := "Цена, руб"
  const BonusLabel: string := "Бонусы"

  /** The error `findData` returns when no row qualifies. */
  const NoEntries: string := "No entries found"

  /**
   * Columns searched in row `row`: the reader cannot report a row's real
   * width, so the code allows one column per preceding row (a shop column)
   * plus the id, category, price and bonus columns and some leeway.
   */
  function Window(row: nat): nat {
    row + 5
  }

  /** The rightmost column below `width` of row `row` whose text is `heading`, or -1. */
  function LastIn(s: Sheet, row: int, heading: string, width: nat): (col: int)
    ensures -1 <= col < width
    ensures col >= 0 ==> Cell(s, row, col) == heading
  {
    if width == 0 then -1
    else if Cell(s, row, width - 1) == heading then width - 1
    else LastIn(s, row, heading, width - 1)
  }

  /** All three labels occur among the searched columns of row `row`. */
  predicate IsHeaderRow(s: Sheet, row: nat) {
    LastIn(s, row, IdLabel, Window(row)) >= 0 &&
    LastIn(s, row, PriceLabel, Window(row)) >= 0 &&
    LastIn(s, row, BonusLabel, Window(row)) >= 0
  }

  /**
   * `LastIn` is the rightmost occurrence: -1 exactly when the heading does not
   * occur below `width`, and otherwise a column holding the heading with no
   * occurrence to its right.
   */
  lemma {:induction false} LastInIsRightmost(s: Sheet, row: int, heading: string, width: nat)
    ensures LastIn(s, row, heading, width) == -1 <==>
            forall j :: 0 <= j < width ==> Cell(s, row, j) != heading
    ensures LastIn(s, row, heading, width) >= 0 ==>
            Cell(s, row, LastIn(s, row, heading, width)) == heading &&
            forall j :: LastIn(s, row, heading, width) < j < width ==> Cell(s, row, j) != heading
  {
    if width > 0 {
      LastInIsRightmost(s, row, heading, width - 1);
    }
  }

  /**
   * `findData`: the first row `i < maxRow` that is a header row, with the
   * column of each heading (its rightmost occurrence in the window, because a
   * later match overwrites an earlier one). The three columns are reset to -1
   * at the start of every row, so they always come from one row. When no row
   * qualifies, all four results are -1 and the error is "No entries found".
   */
  method FindData(s: Sheet) returns (firstRow: int, idCol: int, priceCol: int, bonusCol: int, err: Option<string>)
    ensures err.None? <==> exists i :: 0 <= i < s.maxRow && IsHeaderRow(s, i)
    ensures err.None? ==>
              0 <= firstRow < s.maxRow && IsHeaderRow(s, firstRow) &&
              (forall k :: 0 <= k < firstRow ==> !IsHeaderRow(s, k)) &&
              idCol == LastIn(s, firstRow, IdLabel, Window(firstRow)) &&
              priceCol == LastIn(s, firstRow, PriceLabel, Window(firstRow)) &&
              bonusCol == LastIn(s, firstRow, BonusLabel, Window(firstRow))
    ensures err.Some? ==>
              err == Some(NoEntries) && firstRow == -1 && idCol == -1 && priceCol == -1 && bonusCol == -1
  {
    var i := 0;
    idCol, priceCol, bonusCol := 0, 0, 0;
    while i < s.maxRow
      invariant 0 <= i <= s.maxRow
      invariant forall k :: 0 <= k < i ==> !IsHeaderRow(s, k)
    {
      idCol, priceCol, bonusCol := -1, -1, -1;
      var j := 0;
      while j < i + 5
        invariant 0 <= j <= Window(i)
        invariant idCol == LastIn(s, i, IdLabel, j)
        invariant priceCol == LastIn(s, i, PriceLabel, j)
        invariant bonusCol == LastIn(s, i, BonusLabel, j)
      {
        var val := Cell(s, i, j);
        if val == IdLabel {
          idCol := j;
        } else if val == PriceLabel {
          priceCol := j;
        } else if val == BonusLabel {
          bonusCol := j;
        }
        j := j + 1;
      }
      if idCol >= 0 && priceCol >= 0 && bonusCol >= 0 {
        break;
      }
      i := i + 1;
    }
    if i < s.maxRow {
      assert IsHeaderRow(s, i);
      return i, idCol, priceCol, bonusCol, None;
    }
    return -1, -1, -1, -1, Some(NoEntries);
  }

  /**
   * On success each returned column holds its own heading, lies inside the
   * searched window, and is the rightmost occurrence of that heading there.
   */
  lemma FoundColumnsHoldLabels(s: Sheet, row: nat)
    requires IsHeaderRow(s, row)
    ensures Cell(s, row, LastIn(s, row, IdLabel, Window(row))) == IdLabel
    ensures Cell(s, row, LastIn(s, row, PriceLabel, Window(row))) == PriceLabel
    ensures Cell(s, row, LastIn(s, row, BonusLabel, Window(row))) == BonusLabel
    ensures LastIn(s, row, IdLabel, Window(row)) < row + 5
    ensures LastIn(s, row, PriceLabel, Window(row)) < row + 5
    ensures LastIn(s, row, BonusLabel, Window(row)) < row + 5
    ensures forall j :: LastIn(s, row, IdLabel, Window(row)) < j < Window(row) ==> Cell(s, row, j) != IdLabel
    ensures forall j :: LastIn(s, row, PriceLabel, Window(row)) < j < Window(row) ==> Cell(s, row, j) != PriceLabel
    ensures forall j :: LastIn(s, row, BonusLabel, Window(row)) < j < Window(row) ==> Cell(s, row, j) != BonusLabel
  {
    LastInIsRightmost(s, row, IdLabel, Window(row));
    LastInIsRightmost(s, row, PriceLabel, Window(row));
    LastInIsRightmost(s, row, BonusLabel, Window(row));
  }

  /**
   * A row is a header row exactly when each heading occurs somewhere among its
   * first `row + 5` columns; a row with only one or two of them is not.
   */
  lemma HeaderRowIffAllLabelsPresent(s: Sheet, row: nat)
    ensures IsHeaderRow(s, row) <==>
              (exists j :: 0 <= j < Window(row) && Cell(s, row, j) == IdLabel) &&
              (exists j :: 0 <= j < Window(row) && Cell(s, row, j) == PriceLabel) &&
              (exists j :: 0 <= j < Window(row) && Cell(s, row, j) == BonusLabel)
  {
    LastInIsRightmost(s, row, IdLabel, Window(row));
    LastInIsRightmost(s, row, PriceLabel, Window(row));
    LastInIsRightmost(s, row, BonusLabel, Window(row));
  }
}
