/**
 * The row extractor (`extractData`): walks the rows from the header row up
 * to `maxRow`, parses the id, price and bonus cells as integers, skips the
 * rows where one of them does not parse and hands the others to the writer.
 */
module RowExtractor {
  import opened Opt
  import opened Sheets
  import opened Decimal

  /** One parsed row: what the extractor passes to the writer. */
  datatype Observation = Observation(id: int, price: int, bonus: int)

  /**
   * The writer, seen from the extractor: the `k`-th call (counting from 0)
   * with a given observation either succeeds (`true`) or returns an error.
   */
  type WriteOracle = (nat, Observation) -> bool

  /** The observation in row `row`, or None when any of the three cells fails to parse. */
  function ParseRow(s: Sheet, row: int, idCol: int, priceCol: int, bonusCol: int): (r: Option<Observation>)
    ensures r.Some? <==>
              IsDecimal(Cell(s, row, idCol)) && IsDecimal(Cell(s, row, priceCol)) && IsDecimal(Cell(s, row, bonusCol))
    ensures r.Some? ==>
              Atoi(Cell(s, row, idCol)) == Some(r.value.id) &&
              Atoi(Cell(s, row, priceCol)) == Some(r.value.price) &&
              Atoi(Cell(s, row, bonusCol)) == Some(r.value.bonus)
  {
    var id := Atoi(Cell(s, row, idCol));
    var price := Atoi(Cell(s, row, priceCol));
    var bonus := Atoi(Cell(s, row, bonusCol));
    if id.Some? && price.Some? && bonus.Some? then Some(Observation(id.value, price.value, bonus.value))
    else None
  }

  /** The observations of the rows `lo .. hi - 1`, in row order, parse failures dropped. */
  function Observations(s: Sheet, lo: int, hi: int, idCol: int, priceCol: int, bonusCol: int): seq<Observation>
    decreases hi - lo
  {
    if hi <= lo then []
    else
      var earlier := Observations(s, lo, hi - 1, idCol, priceCol, bonusCol);
      match ParseRow(s, hi - 1, idCol, priceCol, bonusCol)
      case Some(o) => earlier + [o]
      case None => earlier
  }

  /** The rows `lo .. hi - 1` whose three cells all parse. */
  function ParsedRows(s: Sheet, lo: int, hi: int, idCol: int, priceCol: int, bonusCol: int): set<int> {
    set row | lo <= row < hi && ParseRow(s, row, idCol, priceCol, bonusCol).Some?
  }

  /** How many of the calls made for `obs` the writer accepted. */
  function Accepted(obs: seq<Observation>, ok: WriteOracle): nat {
    if obs == [] then 0
    else Accepted(obs[..|obs| - 1], ok) + (if ok(|obs| - 1, obs[|obs| - 1]) then 1 else 0)
  }

  /** The number of rows from `lo` up to `hi`, none when `hi <= lo`. */
  function Span(lo: int, hi: int): nat {
    if hi <= lo then 0 else hi - lo
  }

  /**
   * `extractData`: `extracted` counts the rows from `firstRow` (the header
   * row itself included) up to `maxRow` whose three cells parse, and
   * `written` counts the writer calls among them that succeeded.
   */
  method ExtractData(s: Sheet, ok: WriteOracle, firstRow: int, idCol: int, priceCol: int, bonusCol: int)
    returns (extracted: int, written: int)
    ensures extracted == |Observations(s, firstRow, s.maxRow, idCol, priceCol, bonusCol)|
    ensures written == Accepted(Observations(s, firstRow, s.maxRow, idCol, priceCol, bonusCol), ok)
    ensures 0 <= written <= extracted <= Span(firstRow, s.maxRow)
  {
    extracted, written := 0, 0;
    ghost var obs: seq<Observation> := [];
    var i := firstRow;
    while i < s.maxRow
      invariant firstRow <= i && (i <= s.maxRow || i == firstRow)
      invariant obs == Observations(s, firstRow, i, idCol, priceCol, bonusCol)
      invariant extracted == |obs| && written == Accepted(obs, ok)
      invariant 0 <= written <= extracted <= Span(firstRow, i)
    {
      var id := Atoi(Cell(s, i, idCol));
      var price := Atoi(Cell(s, i, priceCol));
      var bonus := Atoi(Cell(s, i, bonusCol));
      if id.None? || price.None? || bonus.None? {
        assert ParseRow(s, i, idCol, priceCol, bonusCol) == None;
        assert Observations(s, firstRow, i + 1, idCol, priceCol, bonusCol) == obs;
        i := i + 1;
        continue;
      }
      var o := Observation(id.value, price.value, bonus.value);
      assert ParseRow(s, i, idCol, priceCol, bonusCol) == Some(o);
      assert Observations(s, firstRow, i + 1, idCol, priceCol, bonusCol) == obs + [o];
      AcceptedAppend(obs, o, ok);
      obs := obs + [o];
      extracted := extracted + 1;
      if ok(extracted - 1, o) {
        written := written + 1;
      }
      i := i + 1;
    }
  }

  lemma AcceptedAppend(obs: seq<Observation>, o: Observation, ok: WriteOracle)
    ensures Accepted(obs + [o], ok) == Accepted(obs, ok) + (if ok(|obs|, o) then 1 else 0)
  {
    assert (obs + [o])[..|obs|] == obs;
  }

  /**
   * A row is extracted exactly when its id, price and bonus cells all parse:
   * the count of observations is the number of such rows.
   */
  lemma {:induction false} ObservationsCountParsedRows(s: Sheet, lo: int, hi: int, idCol: int, priceCol: int, bonusCol: int)
    ensures |Observations(s, lo, hi, idCol, priceCol, bonusCol)| == |ParsedRows(s, lo, hi, idCol, priceCol, bonusCol)|
    decreases hi - lo
  {
    if hi > lo {
      ObservationsCountParsedRows(s, lo, hi - 1, idCol, priceCol, bonusCol);
      ParsedRowsStep(s, lo, hi, idCol, priceCol, bonusCol);
    } else {
      ParsedRowsEmpty(s, lo, hi, idCol, priceCol, bonusCol);
    }
  }

  lemma ParsedRowsEmpty(s: Sheet, lo: int, hi: int, idCol: int, priceCol: int, bonusCol: int)
    requires hi <= lo
    ensures ParsedRows(s, lo, hi, idCol, priceCol, bonusCol) == {}
  {
    var none: set<int> := {};
    assert forall r :: r in ParsedRows(s, lo, hi, idCol, priceCol, bonusCol) <==> r in none;
  }

  lemma ParsedRowsStep(s: Sheet, lo: int, hi: int, idCol: int, priceCol: int, bonusCol: int)
    requires lo < hi
    ensures var before := ParsedRows(s, lo, hi - 1, idCol, priceCol, bonusCol);
            hi - 1 !in before &&
            ParsedRows(s, lo, hi, idCol, priceCol, bonusCol) ==
              if ParseRow(s, hi - 1, idCol, priceCol, bonusCol).Some? then before + {hi - 1} else before
  {
  }

  /** Every extracted observation comes from a row in range whose cells parse to it. */
  lemma {:induction false} ObservationsComeFromRows(s: Sheet, lo: int, hi: int, idCol: int, priceCol: int, bonusCol: int, k: nat)
    requires k < |Observations(s, lo, hi, idCol, priceCol, bonusCol)|
    ensures exists row :: lo <= row < hi &&
              ParseRow(s, row, idCol, priceCol, bonusCol) == Some(Observations(s, lo, hi, idCol, priceCol, bonusCol)[k])
    decreases hi - lo
  {
    var earlier := Observations(s, lo, hi - 1, idCol, priceCol, bonusCol);
    if k < |earlier| {
      ObservationsComeFromRows(s, lo, hi - 1, idCol, priceCol, bonusCol, k);
    } else {
      assert ParseRow(s, hi - 1, idCol, priceCol, bonusCol) == Some(Observations(s, lo, hi, idCol, priceCol, bonusCol)[k]);
    }
  }

  /**
   * The header row is never extracted, although the scan starts on it: its
   * id cell holds the label "Код", which is not a number.
   */
  lemma HeaderRowIsSkipped(s: Sheet, row: int, idCol: int, priceCol: int, bonusCol: int)
    requires Cell(s, row, idCol) == "Код"
    ensures ParseRow(s, row, idCol, priceCol, bonusCol) == None
  {
    NonNumericRejected(Cell(s, row, idCol), 0);
  }
}
