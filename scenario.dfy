/**
 * A worked sheet: two title rows, the header in row 2 with the labels in
 * columns 0, 2 and 3 (the name in column 1), and three data rows, the
 * second of which has a price that is not a number.
 */
module Scenario {
  import opened Opt
  import opened Sheets
  import opened HeaderLocator
  import opened RowExtractor
  import Store
  import Writer

  function Example(): Sheet {
    Sheet(6, [
      ["Ноутбуки"],
      [],
      ["Код", "Наименование", "Цена, руб", "Бонусы"],
      ["101", "A", "500", "10"],
      ["102", "B", "n/a", "5"],
      ["103", "C", "700", "0"]
    ])
  }

  lemma ThreeDigits(s: string)
    requires |s| == 3 && Decimal.AllDigits(s)
    ensures Decimal.Atoi(s) ==
            Some(Decimal.DigitValue(s[0]) * 100 + Decimal.DigitValue(s[1]) * 10 + Decimal.DigitValue(s[2]))
  {
    assert s[..2][..1] == s[..1] && s[..1][..0] == [];
    assert Decimal.DigitsValue(s[..1]) == Decimal.DigitValue(s[0]);
    assert Decimal.DigitsValue(s[..2]) == Decimal.DigitValue(s[0]) * 10 + Decimal.DigitValue(s[1]);
    assert !Decimal.IsSign(s[0]);
  }

  /** The header is found in row 2 with the columns 0, 2 and 3. */
  lemma ExampleHeader()
    ensures !IsHeaderRow(Example(), 0) && !IsHeaderRow(Example(), 1) && IsHeaderRow(Example(), 2)
    ensures LastIn(Example(), 2, IdLabel, Window(2)) == 0
    ensures LastIn(Example(), 2, PriceLabel, Window(2)) == 2
    ensures LastIn(Example(), 2, BonusLabel, Window(2)) == 3
  {
    LastInIsRightmost(Example(), 0, PriceLabel, Window(0));
    LastInIsRightmost(Example(), 1, IdLabel, Window(1));
  }

  /**
   * Extraction from the header row on yields exactly the two rows whose
   * cells parse: the header row and the row with "n/a" are skipped.
   */
  lemma ExampleExtraction()
    ensures Observations(Example(), 2, 6, 0, 2, 3) == [Observation(101, 500, 10), Observation(103, 700, 0)]
  {
    HeaderRowIsSkipped(Example(), 2, 0, 2, 3);
    assert ParseRow(Example(), 4, 0, 2, 3) == None by {
      Decimal.NonNumericRejected("n/a", 0);
    }
    ThreeDigits("101");
    ThreeDigits("500");
    assert "10"[..1] == "1" && "1"[..0] == [] && Decimal.DigitsValue("1") == 1;
    assert Decimal.Atoi("10") == Some(10);
    assert ParseRow(Example(), 3, 0, 2, 3) == Some(Observation(101, 500, 10));
    ThreeDigits("103");
    ThreeDigits("700");
    assert Decimal.Atoi("0") == Some(0);
    assert ParseRow(Example(), 5, 0, 2, 3) == Some(Observation(103, 700, 0));
  }

  /**
   * A first run against an empty store with city id 0: the first `Write`
   * opens the store, gives the city the id 1, and records both values as
   * changed; the same write again reports nothing changed, with the store
   * still open and the city id kept.
   */
  method FirstRun() returns (first: Store.WriteResult, again: Store.WriteResult, cityID: int, open: bool)
    ensures first == Store.WriteResult(true, true, None)
    ensures again == Store.WriteResult(false, false, None)
    ensures cityID == 1 && open
  {
    var w := new Writer.SqliteWriter("prices.db", 0, "Moscow", 10, None, map[], Store.Tables(map[], [], []));
    var pc, bc, err := w.Write(5, "A", 100, 10);
    first := Store.WriteResult(pc, bc, err);
    assert w.cities == map[1 := "Moscow"];
    Store.WriteIdempotent(Store.Tables(map[], [], []), w.cities, 1, 10, 10, 5, "A", "A", 100, 10);
    pc, bc, err := w.Write(5, "A", 100, 10);
    again := Store.WriteResult(pc, bc, err);
    cityID, open := w.cityID, w.db;
  }
}
