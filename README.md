# DNSPrices ingestion core in Dafny

DNSPrices reads a retailer's price-list workbook (one file per city, one sheet
per product category) and records each product's price and loyalty bonus in a
SQLite store, adding a row only when a value changed since the last
observation for that product and city. This project models the three pieces
of logic that carry that behaviour and proves properties of them:

- **Header locator** (`findData`, `HeaderLocator.FindData`): a nested loop that
  finds the first row holding the labels "Код", "Цена, руб" and "Бонусы"
  within its first `row + 5` columns.
- **Row extractor** (`extractData`, `RowExtractor.ExtractData`): a loop that
  parses the id, price and bonus cells of each row with `strconv.Atoi`
  (`Decimal.Atoi`), skips rows that do not parse, and counts rows extracted
  and rows the writer accepted.
- **City name** (`parseCity`, `CityName.ParseCity`): the file-name part
  between the last `-` and the last `.`.
- **Change-detection writer** (`SqliteWriter`, class `Writer.SqliteWriter`):
  lazy open with a sticky failure flag, city id resolution, item upsert,
  price and bonus change detection inside one transaction, and `Close`.
  The SQL tables are values (`Store`): `map<int, Option<string>>` for items,
  `map<int, string>` for cities, `seq<Row>` for prices and bonuses, with the
  schema's UNIQUE and foreign-key constraints. "Latest" is the row with the
  greatest date, as `ORDER BY date DESC LIMIT 1` selects it.

Modules: `Opt` (Option), `Sheets` (sheet and total cell accessor), `Decimal`,
`HeaderLocator`, `RowExtractor`, `CityName`, `Store` (table operations and
the writer's specification), `Writer` (the class), `Scenario` (a worked sheet).

Where the code departs from what one would naturally expect of it, the model
follows the code:

- Duplicate labels: the **last** occurrence in the window wins, because each
  match overwrites the column (main.go:24-31), not the first as one might expect.
- Extraction starts **at** the header row, not below it; the header row is
  dropped only because "Код" is not a number (`RowExtractor.HeaderRowIsSkipped`).
- The extractor never reads the name column.
- An empty name "" is stored as a non-NULL string, so it is never backfilled
  by a later non-empty name (`Store.StoredNameKept`), although filling in a
  missing name is what the upsert is for.
- A second, different value for the same item and city within one run breaks
  the UNIQUE (itemId, cityId, date) constraint, since every row of a run
  carries the run's timestamp: nothing is appended and the write reports the
  error (`Store.SecondChangeInRunRejected`).
- `Close` rolls back only a live transaction with `fail` set, and `fail` is
  set only when opening failed, which never leaves a transaction: the
  rollback branch is unreachable from a freshly made writer
  (`TxOnlyWithoutFailure`, kept by every method).
- `initCityID` ignores its errors. With a non-zero `cityID` that is absent
  while the name is taken by another id, the insert fails silently, the id
  stays absent, and every later price or bonus insert fails its foreign key.

## Model

| member | source | states |
|---|---|---|
| `Sheets.Cell` | main.go:23 | a cell inside the grid reads its text; any position outside it, negative ones included, reads "" |
| `Decimal.Atoi` | main.go:49-51 | parses exactly the texts of the form optional sign then one or more digits; the sign of the result follows the text's sign |
| `Decimal.AtoiItoa` | main.go:49-51 | every integer's canonical decimal text parses back to that integer |
| `Decimal.LeadingZeroValue` | main.go:49-51 | a leading zero keeps a digit run's value |
| `Decimal.AtoiNonCanonical` | main.go:49-51 | a leading zero or a leading '+' on unsigned text leaves what `Atoi` returns unchanged ("007" reads 7, "+5" reads 5) |
| `Decimal.NonNumericRejected` | main.go:52-53 | a text holding a character that is neither a digit nor a sign fails to parse |
| `HeaderLocator.LastIn` | main.go:22-32 | the column kept for a label is -1 or inside the window, and when not -1 holds the label |
| `HeaderLocator.LastInIsRightmost` | main.go:22-32 | the column kept for a label is -1 exactly when the label is absent from the window, and otherwise holds the label with no occurrence to its right |
| `HeaderLocator.FindData` | main.go:13-41 | succeeds iff some row below maxRow has all three labels in its window; returns the first such row with each label's rightmost column, all from that one row; otherwise (-1, -1, -1, -1) and "No entries found" |
| `HeaderLocator.FoundColumnsHoldLabels` | main.go:24-31 | on a header row each returned column holds its own label, lies below row + 5, and has no later occurrence of that label in the window |
| `HeaderLocator.HeaderRowIffAllLabelsPresent` | main.go:33-35 | a row qualifies iff each of the three labels occurs in its window; one or two labels are not enough |
| `RowExtractor.ParseRow` | main.go:49-53 | a row yields an observation iff its id, price and bonus cells are all decimal text, and the observation holds the three parsed values |
| `RowExtractor.ExtractData` | main.go:43-63 | `extracted` is the number of rows from firstRow to maxRow whose three cells parse, `written` the number of those writer calls that succeeded, and 0 <= written <= extracted <= the number of rows scanned |
| `RowExtractor.ObservationsCountParsedRows` | main.go:47-55 | the number of observations equals the number of rows in range whose id, price and bonus cells all parse |
| `RowExtractor.ObservationsComeFromRows` | main.go:49-55 | every extracted observation is the parse of some row in range |
| `RowExtractor.HeaderRowIsSkipped` | main.go:47-53 | the header row, whose id cell is "Код", is never extracted although the scan starts on it |
| `CityName.LastIndex` | main.go:76-77 | the result is -1 or a position holding the separator, and no later position holds it |
| `CityName.ParseCity` | main.go:75-82 | the result never contains '-'; a non-empty result is the text strictly between the last '-' and a later last '.'; without that order the result is "" |
| `CityName.ParseCityOfFileName` | main.go:75-82 | a file named prefix-city.ext (city without '-', ext without '-' or '.') yields exactly city |
| `CityName.NoDashNoCity` | main.go:78-81 | a file name without '-' yields "" |
| `CityName.CaseSensitiveCities` | main.go:75-82 | prices-Rostov.xls and prices-rostov.xls yield two different city names |
| `Store.Latest` | writer.go:138-146 | a row found by the latest-value query belongs to the queried item and city |
| `Store.LatestIsNewest` | writer.go:138 | the latest-row query finds nothing iff no row matches the pair, and otherwise a matching stored row whose date no matching row exceeds |
| `Store.LatestAfterAppend` | writer.go:142 | a row appended with a date no earlier than every stored date becomes the latest of its pair |
| `Store.UpsertItem` | writer.go:134 | the item ids afterwards are the old ones plus the written id; every other item is unchanged |
| `Store.StoredNameKept` | writer.go:134 | a stored non-NULL name, "" included, is never overwritten |
| `Store.MissingNameFilled` | writer.go:134 | a new item, or one whose name is NULL, gets the written name |
| `Store.UpsertIdempotent` | writer.go:134 | upserting the same item and name twice equals upserting once |
| `Store.InsertCheck` | writer.go:55-66 | an insert succeeds iff no row has the same (itemId, cityId, date) and both referenced item and city exist |
| `Store.AppendKeepsUnique` | writer.go:60 | a row the constraints admit keeps (itemId, cityId, date) unique |
| `Store.RecordMetric` | writer.go:138-144 | a row dated at the run is appended iff there is no latest value or it differs and the insert is admitted; `changed` is true exactly then; the table changes by that row and nothing else |
| `Store.WriteLive` | writer.go:134-153 | the item is upserted; the price step runs; the bonus step runs only when the price step ended without error, otherwise bonuses are untouched and bonusChanged is false |
| `Store.WriteLiveKeepsConstraints` | writer.go:134-153 | a write keeps the uniqueness of (itemId, cityId, date) and dates no row after the run |
| `Store.LatestAfterStep` | writer.go:138-144 | after a step without error the latest value of the pair is the value written |
| `Store.WriteIdempotent` | writer.go:134-151 | after a write without error, writing the same price and bonus again, under any name, in the same or a later run changes no table (the stored name is kept) and reports (false, false, no error) |
| `Store.ChangedPriceRecorded` | writer.go:138-144 | when the latest price differs or is missing, rows predate the run and the city exists, the price is appended, priceChanged is true and the new price becomes the latest |
| `Store.ChangeDetectedInLaterRun` | writer.go:138-144 | a different price written in a later run than an error-free write is reported as changed and becomes the latest |
| `Store.SecondChangeInRunRejected` | writer.go:142-145 | within one run a second, different price for an item already recorded appends nothing, reports priceChanged and bonusChanged false and the UNIQUE violation |
| `Store.MaxId` | writer.go:77-78 | 0 for no ids, otherwise an existing id no smaller than any other |
| `Store.NextCityIdIsFresh` | writer.go:77-80 | the allocated id max + 1 is not in use, and is 1 for an empty table |
| `Writer.ResolveCity` | writer.go:70-95 | a non-zero cityID is kept; the table either stays as it is or gains the run's city under an id not in use, and nothing else |
| `Writer.ResolveCityProperties` | writer.go:70-95 | city resolution keeps every city and name uniqueness; the table changes exactly when the name is free (and, for a non-zero cityID, that id is absent); with cityID 0 the run's city ends up stored under the returned id, reused by name or fresh above every id; a non-zero cityID is kept |
| `Writer.SqliteWriter.constructor` | writer.go:205-213 | a new writer has opened nothing, has no failure, and keeps the given city, city id and run time |
| `Writer.SqliteWriter.InitCityID` | writer.go:70-95 | sets the city id and cities table as city resolution says and always returns no error |
| `Writer.SqliteWriter.Open` | writer.go:97-120 | runs the open steps in order up to the failing one; the store handle, connection and transaction exist exactly when their step succeeded; the city is resolved once the tables exist |
| `Writer.SqliteWriter.Write` | writer.go:122-154 | open is tried only with no handle and no failure: the opening call leaves the handles of the steps that passed and the city resolved once the tables exist, and its failure sets fail for good; an open store keeps its handles and city; with fail set the call returns (false, false, no connection) and changes nothing; on a finished transaction it fails; otherwise the tables and results are those of `WriteLive` |
| `Writer.SqliteWriter.Close` | writer.go:185-202 | commits the live transaction (rolls it back if fail is set, keeping the committed state), then releases the connection and store handle that exist; without a live transaction, after a failed open included, no table and no committed state changes; with nothing opened it changes nothing |
| `Scenario.ExampleHeader` | main.go:13-41 | on the worked sheet row 2 is the first header row, with the id, price and bonus labels in columns 0, 2 and 3 |
| `Scenario.ExampleExtraction` | main.go:43-63 | on the worked sheet, scanning from the header row extracts exactly the two data rows whose cells parse |
| `Scenario.FirstRun` | writer.go:122-154 | on an empty store with city id 0, the first write opens the store, gives the city id 1 and reports (true, true, nil); the same write again reports (false, false, nil) with the store still open |

## Left out

- `main`, flag parsing, `xls.Open`, the sheet loop and `parseSheet` (main.go:65-107): console I/O around the core.
- The workbook reader: a sheet is given as its `maxRow` and a grid of cell texts; whether the reader's `MaxRow` is a count or a last index is not part of this model.
- `consoleWriter` (writer.go:19-28): it only prints.
- The commented-out `save` backup routine (writer.go:156-182, 196-198): dead code.
- The `database/sql` and go-sqlite3 plumbing (`sqlite3.Version`, `connStr`, `sql.Open`, `Ping`, `Conn`, `BeginTx`): open is a fixed outcome given to the constructor, the stage that fails or none; open is attempted at most once, so one outcome covers every run.
- The DDL text of `initDB`: only its constraints are kept (UNIQUE (itemId, cityId, date), UNIQUE city name, the two foreign keys on insert). Cascading updates and deletes are not modelled; this code never deletes or renames.
- Store errors other than constraint violations and use of a finished transaction (disk, locking, corruption): not modelled.
- `time.Now()`: the run's timestamp is a constructor parameter.
- `fmt.Println` / `fmt.Printf` of errors in `Write` and `extractData`: output only.
- The writer as called by `extractData`: the call `writer.Write(id, price, bonus)` with one result does not match `Write(id, name, price, bonus) (bool, bool, error)` (writer.go:15), and the two files declare different packages; the extractor's writer is an oracle that accepts or rejects each call.
- `Decimal.Atoi`: does not model the 64-bit range check of `strconv.Atoi`, because Go's `int` width is not part of this model; integers are unbounded.
- `CityName.ParseCity`: strings are sequences of characters, while Go slices bytes; the separators are ASCII, so the same characters are selected.
- `Writer.SqliteWriter.Close`: `Valid` does not include "a transaction never coexists with a failure", so the rollback branch is modelled; that fact is the separate predicate `TxOnlyWithoutFailure`, kept by every method.
