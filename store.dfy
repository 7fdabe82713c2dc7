/**
 * The tables of the price store, as values, and the operations the writer
 * performs on them. The SQL text is not modelled; each statement becomes a
 * function on these values that keeps the schema's constraints:
 * `dns_cities(id PRIMARY KEY, name UNIQUE)`, `dns_items(id PRIMARY KEY, name)`
 * and `dns_prices` / `dns_bonuses(itemId, cityId, value, date)` with
 * `UNIQUE (itemId, cityId, date)` and foreign keys to items and cities
 * (enforced: the connection string sets `_fk=1`).
 */
module Store {
  import opened Opt

  /** One row of `dns_prices` (value = price) or of `dns_bonuses` (value = bonus). */
  datatype Row = Row(itemId: int, cityId: int, value: int, date: int)

  /** The tables written inside the run's transaction. */
  datatype Tables = Tables(items: map<int, Option<string>>, prices: seq<Row>, bonuses: seq<Row>)

  datatype StoreError =
    | NoConnection         // the store could not be opened (sticky)
    | UniqueViolation      // UNIQUE (itemId, cityId, date)
    | ForeignKeyViolation  // itemId or cityId not present
    | TxDone               // the transaction was already committed or rolled back

  /** What one `Write` reports. */
  datatype WriteResult = WriteResult(priceChanged: bool, bonusChanged: bool, err: Option<StoreError>)

  predicate SameKey(a: Row, b: Row) {
    a.itemId == b.itemId && a.cityId == b.cityId && a.date == b.date
  }

  /** The UNIQUE (itemId, cityId, date) constraint. */
  ghost predicate UniqueKeys(rows: seq<Row>) {
    forall i, j :: 0 <= i < j < |rows| ==> !SameKey(rows[i], rows[j])
  }

  /** The UNIQUE constraint on city names. */
  ghost predicate NamesUnique(cities: map<int, string>) {
    forall a, b :: a in cities && b in cities && a != b ==> cities[a] != cities[b]
  }

  /** No row is dated after `time`. */
  ghost predicate DatedBy(rows: seq<Row>, time: int) {
    forall i :: 0 <= i < |rows| ==> rows[i].date <= time
  }

  predicate Matches(r: Row, itemId: int, cityId: int) {
    r.itemId == itemId && r.cityId == cityId
  }

  /**
   * `SELECT value ... WHERE itemId = ? AND cityId = ? ORDER BY date DESC LIMIT 1`:
   * the matching row with the greatest date (among rows with equal dates the
   * one added last; the UNIQUE constraint rules such ties out).
   */
  function Latest(rows: seq<Row>, itemId: int, cityId: int): (r: Option<Row>)
    ensures r.Some? ==> Matches(r.value, itemId, cityId)
  {
    if rows == [] then None
    else
      var before := Latest(rows[..|rows| - 1], itemId, cityId);
      var last := rows[|rows| - 1];
      if Matches(last, itemId, cityId) && (before.None? || last.date >= before.value.date) then Some(last)
      else before
  }

  /**
   * `Latest` finds nothing exactly when no row matches; otherwise it finds a
   * matching row of the store whose date no other matching row exceeds.
   */
  lemma {:induction false} LatestIsNewest(rows: seq<Row>, itemId: int, cityId: int)
    ensures Latest(rows, itemId, cityId).None? <==> forall i :: 0 <= i < |rows| ==> !Matches(rows[i], itemId, cityId)
    ensures Latest(rows, itemId, cityId).Some? ==>
              Latest(rows, itemId, cityId).value in rows &&
              Matches(Latest(rows, itemId, cityId).value, itemId, cityId) &&
              forall i :: 0 <= i < |rows| && Matches(rows[i], itemId, cityId) ==>
                rows[i].date <= Latest(rows, itemId, cityId).value.date
  {
    if rows != [] {
      var init := rows[..|rows| - 1];
      LatestIsNewest(init, itemId, cityId);
      assert forall i :: 0 <= i < |init| ==> rows[i] == init[i];
    }
  }

  /** A row appended with a date no earlier than every stored date becomes the latest of its pair. */
  lemma LatestAfterAppend(rows: seq<Row>, r: Row)
    requires DatedBy(rows, r.date)
    ensures Latest(rows + [r], r.itemId, r.cityId) == Some(r)
  {
    var before := Latest(rows, r.itemId, r.cityId);
    assert (rows + [r])[..|rows|] == rows;
    if before.Some? {
      LatestIsNewest(rows, r.itemId, r.cityId);
    }
  }

  /**
   * `INSERT INTO dns_items VALUES (id, name) ON CONFLICT (id) DO UPDATE SET
   * name = ? WHERE id = ? AND name IS NULL`: a new id gets the name; a stored
   * NULL name is replaced; a stored name (even "") is kept. The name given is
   * never NULL.
   */
  function UpsertItem(items: map<int, Option<string>>, id: int, name: string): (r: map<int, Option<string>>)
    ensures r.Keys == items.Keys + {id}
    ensures forall k :: k in items && k != id ==> r[k] == items[k]
  {
    if id in items && items[id].Some? then items else items[id := Some(name)]
  }

  /** A stored name, the empty one included, is never overwritten. */
  lemma StoredNameKept(items: map<int, Option<string>>, id: int, stored: string, name: string)
    requires id in items && items[id] == Some(stored)
    ensures UpsertItem(items, id, name)[id] == Some(stored)
  {
  }

  /** A new item, or one whose name is NULL, acquires the given name. */
  lemma MissingNameFilled(items: map<int, Option<string>>, id: int, name: string)
    requires id !in items || items[id] == None
    ensures UpsertItem(items, id, name)[id] == Some(name)
  {
  }

  /** Upserting the same item twice is the same as once. */
  lemma UpsertIdempotent(items: map<int, Option<string>>, id: int, name: string)
    ensures UpsertItem(UpsertItem(items, id, name), id, name) == UpsertItem(items, id, name)
  {
  }

  /**
   * The outcome of `INSERT INTO dns_prices|dns_bonuses VALUES (...)`: the
   * UNIQUE (itemId, cityId, date) constraint, then the two foreign keys.
   */
  function InsertCheck(rows: seq<Row>, items: map<int, Option<string>>, cities: map<int, string>, r: Row): (err: Option<StoreError>)
    ensures err.None? <==> (forall i :: 0 <= i < |rows| ==> !SameKey(rows[i], r)) && r.itemId in items && r.cityId in cities
  {
    if exists i :: 0 <= i < |rows| && SameKey(rows[i], r) then Some(UniqueViolation)
    else if r.itemId !in items || r.cityId !in cities then Some(ForeignKeyViolation)
    else None
  }

  /** A row the constraints admit keeps the table's keys unique. */
  lemma AppendKeepsUnique(rows: seq<Row>, items: map<int, Option<string>>, cities: map<int, string>, r: Row)
    requires UniqueKeys(rows) && InsertCheck(rows, items, cities, r).None?
    ensures UniqueKeys(rows + [r])
  {
  }

  /** The effect of one metric step of `Write` on its table. */
  datatype MetricStep = MetricStep(rows: seq<Row>, changed: bool, err: Option<StoreError>)

  /**
   * One metric step of `Write`: read the latest value for (id, city); when
   * there is none or it differs, insert a row dated `time`. `changed` is true
   * exactly when that insert succeeded, and the table grows by that row and
   * by nothing else.
   */
  function RecordMetric(rows: seq<Row>, items: map<int, Option<string>>, cities: map<int, string>,
                        id: int, cityId: int, value: int, time: int): (step: MetricStep)
    ensures step.changed <==>
              (Latest(rows, id, cityId).None? || Latest(rows, id, cityId).value.value != value) &&
              InsertCheck(rows, items, cities, Row(id, cityId, value, time)).None?
    ensures step.rows == if step.changed then rows + [Row(id, cityId, value, time)] else rows
    ensures step.err.None? <==> step.changed || (Latest(rows, id, cityId).Some? && Latest(rows, id, cityId).value.value == value)
  {
    var latest := Latest(rows, id, cityId);
    if latest.None? || latest.value.value != value then
      var err := InsertCheck(rows, items, cities, Row(id, cityId, value, time));
      MetricStep(if err.None? then rows + [Row(id, cityId, value, time)] else rows, err.None?, err)
    else
      MetricStep(rows, false, None)
  }

  /**
   * The body of `Write` once the transaction is live: upsert the item, run
   * the price step, and run the bonus step only when the price step ended
   * without error. The error returned is the last one met.
   */
  function WriteLive(t: Tables, cities: map<int, string>, cityId: int, time: int,
                     id: int, name: string, price: int, bonus: int): (out: (Tables, WriteResult))
    ensures out.0.items == UpsertItem(t.items, id, name)
    ensures var p := RecordMetric(t.prices, out.0.items, cities, id, cityId, price, time);
            out.0.prices == p.rows && out.1.priceChanged == p.changed &&
            (p.err.Some? ==> out.0.bonuses == t.bonuses && !out.1.bonusChanged && out.1.err == p.err)
    ensures var p := RecordMetric(t.prices, out.0.items, cities, id, cityId, price, time);
            var b := RecordMetric(t.bonuses, out.0.items, cities, id, cityId, bonus, time);
            p.err.None? ==> out.0.bonuses == b.rows && out.1.bonusChanged == b.changed && out.1.err == b.err
  {
    var items := UpsertItem(t.items, id, name);
    var p := RecordMetric(t.prices, items, cities, id, cityId, price, time);
    if p.err.Some? then
      (Tables(items, p.rows, t.bonuses), WriteResult(p.changed, false, p.err))
    else
      var b := RecordMetric(t.bonuses, items, cities, id, cityId, bonus, time);
      (Tables(items, p.rows, b.rows), WriteResult(p.changed, b.changed, b.err))
  }

  /** The constraints a live write keeps: unique keys, and no row dated after the run. */
  lemma WriteLiveKeepsConstraints(t: Tables, cities: map<int, string>, cityId: int, time: int,
                                  id: int, name: string, price: int, bonus: int)
    ensures var t' := WriteLive(t, cities, cityId, time, id, name, price, bonus).0;
            (UniqueKeys(t.prices) ==> UniqueKeys(t'.prices)) &&
            (UniqueKeys(t.bonuses) ==> UniqueKeys(t'.bonuses)) &&
            (DatedBy(t.prices, time) ==> DatedBy(t'.prices, time)) &&
            (DatedBy(t.bonuses, time) ==> DatedBy(t'.bonuses, time))
  {
    var items := UpsertItem(t.items, id, name);
    var p := RecordMetric(t.prices, items, cities, id, cityId, price, time);
    var b := RecordMetric(t.bonuses, items, cities, id, cityId, bonus, time);
    if p.changed && UniqueKeys(t.prices) {
      AppendKeepsUnique(t.prices, items, cities, Row(id, cityId, price, time));
    }
    if b.changed && UniqueKeys(t.bonuses) {
      AppendKeepsUnique(t.bonuses, items, cities, Row(id, cityId, bonus, time));
    }
  }

  /** After a step that reported no error, the latest value of the pair is the value written. */
  lemma LatestAfterStep(rows: seq<Row>, items: map<int, Option<string>>, cities: map<int, string>,
                        id: int, cityId: int, value: int, time: int)
    requires DatedBy(rows, time)
    requires RecordMetric(rows, items, cities, id, cityId, value, time).err.None?
    ensures var rows' := RecordMetric(rows, items, cities, id, cityId, value, time).rows;
            Latest(rows', id, cityId).Some? && Latest(rows', id, cityId).value.value == value
  {
    if RecordMetric(rows, items, cities, id, cityId, value, time).changed {
      LatestAfterAppend(rows, Row(id, cityId, value, time));
    }
  }

  /**
   * Idempotence: once a write of (id, price, bonus) at `time` reported no
   * error, writing the same values again, under any name, in the same run
   * (`later == time`) or in a later one, appends nothing, leaves every table
   * as it is and reports (false, false, no error): the item's name is no
   * longer NULL, so the upsert keeps it. This needs no stored row dated
   * after `time`.
   */
  lemma WriteIdempotent(t: Tables, cities: map<int, string>, cityId: int, time: int, later: int,
                        id: int, name: string, name2: string, price: int, bonus: int)
    requires DatedBy(t.prices, time) && DatedBy(t.bonuses, time) && time <= later
    requires WriteLive(t, cities, cityId, time, id, name, price, bonus).1.err.None?
    ensures var t1 := WriteLive(t, cities, cityId, time, id, name, price, bonus).0;
            WriteLive(t1, cities, cityId, later, id, name2, price, bonus) == (t1, WriteResult(false, false, None))
  {
    var items := UpsertItem(t.items, id, name);
    assert items[id].Some?;
    StoredNameKept(items, id, items[id].value, name2);
    LatestAfterStep(t.prices, items, cities, id, cityId, price, time);
    LatestAfterStep(t.bonuses, items, cities, id, cityId, bonus, time);
  }

  /**
   * Change sensitivity: when the latest stored price of the pair differs from
   * the new one (or there is none), every stored row is older than the run,
   * and the item's city exists, the write appends the price, reports
   * `priceChanged`, and the new price becomes the latest.
   */
  lemma ChangedPriceRecorded(t: Tables, cities: map<int, string>, cityId: int, time: int,
                             id: int, name: string, price: int, bonus: int)
    requires forall i :: 0 <= i < |t.prices| ==> t.prices[i].date < time
    requires cityId in cities
    requires Latest(t.prices, id, cityId).None? || Latest(t.prices, id, cityId).value.value != price
    ensures var out := WriteLive(t, cities, cityId, time, id, name, price, bonus);
            out.1.priceChanged && out.0.prices == t.prices + [Row(id, cityId, price, time)] &&
            Latest(out.0.prices, id, cityId) == Some(Row(id, cityId, price, time))
  {
    LatestAfterAppend(t.prices, Row(id, cityId, price, time));
  }

  /**
   * Change sensitivity across runs: after a run at `t1` wrote price `p`
   * without error, a later run at `t2 > t1` writing a different price `p2`
   * reports `priceChanged`, and `p2` becomes the latest price of the pair.
   */
  lemma ChangeDetectedInLaterRun(t: Tables, cities: map<int, string>, cityId: int, t1: int, t2: int,
                                 id: int, name: string, p: int, b: int, p2: int, b2: int)
    requires DatedBy(t.prices, t1) && DatedBy(t.bonuses, t1) && t1 < t2
    requires cityId in cities
    requires WriteLive(t, cities, cityId, t1, id, name, p, b).1.err.None?
    requires p2 != p
    ensures var run1 := WriteLive(t, cities, cityId, t1, id, name, p, b).0;
            var run2 := WriteLive(run1, cities, cityId, t2, id, name, p2, b2);
            run2.1.priceChanged &&
            Latest(run2.0.prices, id, cityId) == Some(Row(id, cityId, p2, t2))
  {
    var run1 := WriteLive(t, cities, cityId, t1, id, name, p, b).0;
    var items := UpsertItem(t.items, id, name);
    LatestAfterStep(t.prices, items, cities, id, cityId, p, t1);
    WriteLiveKeepsConstraints(t, cities, cityId, t1, id, name, p, b);
    ChangedPriceRecorded(run1, cities, cityId, t2, id, name, p2, b2);
  }

  /**
   * One row per (item, city, date): within one run, a second, different price
   * for an item whose price this run already recorded breaks the UNIQUE
   * constraint, so nothing is appended, `priceChanged` is false, the bonus
   * step is skipped and the write reports the violation.
   */
  lemma SecondChangeInRunRejected(t: Tables, cities: map<int, string>, cityId: int, time: int,
                                  id: int, name: string, price: int, bonus: int, price2: int, bonus2: int)
    requires DatedBy(t.prices, time)
    requires WriteLive(t, cities, cityId, time, id, name, price, bonus).1.priceChanged
    requires price2 != price
    ensures var t1 := WriteLive(t, cities, cityId, time, id, name, price, bonus).0;
            var out := WriteLive(t1, cities, cityId, time, id, name, price2, bonus2);
            !out.1.priceChanged && !out.1.bonusChanged && out.1.err == Some(UniqueViolation) &&
            out.0.prices == t1.prices && out.0.bonuses == t1.bonuses
  {
    var t1 := WriteLive(t, cities, cityId, time, id, name, price, bonus).0;
    var r := Row(id, cityId, price, time);
    LatestAfterAppend(t.prices, r);
    assert t1.prices[|t.prices|] == r;
    assert SameKey(t1.prices[|t.prices|], Row(id, cityId, price2, time));
  }

  /** `COALESCE(MAX(id), 0)` over the given ids. */
  function MaxId(ids: set<int>): (m: int)
    ensures ids == {} ==> m == 0
    ensures ids != {} ==> m in ids && forall k :: k in ids ==> k <= m
  {
    if ids == {} then 0
    else
      MaxExists(ids);
      var m :| m in ids && forall k :: k in ids ==> k <= m;
      m
  }

  lemma {:induction false} MaxExists(ids: set<int>)
    requires ids != {}
    ensures exists m :: m in ids && forall k :: k in ids ==> k <= m
    decreases |ids|
  {
    NonEmptyHasElement(ids);
    var x :| x in ids;
    var rest := ids - {x};
    if rest == {} {
      assert ids == {x};
    } else {
      MaxExists(rest);
      var m :| m in rest && forall k :: k in rest ==> k <= m;
      var top := if x <= m then m else x;
      forall k | k in ids ensures k <= top {
        if k != x { assert k in rest; }
      }
      assert top in ids;
    }
  }

  /** Set extensionality, stated once: a set with no element is empty. */
  lemma NonEmptyHasElement(ids: set<int>)
    ensures ids != {} ==> exists x :: x in ids
  {
    if forall x :: x !in ids {
      assert ids == {};
    }
  }

  /** The id `initCityID` allocates for an unknown city: one past the greatest, 1 for an empty table. */
  lemma NextCityIdIsFresh(cities: map<int, string>)
    ensures MaxId(cities.Keys) + 1 !in cities
    ensures cities == map[] ==> MaxId(cities.Keys) + 1 == 1
  {
  }
}
