/**
 * The change-detection writer (`SqliteWriter`). Opening is lazy: the first
 * `Write` opens the store, resolves the run's city id and begins the single
 * transaction of the run; a failure to open is recorded in `fail` for good.
 * Each `Write` upserts the item and appends a price row and a bonus row only
 * when the value changed. `Close` commits (or rolls back) and releases the
 * handles.
 */
module Writer {
  import opened Opt
  import opened Store

  /** The step of `open` that fails, in the order `open` performs them. */
  datatype OpenStage =
    | SqlOpen   // sql.Open
    | Ping      // db.Ping
    | InitDB    // CREATE TABLE IF NOT EXISTS ...
    | Conn      // db.Conn
    | BeginTx   // conn.BeginTx

  /** How many steps of `open` succeed before the failing one (all five when none fails). */
  function StepsPassed(failure: Option<OpenStage>): (n: nat)
    ensures n <= 5
    ensures n == 5 <==> failure.None?
  {
    match failure
    case None => 5
    case Some(SqlOpen) => 0
    case Some(Ping) => 1
    case Some(InitDB) => 2
    case Some(Conn) => 3
    case Some(BeginTx) => 4
  }

  /** No other city has this name. */
  predicate NameFree(cities: map<int, string>, name: string) {
    forall k :: k in cities ==> cities[k] != name
  }

  /**
   * What `initCityID` leaves behind: the run's city id and the cities table.
   * With `cityID == 0` the city is looked up by name; a missing one gets
   * `COALESCE(MAX(id), 0) + 1` and is inserted. A non-zero `cityID` that is
   * absent is inserted as given; that insert breaks the UNIQUE name
   * constraint when the name is already used, and the error is ignored.
   */
  ghost function ResolveCity(cityID: int, cities: map<int, string>, city: string): (r: (int, map<int, string>))
    ensures cityID != 0 ==> r.0 == cityID
    // nothing but the run's city, under an id not in use, can be added
    ensures r.1 == cities || (r.0 !in cities && r.1 == cities[r.0 := city])
  {
    if cityID == 0 then
      if exists k :: k in cities && cities[k] == city then
        var k :| k in cities && cities[k] == city;
        (k, cities)
      else
        var id := MaxId(cities.Keys) + 1;
        (id, cities[id := city])
    else if cityID !in cities && NameFree(cities, city) then
      (cityID, cities[cityID := city])
    else
      (cityID, cities)
  }

  /**
   * City resolution keeps every existing city and the name constraint; with
   * `cityID == 0` it ends with the run's city stored under the returned id,
   * which is either the id already holding that name or a fresh one greater
   * than every existing id; a non-zero `cityID` is kept as given. The table
   * changes exactly when the city's name is free and, for a non-zero
   * `cityID`, that id is absent.
   */
  lemma ResolveCityProperties(cityID: int, cities: map<int, string>, city: string)
    requires NamesUnique(cities)
    ensures var (id, cities') := ResolveCity(cityID, cities, city);
            (forall k :: k in cities ==> k in cities' && cities'[k] == cities[k]) &&
            (cityID == 0 ==> (cities' != cities <==> NameFree(cities, city))) &&
            (cityID != 0 ==> (cities' != cities <==> cityID !in cities && NameFree(cities, city))) &&
            NamesUnique(cities') &&
            (cityID != 0 ==> id == cityID) &&
            (cityID == 0 ==> id in cities' && cities'[id] == city) &&
            (cityID == 0 && id !in cities ==> NameFree(cities, city) && forall k :: k in cities ==> k < id) &&
            (cityID == 0 && cities == map[] ==> id == 1) &&
            (id in cities' && cities'[id] == city ==> NameFree(cities' - {id}, city))
  {
    if cityID == 0 && NameFree(cities, city) {
      NextCityIdIsFresh(cities);
      var (id, cities') := ResolveCity(cityID, cities, city);
      assert id in cities' && id !in cities;
    }
  }

  class SqliteWriter {
    const filename: string
    const time: int              // the run's timestamp (time.Now() when the writer is made)
    const city: string
    const openFailure: Option<OpenStage>   // how the store answers when it is opened

    var db: bool                 // db != nil
    var conn: bool               // conn != nil
    var tx: bool                 // tx != nil
    var txDone: bool             // tx was committed or rolled back
    var connClosed: bool
    var dbClosed: bool
    var fail: bool
    var cityID: int

    var cities: map<int, string>              // dns_cities; written outside the transaction
    var items: map<int, Option<string>>       // dns_items as seen inside the transaction
    var prices: seq<Row>                      // dns_prices as seen inside the transaction
    var bonuses: seq<Row>                     // dns_bonuses as seen inside the transaction
    var committed: Tables                     // items, prices and bonuses as last committed

    function Working(): Tables
      reads this
    {
      Tables(items, prices, bonuses)
    }

    ghost predicate Valid()
      reads this
    {
      (conn ==> db) && (tx ==> conn) && (txDone ==> tx) &&
      (connClosed ==> conn) && (dbClosed ==> db) &&
      // open either completes or records the failure
      (db && !fail ==> tx) &&
      NamesUnique(cities) &&
      UniqueKeys(prices) && UniqueKeys(bonuses) &&
      UniqueKeys(committed.prices) && UniqueKeys(committed.bonuses) &&
      // outside a live transaction the working tables are the committed ones
      (!tx || txDone ==> Working() == committed)
    }

    /**
     * `fail` is set only when open fails, and a failed open never yields a
     * transaction: so a live transaction is never rolled back by `Close`.
     * Every method keeps this; it is not part of `Valid` because `Close`
     * models the rollback branch of the source all the same.
     */
    predicate TxOnlyWithoutFailure()
      reads this
    {
      tx ==> !fail
    }

    /** `NewSqliteWriter`: nothing is opened; the store's current contents are given. */
    constructor (filename: string, cityID: int, city: string, now: int, openFailure: Option<OpenStage>,
                 storedCities: map<int, string>, stored: Tables)
      requires NamesUnique(storedCities) && UniqueKeys(stored.prices) && UniqueKeys(stored.bonuses)
      ensures Valid()
      ensures this.filename == filename && this.cityID == cityID && this.city == city && time == now
      ensures this.openFailure == openFailure
      ensures !db && !conn && !tx && !txDone && !fail && !connClosed && !dbClosed
      ensures TxOnlyWithoutFailure()
      ensures cities == storedCities && Working() == stored && committed == stored
    {
      this.filename := filename;
      this.time := now;
      this.city := city;
      this.cityID := cityID;
      this.openFailure := openFailure;
      db, conn, tx, txDone, fail := false, false, false, false, false;
      connClosed, dbClosed := false, false;
      cities := storedCities;
      items, prices, bonuses := stored.items, stored.prices, stored.bonuses;
      committed := stored;
    }

    /**
     * `initCityID`; it always returns nil. The errors of its queries and of
     * its insert are ignored by the source; the only one that can arise here
     * is the insert's UNIQUE name violation, which leaves the table as it is.
     */
    method InitCityID() returns (err: Option<StoreError>)
      requires NamesUnique(cities)
      modifies this`cityID, this`cities
      ensures err == None
      ensures (cityID, cities) == ResolveCity(old(cityID), old(cities), city)
      ensures NamesUnique(cities)
    {
      var needInsert := false;
      if cityID == 0 {
        if exists k :: k in cities && cities[k] == city {
          var found :| found in cities && cities[found] == city;
          cityID := found;
        } else {
          var maxID := MaxId(cities.Keys);
          cityID := maxID + 1;
          needInsert := true;
        }
      } else {
        if cityID !in cities {
          needInsert := true;
        }
      }
      if needInsert && NameFree(cities, city) {
        cities := cities[cityID := city];
      }
      ResolveCityProperties(old(cityID), old(cities), city);
      return None;
    }

    /**
     * `open`: performs the steps in order and stops at the one that fails;
     * each handle is set once the step that yields it succeeds, and the city
     * is resolved once the tables exist.
     */
    method Open() returns (err: Option<OpenStage>)
      requires Valid() && !db && !fail
      modifies this
      ensures err == openFailure
      ensures db == (err != Some(SqlOpen))
      ensures conn == (err.None? || err == Some(BeginTx))
      ensures tx == err.None?
      ensures err.None? || err == Some(Conn) || err == Some(BeginTx) ==>
                (cityID, cities) == ResolveCity(old(cityID), old(cities), city)
      ensures !(err.None? || err == Some(Conn) || err == Some(BeginTx)) ==>
                cityID == old(cityID) && cities == old(cities)
      ensures NamesUnique(cities)
      ensures Working() == old(Working()) && committed == old(committed)
      ensures fail == old(fail) && txDone == old(txDone) && !connClosed && !dbClosed
    {
      var passed := StepsPassed(openFailure);
      if passed == 0 {
        return openFailure;
      }
      db := true;
      if passed <= 2 {
        return openFailure;
      }
      var _ := InitCityID();
      if passed == 3 {
        return openFailure;
      }
      conn := true;
      if passed == 4 {
        return openFailure;
      }
      tx := true;
      return None;
    }

    /**
     * `Write(id, name, price, bonus)`. Opening is tried only while there is
     * no store handle and no recorded failure, and an open error sets `fail`
     * for good; with `fail` set, the call returns (false, false, "No
     * connection") and touches nothing. Otherwise the item is upserted and the
     * price and bonus steps run against the live transaction, as `WriteLive`
     * says.
     */
    method Write(id: int, name: string, price: int, bonus: int)
      returns (priceChanged: bool, bonusChanged: bool, err: Option<StoreError>)
      requires Valid()
      modifies this
      ensures Valid()
      ensures old(fail) ==> unchanged(this) && fail
      ensures !old(db) && !old(fail) ==> fail == openFailure.Some?
      // the opening call leaves what `open` leaves: the handles of the steps that passed, and
      // the run's city resolved once the tables exist
      ensures !old(db) && !old(fail) ==>
                db == (openFailure != Some(SqlOpen)) &&
                conn == (openFailure.None? || openFailure == Some(BeginTx)) &&
                tx == openFailure.None? &&
                (openFailure.None? || openFailure == Some(Conn) || openFailure == Some(BeginTx) ==>
                   (cityID, cities) == ResolveCity(old(cityID), old(cities), city)) &&
                (!(openFailure.None? || openFailure == Some(Conn) || openFailure == Some(BeginTx)) ==>
                   cityID == old(cityID) && cities == old(cities))
      // an open store is never opened again, and the run's city stays fixed
      ensures old(db) ==> db && conn == old(conn) && tx == old(tx)
      ensures old(db) ==> fail == old(fail) && cityID == old(cityID) && cities == old(cities)
      ensures fail ==>
                priceChanged == false && bonusChanged == false && err == Some(NoConnection) &&
                Working() == old(Working())
      ensures !fail && txDone ==>
                priceChanged == false && bonusChanged == false && err == Some(TxDone) &&
                Working() == old(Working())
      ensures !fail && !txDone ==>
                (Working(), WriteResult(priceChanged, bonusChanged, err)) ==
                WriteLive(old(Working()), cities, cityID, time, id, name, price, bonus)
      ensures committed == old(committed) && txDone == old(txDone)
      ensures old(TxOnlyWithoutFailure()) ==> TxOnlyWithoutFailure()
      ensures connClosed == old(connClosed) && dbClosed == old(dbClosed)
    {
      priceChanged, bonusChanged := false, false;
      if !db && !fail {
        var openErr := Open();
        if openErr.Some? {
          fail := true;
        }
      }
      if fail {
        return false, false, Some(NoConnection);
      }
      if txDone {
        // every statement on a finished transaction fails with ErrTxDone
        return false, false, Some(TxDone);
      }
      // INSERT ... ON CONFLICT (id) DO UPDATE SET name = ? WHERE ... name IS NULL; its error is ignored
      items := UpsertItem(items, id, name);

      err := None;
      var oldPrice := Latest(prices, id, cityID);
      if oldPrice.None? || oldPrice.value.value != price {
        err := InsertCheck(prices, items, cities, Row(id, cityID, price, time));
        if err.None? {
          AppendKeepsUnique(prices, items, cities, Row(id, cityID, price, time));
          prices := prices + [Row(id, cityID, price, time)];
        }
        priceChanged := err.None?;
      }
      if err.None? {
        var oldBonus := Latest(bonuses, id, cityID);
        if oldBonus.None? || oldBonus.value.value != bonus {
          err := InsertCheck(bonuses, items, cities, Row(id, cityID, bonus, time));
          if err.None? {
            AppendKeepsUnique(bonuses, items, cities, Row(id, cityID, bonus, time));
            bonuses := bonuses + [Row(id, cityID, bonus, time)];
          }
          bonusChanged := err.None?;
        }
      }
    }

    /**
     * `Close`: a live transaction is rolled back when `fail` is set and
     * committed otherwise; then the connection and the store handle, where
     * they exist, are released. With nothing opened it changes nothing.
     */
    method Close()
      requires Valid()
      modifies this
      ensures Valid()
      ensures old(tx) && !old(txDone) && !fail ==> committed == old(Working())
      ensures old(tx) && !old(txDone) && fail ==> Working() == old(committed) && committed == old(committed)
      // without a live transaction (a failed open, or a second Close) only the handles are released
      ensures !(old(tx) && !old(txDone)) ==> Working() == old(Working()) && committed == old(committed)
      ensures txDone == old(tx)
      ensures connClosed == (old(connClosed) || old(conn)) && dbClosed == (old(dbClosed) || old(db))
      ensures !old(db) ==> unchanged(this)
      ensures db == old(db) && conn == old(conn) && tx == old(tx) && fail == old(fail)
      ensures cityID == old(cityID) && cities == old(cities)
      ensures !fail ==> Working() == old(Working())
      ensures old(TxOnlyWithoutFailure()) ==> TxOnlyWithoutFailure()
    {
      if tx && !txDone {
        if fail {
          items, prices, bonuses := committed.items, committed.prices, committed.bonuses;
        } else {
          committed := Working();
        }
        txDone := true;
      }
      if conn {
        connClosed := true;
      }
      if db {
        dbClosed := true;
      }
    }
  }
}
