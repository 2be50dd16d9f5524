/**
 * The `alerts` table of alerts_db.py: an append-only log of weather alerts.
 * The module offers a table creation, an insert and two full reads; nothing updates or deletes a row.
 */
module AlertsDb {
  import opened Util

  /** One row of `alerts (id, city, alert_description, username, timestamp)`. */
  datatype AlertRow = AlertRow(id: nat, city: string, description: string, username: string, timestamp: nat)

  /**
   * A row as `SELECT city, alert_description, username, timestamp` returns it:
   * exactly four fields, with the description at index 1.
   */
  datatype AlertRecord = AlertRecord(city: string, description: string, username: string, timestamp: nat)

  function Record(row: AlertRow): AlertRecord {
    AlertRecord(row.city, row.description, row.username, row.timestamp)
  }

  /** Every row, in the order the rows were appended. */
  function Records(rows: seq<AlertRow>): seq<AlertRecord> {
    seq(|rows|, i requires 0 <= i < |rows| => Record(rows[i]))
  }

  /** Timestamps never increase along the sequence (newest first). */
  predicate NewestFirstOrder(rs: seq<AlertRecord>) {
    forall i, j :: 0 <= i < j < |rs| ==> rs[i].timestamp >= rs[j].timestamp
  }

  /**
   * The answer to `ORDER BY timestamp DESC`. SQLite leaves the order of equal timestamps open;
   * the model returns the rows in reverse insertion order, which is one of the orders it may return.
   */
  function NewestFirst(rows: seq<AlertRow>): (r: seq<AlertRecord>)
    ensures |r| == |rows|
    ensures forall i :: 0 <= i < |rows| ==> r[i] == Record(rows[|rows| - 1 - i])
  {
    Reverse(Records(rows))
  }

  /** Appending a row puts exactly that row in front of the newest-first listing. */
  lemma NewestFirstAppend(rows: seq<AlertRow>, row: AlertRow)
    ensures NewestFirst(rows + [row]) == [Record(row)] + NewestFirst(rows)
  {
    var l, r := NewestFirst(rows + [row]), [Record(row)] + NewestFirst(rows);
    assert |l| == |r|;
    forall i | 0 <= i < |l| ensures l[i] == r[i] {
      if i > 0 {
        assert l[i] == Records(rows + [row])[|rows| - i];
        assert r[i] == NewestFirst(rows)[i - 1] == Records(rows)[|rows| - i];
      }
    }
  }

  /** The alerts table in the SQLite file. */
  class AlertStore {
    /** Whether `CREATE TABLE alerts` has run; until then every statement on it raises. */
    var tableExists: bool
    var rows: seq<AlertRow>
    /** The next AUTOINCREMENT id. */
    var nextId: nat
    /** The value CURRENT_TIMESTAMP had at the latest insert, in seconds. */
    var clock: nat

    /** Ids strictly increase and timestamps never decrease in insertion order. */
    ghost predicate Valid()
      reads this
    {
      && (!tableExists ==> rows == [])
      && (forall i, j :: 0 <= i < j < |rows| ==> rows[i].id < rows[j].id && rows[i].timestamp <= rows[j].timestamp)
      && (forall i :: 0 <= i < |rows| ==> rows[i].id < nextId && rows[i].timestamp <= clock)
    }

    /** A database file without the alerts table. */
    constructor ()
      ensures Valid()
      ensures !tableExists && rows == [] && nextId == 1 && clock == 0
    {
      tableExists, rows, nextId, clock := false, [], 1, 0;
    }

    /** `create_alerts_table`: CREATE TABLE IF NOT EXISTS; existing rows are left as they are. */
    method CreateAlertsTable()
      requires Valid()
      modifies this
      ensures Valid()
      ensures tableExists
      ensures rows == old(rows) && nextId == old(nextId) && clock == old(clock)
    {
      tableExists := true;
    }

    /**
     * `add_weather_alert`: inserts one row with a fresh id and the current time, `elapsed` seconds
     * after the previous insert (zero gives two alerts the same timestamp). `ok` is false when the
     * INSERT raises because the table does not exist; nothing changes then.
     */
    method AddWeatherAlert(city: string, description: string, username: string, elapsed: nat) returns (ok: bool)
      requires Valid()
      modifies this
      ensures Valid()
      ensures ok == old(tableExists) && tableExists == old(tableExists)
      ensures ok ==> rows == old(rows) + [AlertRow(old(nextId), city, description, username, old(clock) + elapsed)]
      ensures ok ==> nextId == old(nextId) + 1 && clock == old(clock) + elapsed
      ensures ok ==> forall i :: 0 <= i < |old(rows)| ==> old(rows)[i].id < rows[|rows| - 1].id
      ensures !ok ==> rows == old(rows) && nextId == old(nextId) && clock == old(clock)
    {
      ok := tableExists;
      if ok {
        rows := rows + [AlertRow(nextId, city, description, username, clock + elapsed)];
        nextId := nextId + 1;
        clock := clock + elapsed;
      }
    }

    /**
     * `get_weather_alerts`: every stored alert, one entry per append, newest first;
     * raises when the table does not exist.
     */
    function WeatherAlerts(): (r: Query<seq<AlertRecord>>)
      requires Valid()
      reads this
      ensures r.Ok? <==> tableExists
      ensures r.Ok? ==> |r.value| == |rows| && multiset(r.value) == multiset(Records(rows))
      ensures r.Ok? ==> NewestFirstOrder(r.value)
    {
      if tableExists then Ok(NewestFirst(rows)) else Failed
    }

    /** `get_unsent_alerts`: every stored alert, in no promised order. */
    function UnsentAlerts(): (r: Query<seq<AlertRecord>>)
      requires Valid()
      reads this
      ensures r.Ok? <==> tableExists
      ensures r.Ok? ==> WeatherAlerts().Ok? && multiset(r.value) == multiset(WeatherAlerts().value)
    {
      if tableExists then Ok(Records(rows)) else Failed
    }

    /**
     * The `get_latest_alert` that alert.py calls and alerts_db.py lacks: the most recently
     * added alert (the one with the greatest id), or none when the table is empty.
     */
    function LatestAlert(): (r: Query<Option<AlertRecord>>)
      requires Valid()
      reads this
      ensures r.Ok? <==> tableExists
      ensures r.Ok? ==> (r.value.None? <==> rows == [])
      ensures r.Ok? && r.value.Some? ==>
        exists k :: 0 <= k < |rows| && r.value.value == Record(rows[k]) &&
          forall j :: 0 <= j < |rows| ==> rows[j].id <= rows[k].id
      ensures r.Ok? && r.value.Some? ==> r.value.value == WeatherAlerts().value[0]
    {
      if !tableExists then Failed
      else if rows == [] then Ok(None)
      else Ok(Some(Record(rows[|rows| - 1])))
    }
  }
}
