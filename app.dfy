/**
 * The logic of app.py outside the Flask routes: the upload whitelist, the de-duplication and
 * date lookup behind the weather pages, the update-or-insert of a weather reading, the alert
 * path from the dashboard to the alert store and the SocketIO clients, and the list of logged-in users.
 */
module WebApp {
  import opened Util
  import opened AlertsDb
  import opened UserDb

  /** ALLOWED_EXTENSIONS. */
  const AllowedExtensions: set<string> := {"txt", "pdf", "png", "jpg", "jpeg", "gif"}

  /** `str.lower` on one character, for the ASCII letters that can matter here. */
  function LowerChar(c: char): char {
    if 'A' <= c <= 'Z' then (c as int + 32) as char else c
  }

  function Lower(s: string): string {
    seq(|s|, i requires 0 <= i < |s| => LowerChar(s[i]))
  }

  /** The position of the last '.', if there is one. */
  function LastDot(s: string): (r: Option<nat>)
    ensures r.None? <==> '.' !in s
    ensures r.Some? ==> r.value < |s| && s[r.value] == '.' && '.' !in s[r.value + 1..]
  {
    if s == [] then None
    else if s[|s| - 1] == '.' then Some(|s| - 1)
    else
      var r := LastDot(s[..|s| - 1]);
      assert s == s[..|s| - 1] + [s[|s| - 1]];
      if r.Some? then
        assert s[r.value + 1..] == s[..|s| - 1][r.value + 1..] + [s[|s| - 1]];
        r
      else r
  }

  /** A '.' with no '.' after it is the last one. */
  lemma LastDotAt(s: string, k: nat)
    requires k < |s| && s[k] == '.' && '.' !in s[k + 1..]
    ensures LastDot(s) == Some(k)
  {
    assert s[k] in s;
  }

  /**
   * `allowed_file`: the name contains a '.' and the text after the last one, lower-cased, is a
   * whitelisted extension.
   */
  predicate AllowedFile(filename: string): (r: bool)
    ensures r ==> '.' in filename && filename[|filename| - 1] != '.'
  {
    match LastDot(filename)
    case None => false
    case Some(k) => Lower(filename[k + 1..]) in AllowedExtensions
  }

  /** A name is accepted exactly when some '.' has no '.' after it and the lower-cased rest is whitelisted. */
  lemma AllowedFileIff(filename: string)
    ensures AllowedFile(filename) <==>
      exists k :: 0 <= k < |filename| && filename[k] == '.' && '.' !in filename[k + 1..] &&
                  Lower(filename[k + 1..]) in AllowedExtensions
  {
    forall k | 0 <= k < |filename| && filename[k] == '.' && '.' !in filename[k + 1..] ensures LastDot(filename) == Some(k) {
      LastDotAt(filename, k);
    }
  }

  /** Lower-casing leaves text without capitals as it is. */
  lemma LowerOfLower(s: string)
    requires forall i :: 0 <= i < |s| ==> !('A' <= s[i] <= 'Z')
    ensures Lower(s) == s
  {
  }

  /** Any base name followed by '.' and a whitelisted extension is accepted. */
  lemma AllowedWithExtension(base: string, ext: string)
    requires ext in AllowedExtensions
    ensures AllowedFile(base + "." + ext)
  {
    var f := base + "." + ext;
    assert f[|base|] == '.';
    assert f[|base| + 1..] == ext;
    assert '.' !in ext && forall i :: 0 <= i < |ext| ==> !('A' <= ext[i] <= 'Z') by {
      if ext == "txt" {} else if ext == "pdf" {} else if ext == "png" {}
      else if ext == "jpg" {} else if ext == "jpeg" {} else {}
    }
    LowerOfLower(ext);
    LastDotAt(f, |base|);
  }

  /** Upper-case extensions are accepted too. */
  lemma AllowedUpperCase()
    ensures AllowedFile("a.PNG")
  {
    assert "a.PNG"[2..] == "PNG";
    assert Lower("PNG") == "png";
  }

  /** A trailing dot leaves an empty extension. */
  lemma RefusedEmptyExtension()
    ensures !AllowedFile("a.")
  {
    assert "a."[2..] == "";
  }

  /** Only the text after the last dot counts. */
  lemma RefusedDoubleExtension()
    ensures !AllowedFile("x.tar.gz")
  {
    var f := "x.tar.gz";
    assert f[5] == '.' && f[6..] == "gz";
    assert LastDot(f) == Some(5);
    assert Lower("gz") == "gz";
  }

  /** A name without a dot is refused whatever it ends with. */
  lemma RefusedWithoutDot(filename: string)
    requires '.' !in filename
    ensures !AllowedFile(filename)
  {
  }

  /** The first occurrence of every entry, in the order of first occurrence. */
  function FirstOccurrences<T(==,!new)>(s: seq<T>): (r: seq<T>)
    ensures NoDup(r)
    ensures forall x :: x in r <==> x in s
  {
    if s == [] then []
    else
      var p := FirstOccurrences(s[..|s| - 1]);
      assert s == s[..|s| - 1] + [s[|s| - 1]];
      if s[|s| - 1] in p then p else p + [s[|s| - 1]]
  }

  /** The position of the first occurrence of `x`. */
  function IndexOf<T(==)>(s: seq<T>, x: T): (r: nat)
    requires x in s
    ensures r < |s| && s[r] == x && forall j :: 0 <= j < r ==> s[j] != x
  {
    if s[0] == x then 0 else 1 + IndexOf(s[1..], x)
  }

  lemma IndexOfExtend<T>(s: seq<T>, y: T, x: T)
    requires x in s
    ensures IndexOf(s + [y], x) == IndexOf(s, x)
  {
    var j := IndexOf(s, x);
    assert (s + [y])[j] == s[j];
  }

  lemma IndexOfAppended<T>(s: seq<T>, y: T)
    requires y !in s
    ensures IndexOf(s + [y], y) == |s|
  {
  }

  /** The de-duplicated list keeps the order in which entries first appear. */
  lemma {:induction false} FirstOccurrencesOrder<T(!new)>(s: seq<T>)
    ensures forall i, j :: 0 <= i < j < |FirstOccurrences(s)| ==>
      IndexOf(s, FirstOccurrences(s)[i]) < IndexOf(s, FirstOccurrences(s)[j])
  {
    if s != [] {
      var s' := s[..|s| - 1];
      var y := s[|s| - 1];
      assert s == s' + [y];
      FirstOccurrencesOrder(s');
      var p := FirstOccurrences(s');
      assert FirstOccurrences(s) == if y in p then p else p + [y];
      forall i | 0 <= i < |p| ensures IndexOf(s, p[i]) == IndexOf(s', p[i]) < |s'| {
        assert p[i] in p;
        IndexOfExtend(s', y, p[i]);
      }
      if y !in p {
        IndexOfAppended(s', y);
        var r := p + [y];
        forall i, j | 0 <= i < j < |r| ensures IndexOf(s, r[i]) < IndexOf(s, r[j]) {
          assert r[i] == p[i];
          if j < |p| {
            assert r[j] == p[j];
          } else {
            assert r[j] == y;
            assert IndexOf(s, y) == |s'|;
            assert IndexOf(s, p[i]) < |s'|;
          }
        }
      } else {
        forall i, j | 0 <= i < j < |p| ensures IndexOf(s, p[i]) < IndexOf(s, p[j]) {
          assert IndexOf(s', p[i]) < IndexOf(s', p[j]);
        }
      }
    }
  }

  /** A list without duplicates is its own de-duplication. */
  lemma {:induction false} FirstOccurrencesOfNoDup<T(!new)>(s: seq<T>)
    requires NoDup(s)
    ensures FirstOccurrences(s) == s
  {
    if s != [] {
      var s' := s[..|s| - 1];
      assert NoDup(s') by {
        forall i, j | 0 <= i < j < |s'| ensures s'[i] != s'[j] {
          assert s'[i] == s[i] && s'[j] == s[j];
        }
      }
      FirstOccurrencesOfNoDup(s');
      assert s[|s| - 1] !in s' by {
        forall i | 0 <= i < |s'| ensures s'[i] != s[|s| - 1] {
          assert s'[i] == s[i];
        }
      }
      assert s == s' + [s[|s| - 1]];
    }
  }

  /**
   * The rows of one city are already free of duplicate (date, temperature, condition) triples,
   * because the table keys them by (city, date, condition); so the de-duplication in `select_city`
   * never drops a row.
   */
  lemma SearchHasNoDuplicates(db: Database, city: string)
    requires db.Valid()
    ensures FirstOccurrences(db.SearchWeatherData(city)) == db.SearchWeatherData(city)
  {
    MatchingNoDup(db.weather, city);
    NoDupPermutation(Matching(db.weather, city), db.SearchWeatherData(city));
    FirstOccurrencesOfNoDup(db.SearchWeatherData(city));
  }

  lemma {:induction false} MatchingNoDup(t: seq<WeatherRow>, city: string)
    requires UniqueKeys(t)
    ensures NoDup(Matching(t, city))
  {
    if t != [] {
      assert UniqueKeys(t[1..]) by {
        forall i, j | 0 <= i < j < |t[1..]| ensures KeyOf(t[1..][i]) != KeyOf(t[1..][j]) {
          assert t[1..][i] == t[i + 1] && t[1..][j] == t[j + 1];
        }
      }
      MatchingNoDup(t[1..], city);
      var rest := Matching(t[1..], city);
      if t[0].city == city {
        var x := Forecast(t[0].date, t[0].temperature, t[0].condition);
        assert x !in rest;
        var r := [x] + rest;
        forall i, j | 0 <= i < j < |r| ensures r[i] != r[j] {
          assert r[j] == rest[j - 1];
          if i > 0 {
            assert r[i] == rest[i - 1];
          }
        }
      }
    }
  }

  /** A duplicate-free list has at most one copy of each element. */
  lemma {:induction false} NoDupCounts<T>(s: seq<T>, x: T)
    requires NoDup(s)
    ensures multiset(s)[x] <= 1
  {
    if s != [] {
      assert s == [s[0]] + s[1..];
      assert NoDup(s[1..]) by {
        forall i, j | 0 <= i < j < |s[1..]| ensures s[1..][i] != s[1..][j] {
          assert s[1..][i] == s[i + 1] && s[1..][j] == s[j + 1];
        }
      }
      NoDupCounts(s[1..], x);
      if s[0] == x {
        assert x !in s[1..] by {
          forall j | 0 <= j < |s[1..]| ensures s[1..][j] != x {
            assert s[1..][j] == s[j + 1];
          }
        }
      }
    }
  }

  /** Reordering a duplicate-free list cannot create a duplicate. */
  lemma NoDupPermutation<T>(a: seq<T>, b: seq<T>)
    requires NoDup(a) && multiset(a) == multiset(b)
    ensures NoDup(b)
  {
    forall i, j | 0 <= i < j < |b| ensures b[i] != b[j] {
      NoDupCounts(a, b[i]);
      assert b == b[..j] + b[j..];
      assert b[i] in b[..j] && b[j] in b[j..];
      assert multiset(b)[b[i]] == multiset(b[..j])[b[i]] + multiset(b[j..])[b[i]];
    }
  }

  /** The `seen` loop of `select_city`: keeps the first occurrence of every triple. */
  method UniqueWeatherInfo(info: seq<Forecast>) returns (unique: seq<Forecast>)
    ensures unique == FirstOccurrences(info)
  {
    var seen: set<Forecast> := {};
    unique := [];
    for i := 0 to |info|
      invariant unique == FirstOccurrences(info[..i])
      invariant forall x :: x in seen <==> x in unique
    {
      assert info[..i + 1][..i] == info[..i];
      if info[i] !in seen {
        seen := seen + {info[i]};
        unique := unique + [info[i]];
      }
    }
    assert info[..|info|] == info;
  }

  /** The loop of `update_weather`: the first record for that date, if any. */
  method WeatherForDate(info: seq<Forecast>, date: string) returns (r: Option<Forecast>)
    ensures r.None? <==> forall i :: 0 <= i < |info| ==> info[i].date != date
    ensures r.Some? ==> exists k :: 0 <= k < |info| && info[k] == r.value && r.value.date == date &&
                                    forall j :: 0 <= j < k ==> info[j].date != date
  {
    r := None;
    var i := 0;
    while i < |info|
      invariant 0 <= i <= |info|
      invariant r.None?
      invariant forall j :: 0 <= j < i ==> info[j].date != date
    {
      if info[i].date == date {
        r := Some(info[i]);
        break;
      }
      i := i + 1;
    }
  }

  /** `UPDATE weather_data SET temperature = ? ... WHERE city = ? AND date = ? AND condition = ?`. */
  function SetTemperature(t: seq<WeatherRow>, k: Key, temperature: int): (r: seq<WeatherRow>)
    ensures |r| == |t|
    ensures forall i :: 0 <= i < |t| ==> KeyOf(r[i]) == KeyOf(t[i])
  {
    seq(|t|, i requires 0 <= i < |t| =>
      if KeyOf(t[i]) == k then WeatherRow(t[i].city, t[i].date, temperature, t[i].condition) else t[i])
  }

  /** Two tables with the same keys row by row have the same key counts. */
  lemma {:induction false} KeyCountSameKeys(t: seq<WeatherRow>, u: seq<WeatherRow>, k: Key)
    requires |t| == |u| && forall i :: 0 <= i < |t| ==> KeyOf(t[i]) == KeyOf(u[i])
    ensures KeyCount(t, k) == KeyCount(u, k)
  {
    if t != [] {
      KeyCountSameKeys(t[..|t| - 1], u[..|u| - 1], k);
    }
  }

  /** What `update_weather_data` does to the table: update the row with that key, or insert one. */
  function Upsert(t: seq<WeatherRow>, row: WeatherRow): (r: seq<WeatherRow>)
    ensures |t| <= |r| <= |t| + 1
    ensures forall i :: 0 <= i < |t| ==> KeyOf(r[i]) == KeyOf(t[i])
  {
    var u := SetTemperature(t, KeyOf(row), row.temperature);
    if KeyCount(t, KeyOf(row)) == 0 then u + [row] else u
  }

  /**
   * On a table with unique keys, an update-or-insert leaves exactly one row with the key, carrying
   * the new temperature; every other row keeps its place and its value, and keys stay unique.
   */
  lemma UpsertExactlyOne(t: seq<WeatherRow>, row: WeatherRow)
    requires UniqueKeys(t)
    ensures var r := Upsert(t, row);
      && UniqueKeys(r)
      && row in r
      && (forall i :: 0 <= i < |r| && KeyOf(r[i]) == KeyOf(row) ==> r[i] == row)
      && (forall i :: 0 <= i < |t| && KeyOf(t[i]) != KeyOf(row) ==> r[i] == t[i])
      && |r| == |t| + (if KeyCount(t, KeyOf(row)) == 0 then 1 else 0)
  {
    var k := KeyOf(row);
    var u := SetTemperature(t, k, row.temperature);
    SetTemperatureUpdates(t, row);
    if KeyCount(t, k) == 0 {
      KeyCountSameKeys(t, u, k);
      UniqueKeysAppend(u, row);
      assert (u + [row])[|u|] == row;
    } else {
      var i :| 0 <= i < |t| && KeyOf(t[i]) == k;
      assert u[i] == row;
    }
  }

  /** The UPDATE gives every row with the key the new temperature, leaves the others alone and keeps keys unique. */
  lemma SetTemperatureUpdates(t: seq<WeatherRow>, row: WeatherRow)
    requires UniqueKeys(t)
    ensures var u := SetTemperature(t, KeyOf(row), row.temperature);
      && UniqueKeys(u)
      && (forall i :: 0 <= i < |u| && KeyOf(u[i]) == KeyOf(row) ==> u[i] == row)
      && (forall i :: 0 <= i < |t| && KeyOf(t[i]) != KeyOf(row) ==> u[i] == t[i])
  {
  }

  /** A row whose key is absent can be appended without breaking uniqueness. */
  lemma UniqueKeysAppend(u: seq<WeatherRow>, row: WeatherRow)
    requires UniqueKeys(u) && KeyCount(u, KeyOf(row)) == 0
    ensures UniqueKeys(u + [row])
  {
    var r := u + [row];
    forall i, j | 0 <= i < j < |r| ensures KeyOf(r[i]) != KeyOf(r[j]) {
      assert r[i] == u[i];
      if j < |u| {
        assert r[j] == u[j];
      }
    }
  }

  /** Repeating the same update changes nothing more. */
  lemma UpsertIdempotent(t: seq<WeatherRow>, row: WeatherRow)
    requires UniqueKeys(t)
    ensures Upsert(Upsert(t, row), row) == Upsert(t, row)
  {
    UpsertExactlyOne(t, row);
    var r := Upsert(t, row);
    assert KeyCount(r, KeyOf(row)) != 0;
    var r2 := Upsert(r, row);
    assert |r2| == |r|;
    forall i | 0 <= i < |r| ensures r2[i] == r[i] {
    }
  }

  /** For a key not yet stored, updating and storing a forecast entry agree. */
  lemma UpsertOfAbsentIsInsert(t: seq<WeatherRow>, city: string, e: Forecast)
    requires KeyCount(t, ForecastKey(city, e)) == 0
    ensures Upsert(t, RowOf(city, e)) == InsertIfAbsent(t, city, e)
  {
    var u := SetTemperature(t, ForecastKey(city, e), e.temperature);
    assert u == t;
  }

  /** The module state of app.py with the stores it talks to. */
  class App {
    const store: AlertStore
    const db: Database
    /** connected_users. */
    var connectedUsers: seq<string>
    /** `session.get('username')` for the request being served. */
    var session: Option<string>
    /** The messages of the `new_alert` events emitted to the SocketIO clients, in order. */
    var emitted: seq<string>

    ghost predicate Valid()
      reads this, store, db
    {
      NoDup(connectedUsers) && store.Valid() && db.Valid()
    }

    constructor (store: AlertStore, db: Database)
      requires store.Valid() && db.Valid()
      ensures Valid()
      ensures this.store == store && this.db == db
      ensures connectedUsers == [] && session == None && emitted == []
    {
      this.store, this.db := store, db;
      connectedUsers, session, emitted := [], None, [];
    }

    /**
     * `send_to_alert_server`: store the message as a "Global" alert, then emit it. Without a
     * user in the session, or without the alerts table, the exception is swallowed and nothing
     * is stored or emitted; the emit never happens before the store.
     */
    method SendToAlertServer(message: string, elapsed: nat)
      requires Valid()
      modifies this, store
      ensures Valid()
      ensures var sent := old(session).Some? && old(store.tableExists);
        && (sent ==> store.rows == old(store.rows) + [AlertRow(old(store.nextId), "Global", message, old(session).value, old(store.clock) + elapsed)])
        && (sent ==> store.nextId == old(store.nextId) + 1 && store.clock == old(store.clock) + elapsed)
        && (!sent ==> store.rows == old(store.rows) && store.nextId == old(store.nextId) && store.clock == old(store.clock))
        && emitted == (if sent then old(emitted) + [message] else old(emitted))
      ensures store.tableExists == old(store.tableExists)
      ensures connectedUsers == old(connectedUsers) && session == old(session)
    {
      if session.None? {
        return;
      }
      var ok := store.AddWeatherAlert("Global", message, session.value, elapsed);
      if ok {
        emitted := emitted + [message];
      }
    }

    /**
     * `update_weather_data`: update the reading with that key or insert it; then, for a non-empty
     * alert description, store the alert for the city and send it on, which stores it a second
     * time as a "Global" alert. `raised` says that the call ended in an exception
     * (no user in the session, or no alerts table) after the reading was committed.
     */
    method UpdateWeatherData(city: string, date: string, temperature: int, condition: string,
                             alertDescription: Option<string>, elapsed: nat, elapsedAgain: nat) returns (raised: bool)
      requires Valid()
      modifies this, store, db
      ensures Valid()
      ensures db.weather == Upsert(old(db.weather), WeatherRow(city, date, temperature, condition))
      ensures db.users == old(db.users) && db.files == old(db.files)
      ensures var alerting := alertDescription.Some? && alertDescription.value != "";
        && raised == (alerting && (old(session).None? || !old(store.tableExists)))
        && (alerting && !raised ==>
              store.rows == old(store.rows) + [
                AlertRow(old(store.nextId), city, alertDescription.value, old(session).value, old(store.clock) + elapsed),
                AlertRow(old(store.nextId) + 1, "Global", alertDescription.value, old(session).value,
                         old(store.clock) + elapsed + elapsedAgain)] &&
              emitted == old(emitted) + [alertDescription.value])
        && (!(alerting && !raised) ==> store.rows == old(store.rows) && emitted == old(emitted))
        && (alerting && !raised ==> store.nextId == old(store.nextId) + 2 && store.clock == old(store.clock) + elapsed + elapsedAgain)
        && (!(alerting && !raised) ==> store.nextId == old(store.nextId) && store.clock == old(store.clock))
      ensures store.tableExists == old(store.tableExists)
      ensures connectedUsers == old(connectedUsers) && session == old(session)
    {
      var row := WeatherRow(city, date, temperature, condition);
      var rowcount := KeyCount(db.weather, KeyOf(row));
      UpsertExactlyOne(db.weather, row);
      db.weather := SetTemperature(db.weather, KeyOf(row), temperature);
      if rowcount == 0 {
        db.weather := db.weather + [row];
      }
      raised := false;
      if alertDescription.Some? && alertDescription.value != "" {
        if session.None? {
          return true;
        }
        var ok := store.AddWeatherAlert(city, alertDescription.value, session.value, elapsed);
        if !ok {
          return true;
        }
        SendToAlertServer(alertDescription.value, elapsedAgain);
      }
    }

    /**
     * The `login` route once the form is read: on valid credentials the user joins
     * connected_users unless already there, and the session records the name.
     */
    method Login(username: string, password: string) returns (ok: bool)
      requires Valid()
      modifies this
      ensures Valid()
      ensures ok == VerifyLogin(db.users, username, password)
      ensures connectedUsers == if ok && username !in old(connectedUsers) then old(connectedUsers) + [username] else old(connectedUsers)
      ensures ok ==> username in connectedUsers
      ensures session == if ok then Some(username) else old(session)
      ensures emitted == old(emitted)
    {
      ok := VerifyLogin(db.users, username, password);
      if ok {
        if username !in connectedUsers {
          connectedUsers := connectedUsers + [username];
        }
        session := Some(username);
      }
    }

    /** The `logout` route: the session's user leaves connected_users if listed, and the session is cleared. */
    method Logout()
      requires Valid()
      modifies this
      ensures Valid()
      ensures var u := old(session);
        && connectedUsers == (if u.Some? && u.value != "" && u.value in old(connectedUsers)
                              then RemoveFirst(old(connectedUsers), u.value) else old(connectedUsers))
        && (u.Some? && u.value != "" ==> u.value !in connectedUsers)
      ensures forall v :: v in connectedUsers <==> v in old(connectedUsers) && (old(session).Some? && old(session).value != "" ==> v != old(session).value)
      ensures session == None && emitted == old(emitted)
    {
      if session.Some? && session.value != "" && session.value in connectedUsers {
        RemoveFirstNoDup(connectedUsers, session.value);
        connectedUsers := RemoveFirst(connectedUsers, session.value);
      }
      session := None;
    }

    /**
     * A log-in followed by a log-out. For a user who was not connected, the list of connected users
     * returns to what it was. A user who was already connected does not get a second entry at
     * log-in, but log-out still removes the one entry, so afterwards the user is no longer listed.
     */
    method LoginThenLogout(username: string, password: string) returns (ok: bool)
      requires Valid()
      modifies this
      ensures Valid()
      ensures ok == VerifyLogin(db.users, username, password)
      ensures ok && username != "" && username !in old(connectedUsers) ==> connectedUsers == old(connectedUsers)
      ensures ok && username != "" && username in old(connectedUsers) ==>
        connectedUsers == RemoveFirst(old(connectedUsers), username) && username !in connectedUsers
      ensures session == None && emitted == old(emitted)
    {
      ghost var before := connectedUsers;
      ok := Login(username, password);
      if ok && username != "" && username !in before {
        RemoveFirstAppended(before, username);
      }
      Logout();
    }
  }
}
