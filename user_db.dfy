/**
 * The three tables of user_db.py: `users` (registration and login), `weather_data` (forecasts keyed
 * by city, date and condition) and `files` (upload metadata). The tables are sequences of rows in
 * insertion order; every statement is one call on a `Database`.
 */
module UserDb {
  import opened Util

  /**
   * A stored pbkdf2 hash. The model treats the hash as ideal: it verifies exactly the password it
   * was made from, whatever the salt.
   */
  datatype PasswordHash = PasswordHash(salt: nat, digest: string)

  /** `pbkdf2_sha256.hash(password)` with the salt it drew. */
  function Hash(password: string, salt: nat): PasswordHash {
    PasswordHash(salt, password)
  }

  /** `pbkdf2_sha256.verify(password, h)`. */
  predicate VerifyHash(password: string, h: PasswordHash) {
    h.digest == password
  }

  /** One row of `users (username, password)`. */
  datatype UserRow = UserRow(username: string, password: PasswordHash)

  /** The UNIQUE constraint on `users.username`. */
  predicate UniqueNames(users: seq<UserRow>) {
    forall i, j :: 0 <= i < j < |users| ==> users[i].username != users[j].username
  }

  /** `SELECT ... WHERE username = ?` followed by `fetchone()`: the position of the first row with that name. */
  function FindUser(users: seq<UserRow>, username: string): (r: Option<nat>)
    ensures r.Some? ==> r.value < |users| && users[r.value].username == username
    ensures r.Some? ==> forall j :: 0 <= j < r.value ==> users[j].username != username
    ensures r.None? <==> forall j :: 0 <= j < |users| ==> users[j].username != username
  {
    if users == [] then None
    else if users[0].username == username then Some(0)
    else match FindUser(users[1..], username)
      case None => None
      case Some(i) => Some(i + 1)
  }

  /** Adding a row leaves the lookup of every name that was already present as it was. */
  lemma FindUserAppend(users: seq<UserRow>, row: UserRow, username: string)
    ensures FindUser(users + [row], username) ==
      if FindUser(users, username).Some? then FindUser(users, username)
      else if row.username == username then Some(|users|)
      else None
  {
    var r := FindUser(users + [row], username);
    if FindUser(users, username).Some? {
      var k := FindUser(users, username).value;
      assert (users + [row])[k] == users[k];
    } else if r.None? {
      assert (users + [row])[|users|] == row;
    }
  }

  /**
   * `verify_login`: the first row with that user name exists and its hash verifies the password.
   * On a table with unique names this is: some row carries both the name and a verifying hash.
   */
  function VerifyLogin(users: seq<UserRow>, username: string, password: string): (r: bool)
    ensures UniqueNames(users) ==>
      (r <==> exists i :: 0 <= i < |users| && users[i].username == username && VerifyHash(password, users[i].password))
  {
    match FindUser(users, username)
    case None => false
    case Some(i) => VerifyHash(password, users[i].password)
  }

  /** After a successful registration the new user can log in with that password and no other. */
  lemma LoginAfterRegister(users: seq<UserRow>, username: string, password: string, salt: nat, attempt: string)
    requires FindUser(users, username).None?
    ensures VerifyLogin(users + [UserRow(username, Hash(password, salt))], username, attempt) <==> attempt == password
  {
    FindUserAppend(users, UserRow(username, Hash(password, salt)), username);
  }

  /** A registration changes nobody else's login. */
  lemma RegisterKeepsOtherLogins(users: seq<UserRow>, row: UserRow, username: string, attempt: string)
    requires row.username != username
    ensures VerifyLogin(users + [row], username, attempt) == VerifyLogin(users, username, attempt)
  {
    FindUserAppend(users, row, username);
    var k := FindUser(users, username);
    if k.Some? {
      assert (users + [row])[k.value] == users[k.value];
    }
  }

  /** One row of `weather_data (city, date, temperature, condition)`. */
  datatype WeatherRow = WeatherRow(city: string, date: string, temperature: int, condition: string)

  /** One `(date, temperature, condition)` entry of a forecast, and one row as the city search returns it. */
  datatype Forecast = Forecast(date: string, temperature: int, condition: string)

  /** The key of the table's UNIQUE(city, date, condition) constraint. */
  datatype Key = Key(city: string, date: string, condition: string)

  function KeyOf(row: WeatherRow): Key {
    Key(row.city, row.date, row.condition)
  }

  function ForecastKey(city: string, e: Forecast): Key {
    Key(city, e.date, e.condition)
  }

  function RowOf(city: string, e: Forecast): WeatherRow {
    WeatherRow(city, e.date, e.temperature, e.condition)
  }

  /** No two rows share a (city, date, condition) key. */
  predicate UniqueKeys(t: seq<WeatherRow>) {
    forall i, j :: 0 <= i < j < |t| ==> KeyOf(t[i]) != KeyOf(t[j])
  }

  /** `SELECT COUNT(*) FROM weather_data WHERE city = ? AND date = ? AND condition = ?`. */
  function KeyCount(t: seq<WeatherRow>, k: Key): (n: nat)
    ensures n == 0 <==> forall i :: 0 <= i < |t| ==> KeyOf(t[i]) != k
  {
    if t == [] then 0
    else KeyCount(t[..|t| - 1], k) + (if KeyOf(t[|t| - 1]) == k then 1 else 0)
  }

  /** A key present in a table stays present in every extension of it. */
  lemma KeyCountExtend(t: seq<WeatherRow>, u: seq<WeatherRow>, k: Key)
    requires KeyCount(t, k) > 0
    ensures KeyCount(t + u, k) > 0
  {
    var i :| 0 <= i < |t| && KeyOf(t[i]) == k;
    assert (t + u)[i] == t[i];
  }

  /** The body of the loop in `store_weather_data`: insert the entry unless its key is already stored. */
  function InsertIfAbsent(t: seq<WeatherRow>, city: string, e: Forecast): (r: seq<WeatherRow>)
    ensures |t| <= |r| <= |t| + 1 && r[..|t|] == t
    ensures KeyCount(r, ForecastKey(city, e)) > 0
  {
    if KeyCount(t, ForecastKey(city, e)) == 0 then t + [RowOf(city, e)] else t
  }

  /** `store_weather_data(city, forecast)`: the entries inserted one after another, in order. */
  function StoreForecast(t: seq<WeatherRow>, city: string, forecast: seq<Forecast>): (r: seq<WeatherRow>)
    ensures |t| <= |r| <= |t| + |forecast|
    decreases |forecast|
  {
    if forecast == [] then t
    else InsertIfAbsent(StoreForecast(t, city, forecast[..|forecast| - 1]), city, forecast[|forecast| - 1])
  }

  /**
   * Storing a forecast only appends: every earlier row, its temperature included, is unchanged,
   * and every appended row is an entry of the forecast for that city.
   */
  lemma {:induction false} StoreForecastAppends(t: seq<WeatherRow>, city: string, forecast: seq<Forecast>)
    ensures var r := StoreForecast(t, city, forecast);
      |t| <= |r| && r[..|t|] == t &&
      forall i :: |t| <= i < |r| ==> r[i].city == city && Forecast(r[i].date, r[i].temperature, r[i].condition) in forecast
    decreases |forecast|
  {
    if forecast != [] {
      var f' := forecast[..|forecast| - 1];
      StoreForecastAppends(t, city, f');
      var p := StoreForecast(t, city, f');
      var e := forecast[|forecast| - 1];
      assert e in forecast;
      assert forall x :: x in f' ==> x in forecast;
      if KeyCount(p, ForecastKey(city, e)) == 0 {
        var r := p + [RowOf(city, e)];
        assert r[..|t|] == p[..|t|];
        forall i | |t| <= i < |r|
          ensures r[i].city == city && Forecast(r[i].date, r[i].temperature, r[i].condition) in forecast
        {
          if i < |p| {
            assert r[i] == p[i];
          }
        }
      }
    }
  }

  /** After storing a forecast, the key of every one of its entries is in the table. */
  lemma {:induction false} StoreForecastCovers(t: seq<WeatherRow>, city: string, forecast: seq<Forecast>)
    ensures forall i :: 0 <= i < |forecast| ==> KeyCount(StoreForecast(t, city, forecast), ForecastKey(city, forecast[i])) > 0
    decreases |forecast|
  {
    if forecast != [] {
      var f' := forecast[..|forecast| - 1];
      StoreForecastCovers(t, city, f');
      var p := StoreForecast(t, city, f');
      var e := forecast[|forecast| - 1];
      var r := StoreForecast(t, city, forecast);
      assert r == InsertIfAbsent(p, city, e);
      forall i | 0 <= i < |forecast| ensures KeyCount(r, ForecastKey(city, forecast[i])) > 0 {
        if i < |f'| {
          assert f'[i] == forecast[i];
          if r != p {
            KeyCountExtend(p, [RowOf(city, e)], ForecastKey(city, forecast[i]));
          }
        } else if r != p {
          assert KeyOf(r[|r| - 1]) == ForecastKey(city, e);
        }
      }
    }
  }

  /** Storing a forecast keeps the keys unique: an entry whose key is present is never inserted. */
  lemma {:induction false} StoreForecastUnique(t: seq<WeatherRow>, city: string, forecast: seq<Forecast>)
    requires UniqueKeys(t)
    ensures UniqueKeys(StoreForecast(t, city, forecast))
    decreases |forecast|
  {
    if forecast != [] {
      var f' := forecast[..|forecast| - 1];
      StoreForecastUnique(t, city, f');
      var p := StoreForecast(t, city, f');
      var e := forecast[|forecast| - 1];
      if KeyCount(p, ForecastKey(city, e)) == 0 {
        var r := p + [RowOf(city, e)];
        forall i, j | 0 <= i < j < |r| ensures KeyOf(r[i]) != KeyOf(r[j]) {
          assert r[i] == p[i];
          if j < |p| {
            assert r[j] == p[j];
          }
        }
      }
    }
  }

  /** A forecast whose every key is already stored changes nothing. */
  lemma {:induction false} StoreForecastPresent(t: seq<WeatherRow>, city: string, forecast: seq<Forecast>)
    requires forall i :: 0 <= i < |forecast| ==> KeyCount(t, ForecastKey(city, forecast[i])) > 0
    ensures StoreForecast(t, city, forecast) == t
    decreases |forecast|
  {
    if forecast != [] {
      var f' := forecast[..|forecast| - 1];
      assert forall i :: 0 <= i < |f'| ==> f'[i] == forecast[i];
      StoreForecastPresent(t, city, f');
    }
  }

  /** Keys stored once stay stored in every later table that extends this one. */
  lemma CoveredStaysCovered(t: seq<WeatherRow>, u: seq<WeatherRow>, city: string, forecast: seq<Forecast>)
    requires |t| <= |u| && u[..|t|] == t
    requires forall i :: 0 <= i < |forecast| ==> KeyCount(t, ForecastKey(city, forecast[i])) > 0
    ensures forall i :: 0 <= i < |forecast| ==> KeyCount(u, ForecastKey(city, forecast[i])) > 0
  {
    assert u == t + u[|t|..];
    forall i | 0 <= i < |forecast| ensures KeyCount(u, ForecastKey(city, forecast[i])) > 0 {
      KeyCountExtend(t, u[|t|..], ForecastKey(city, forecast[i]));
    }
  }

  /** Storing the same forecast twice is the same as storing it once. */
  lemma StoreForecastIdempotent(t: seq<WeatherRow>, city: string, forecast: seq<Forecast>)
    ensures StoreForecast(StoreForecast(t, city, forecast), city, forecast) == StoreForecast(t, city, forecast)
  {
    StoreForecastCovers(t, city, forecast);
    StoreForecastPresent(StoreForecast(t, city, forecast), city, forecast);
  }

  /** The rows of one city as `(date, temperature, condition)`, in table order. */
  function Matching(t: seq<WeatherRow>, city: string): (r: seq<Forecast>)
    ensures |r| <= |t|
    ensures forall e :: e in r <==> RowOf(city, e) in t
  {
    if t == [] then []
    else
      var rest := Matching(t[1..], city);
      assert t == [t[0]] + t[1..];
      if t[0].city == city then [Forecast(t[0].date, t[0].temperature, t[0].condition)] + rest else rest
  }

  /** Text order of SQLite's BINARY collation: code point by code point, a proper prefix first. */
  predicate DateLe(a: string, b: string): (r: bool)
    ensures a <= b ==> r
  {
    if a == [] then true
    else if b == [] then false
    else if a[0] != b[0] then a[0] < b[0]
    else DateLe(a[1..], b[1..])
  }

  lemma {:induction false} DateLeTotal(a: string, b: string)
    ensures DateLe(a, b) || DateLe(b, a)
  {
    if a != [] && b != [] && a[0] == b[0] {
      DateLeTotal(a[1..], b[1..]);
    }
  }

  lemma {:induction false} DateLeTrans(a: string, b: string, c: string)
    requires DateLe(a, b) && DateLe(b, c)
    ensures DateLe(a, c)
  {
    if a != [] && b != [] && c != [] && a[0] == b[0] && b[0] == c[0] {
      DateLeTrans(a[1..], b[1..], c[1..]);
    }
  }

  /** Dates never decrease along the sequence (`ORDER BY date`). */
  predicate SortedByDate(s: seq<Forecast>) {
    forall i, j :: 0 <= i < j < |s| ==> DateLe(s[i].date, s[j].date)
  }

  /** `e` placed before the first entry it does not come after. */
  function InsertByDate(e: Forecast, s: seq<Forecast>): (r: seq<Forecast>)
    ensures multiset(r) == multiset(s) + multiset{e}
  {
    if s == [] then [e]
    else if DateLe(e.date, s[0].date) then [e] + s
    else
      assert s == [s[0]] + s[1..];
      [s[0]] + InsertByDate(e, s[1..])
  }

  /** An entry no later than every entry of a sorted sequence can go in front of it. */
  lemma SortedCons(x: Forecast, s: seq<Forecast>)
    requires SortedByDate(s)
    requires forall y :: y in s ==> DateLe(x.date, y.date)
    ensures SortedByDate([x] + s)
  {
    var r := [x] + s;
    forall i, j | 0 <= i < j < |r| ensures DateLe(r[i].date, r[j].date) {
      assert r[j] == s[j - 1] && s[j - 1] in s;
      if i > 0 {
        assert r[i] == s[i - 1];
      }
    }
  }

  lemma SortedTail(s: seq<Forecast>)
    requires SortedByDate(s) && s != []
    ensures SortedByDate(s[1..])
    ensures forall y :: y in s[1..] ==> DateLe(s[0].date, y.date)
  {
    forall i, j | 0 <= i < j < |s[1..]| ensures DateLe(s[1..][i].date, s[1..][j].date) {
      assert s[1..][i] == s[i + 1] && s[1..][j] == s[j + 1];
    }
    forall y | y in s[1..] ensures DateLe(s[0].date, y.date) {
      var j :| 0 <= j < |s[1..]| && s[1..][j] == y;
      assert s[1..][j] == s[j + 1];
    }
  }

  /** Inserting into a sorted sequence keeps it sorted. */
  lemma {:induction false} InsertByDateSorted(e: Forecast, s: seq<Forecast>)
    requires SortedByDate(s)
    ensures SortedByDate(InsertByDate(e, s))
  {
    if s == [] {
    } else {
      SortedTail(s);
      if DateLe(e.date, s[0].date) {
        forall y | y in s ensures DateLe(e.date, y.date) {
          if y != s[0] {
            DateLeTrans(e.date, s[0].date, y.date);
          }
        }
        SortedCons(e, s);
      } else {
        var rest := InsertByDate(e, s[1..]);
        InsertByDateSorted(e, s[1..]);
        DateLeTotal(e.date, s[0].date);
        forall x | x in rest ensures DateLe(s[0].date, x.date) {
          assert x in multiset(rest);
        }
        SortedCons(s[0], rest);
      }
    }
  }

  /** The entries sorted by date; entries with equal dates may come in any order. */
  function SortByDate(s: seq<Forecast>): (r: seq<Forecast>)
    ensures SortedByDate(r)
    ensures multiset(r) == multiset(s)
  {
    if s == [] then []
    else
      assert s == [s[0]] + s[1..];
      var rest := SortByDate(s[1..]);
      InsertByDateSorted(s[0], rest);
      InsertByDate(s[0], rest)
  }

  /** One row of `files (filename, uploader)`. */
  datatype FileRow = FileRow(filename: string, uploader: string)

  /** `{'filename': ..., 'uploader': ...}`, one entry of `get_uploaded_files`. */
  datatype FileEntry = FileEntry(filename: string, uploader: string)

  /** The list comprehension of `get_uploaded_files`. */
  function FileEntries(files: seq<FileRow>): (r: seq<FileEntry>)
    ensures |r| == |files|
    ensures forall i :: 0 <= i < |files| ==> r[i].filename == files[i].filename && r[i].uploader == files[i].uploader
  {
    seq(|files|, i requires 0 <= i < |files| => FileEntry(files[i].filename, files[i].uploader))
  }

  /** A saved file shows up as the last entry of the listing, after all earlier ones. */
  lemma FileEntriesAppend(files: seq<FileRow>, row: FileRow)
    ensures FileEntries(files + [row]) == FileEntries(files) + [FileEntry(row.filename, row.uploader)]
  {
    var l, r := FileEntries(files + [row]), FileEntries(files) + [FileEntry(row.filename, row.uploader)];
    forall i | 0 <= i < |l| ensures l[i] == r[i] {
      if i < |files| {
        assert (files + [row])[i] == files[i];
      }
    }
  }

  /** `DELETE FROM files WHERE filename = ?`: the other rows, in their order. */
  function WithoutFile(files: seq<FileRow>, filename: string): (r: seq<FileRow>)
    ensures forall x :: multiset(r)[x] == if x.filename == filename then 0 else multiset(files)[x]
  {
    if files == [] then []
    else
      assert files == [files[0]] + files[1..];
      var rest := WithoutFile(files[1..], filename);
      if files[0].filename == filename then rest else [files[0]] + rest
  }

  lemma {:induction false} WithoutFileAppend(a: seq<FileRow>, b: seq<FileRow>, filename: string)
    ensures WithoutFile(a + b, filename) == WithoutFile(a, filename) + WithoutFile(b, filename)
  {
    if a == [] {
      assert a + b == b;
    } else {
      assert (a + b)[0] == a[0] && (a + b)[1..] == a[1..] + b;
      WithoutFileAppend(a[1..], b, filename);
    }
  }

  /** Deleting a file name twice is deleting it once. */
  lemma {:induction false} WithoutFileIdempotent(files: seq<FileRow>, filename: string)
    ensures WithoutFile(WithoutFile(files, filename), filename) == WithoutFile(files, filename)
  {
    if files != [] {
      WithoutFileIdempotent(files[1..], filename);
    }
  }

  /** Deleting the name of the file just saved removes its row and every older row with that name. */
  lemma DeleteAfterSave(files: seq<FileRow>, filename: string, uploader: string)
    ensures WithoutFile(files + [FileRow(filename, uploader)], filename) == WithoutFile(files, filename)
  {
    WithoutFileAppend(files, [FileRow(filename, uploader)], filename);
    assert WithoutFile([FileRow(filename, uploader)][1..], filename) == [];
  }

  /** The forecasts `prepopulate_weather_data` stores, city by city. */
  const MontrealWeek: seq<Forecast> := [
    Forecast("2024-11-01", 5, "Sunny"), Forecast("2024-11-02", 6, "Partly Cloudy"),
    Forecast("2024-11-03", 4, "Rainy"), Forecast("2024-11-04", 3, "Snowy"),
    Forecast("2024-11-05", 7, "Cloudy"), Forecast("2024-11-06", 8, "Windy"),
    Forecast("2024-11-07", 5, "Foggy")]
  const TorontoWeek: seq<Forecast> := [
    Forecast("2024-11-01", 10, "Sunny"), Forecast("2024-11-02", 12, "Partly Cloudy"),
    Forecast("2024-11-03", 8, "Rainy"), Forecast("2024-11-04", 9, "Snowy"),
    Forecast("2024-11-05", 13, "Cloudy"), Forecast("2024-11-06", 14, "Windy"),
    Forecast("2024-11-07", 11, "Foggy")]
  const VancouverWeek: seq<Forecast> := [
    Forecast("2024-11-01", 11, "Sunny"), Forecast("2024-11-02", 13, "Partly Cloudy"),
    Forecast("2024-11-03", 9, "Rainy"), Forecast("2024-11-04", 7, "Snowy"),
    Forecast("2024-11-05", 15, "Cloudy"), Forecast("2024-11-06", 16, "Windy"),
    Forecast("2024-11-07", 13, "Foggy")]

  /** The table after `prepopulate_weather_data`: Montreal, then Toronto, then Vancouver (the dict's order). */
  function Prepopulated(t: seq<WeatherRow>): seq<WeatherRow> {
    StoreForecast(StoreForecast(StoreForecast(t, "Montreal", MontrealWeek), "Toronto", TorontoWeek), "Vancouver", VancouverWeek)
  }

  /**
   * Storing three forecasts a second time, in the same order, adds nothing: every key of each
   * is already stored and stays stored while the later ones are appended.
   */
  lemma StoreThreeIdempotent(t: seq<WeatherRow>, c1: string, f1: seq<Forecast>, c2: string, f2: seq<Forecast>,
                             c3: string, f3: seq<Forecast>)
    ensures var c := StoreForecast(StoreForecast(StoreForecast(t, c1, f1), c2, f2), c3, f3);
      StoreForecast(StoreForecast(StoreForecast(c, c1, f1), c2, f2), c3, f3) == c
  {
    var a := StoreForecast(t, c1, f1);
    var b := StoreForecast(a, c2, f2);
    var c := StoreForecast(b, c3, f3);
    StoreForecastCovers(t, c1, f1);
    StoreForecastCovers(a, c2, f2);
    StoreForecastCovers(b, c3, f3);
    StoreForecastAppends(a, c2, f2);
    StoreForecastAppends(b, c3, f3);
    assert c[..|a|] == a by {
      assert c[..|b|][..|a|] == b[..|a|];
    }
    CoveredStaysCovered(a, c, c1, f1);
    CoveredStaysCovered(b, c, c2, f2);
    StoreForecastPresent(c, c1, f1);
    StoreForecastPresent(c, c2, f2);
    StoreForecastPresent(c, c3, f3);
  }

  /** Prepopulating a second time (every start of app.py does it) adds nothing. */
  lemma PrepopulateIdempotent(t: seq<WeatherRow>)
    ensures Prepopulated(Prepopulated(t)) == Prepopulated(t)
  {
    StoreThreeIdempotent(t, "Montreal", MontrealWeek, "Toronto", TorontoWeek, "Vancouver", VancouverWeek);
  }

  /** The SQLite file behind user_db.py, once `create_tables` has run. */
  class Database {
    var users: seq<UserRow>
    var weather: seq<WeatherRow>
    var files: seq<FileRow>

    /** The table constraints: unique user names and unique (city, date, condition) keys. */
    ghost predicate Valid()
      reads this
    {
      UniqueNames(users) && UniqueKeys(weather)
    }

    /** Freshly created, empty tables. */
    constructor ()
      ensures Valid() && users == [] && weather == [] && files == []
    {
      users, weather, files := [], [], [];
    }

    /**
     * `register_user`: refuses an empty user name or password, and a taken name (the INSERT raises
     * IntegrityError); otherwise stores the name with a hash of the password.
     */
    method RegisterUser(username: string, password: string, salt: nat) returns (ok: bool)
      requires Valid()
      modifies this
      ensures Valid()
      ensures ok <==> username != "" && password != "" && FindUser(old(users), username).None?
      ensures users == if ok then old(users) + [UserRow(username, Hash(password, salt))] else old(users)
      ensures weather == old(weather) && files == old(files)
    {
      if username == "" || password == "" {
        return false;
      }
      if FindUser(users, username).Some? {
        return false;
      }
      users := users + [UserRow(username, Hash(password, salt))];
      ok := true;
    }

    /** `store_weather_data(city, forecast)`: each entry is inserted unless its key is already stored. */
    method StoreWeatherData(city: string, forecast: seq<Forecast>)
      requires Valid()
      modifies this
      ensures Valid()
      ensures weather == StoreForecast(old(weather), city, forecast)
      ensures users == old(users) && files == old(files)
    {
      var i := 0;
      while i < |forecast|
        invariant 0 <= i <= |forecast|
        invariant weather == StoreForecast(old(weather), city, forecast[..i])
        invariant users == old(users) && files == old(files)
      {
        var e := forecast[i];
        assert forecast[..i + 1][..i] == forecast[..i];
        if KeyCount(weather, ForecastKey(city, e)) == 0 {
          weather := weather + [RowOf(city, e)];
        }
        i := i + 1;
      }
      assert forecast[..i] == forecast;
      StoreForecastUnique(old(weather), city, forecast);
    }

    /** `search_weather_data(city)`: the city's rows as `(date, temperature, condition)`, sorted by date. */
    function SearchWeatherData(city: string): (r: seq<Forecast>)
      reads this
      ensures SortedByDate(r)
      ensures multiset(r) == multiset(Matching(weather, city))
      ensures forall e :: e in r <==> RowOf(city, e) in weather
    {
      var r := SortByDate(Matching(weather, city));
      assert forall e :: e in r <==> e in multiset(Matching(weather, city));
      r
    }

    /** `save_file_metadata`: appends one row. */
    method SaveFileMetadata(filename: string, uploader: string)
      modifies this
      ensures files == old(files) + [FileRow(filename, uploader)]
      ensures users == old(users) && weather == old(weather)
    {
      files := files + [FileRow(filename, uploader)];
    }

    /** `get_uploaded_files`: one entry per row, in table order. */
    function UploadedFiles(): (r: seq<FileEntry>)
      reads this
      ensures |r| == |files|
      ensures forall i :: 0 <= i < |files| ==> r[i].filename == files[i].filename && r[i].uploader == files[i].uploader
    {
      FileEntries(files)
    }

    /** `delete_file_metadata`: removes every row with that file name and keeps the rest in order. */
    method DeleteFileMetadata(filename: string)
      modifies this
      ensures files == WithoutFile(old(files), filename)
      ensures users == old(users) && weather == old(weather)
    {
      files := WithoutFile(files, filename);
    }

    /** `prepopulate_weather_data`: stores the three sample weeks, Montreal first. */
    method PrepopulateWeatherData()
      requires Valid()
      modifies this
      ensures Valid()
      ensures weather == Prepopulated(old(weather))
      ensures users == old(users) && files == old(files)
    {
      StoreWeatherData("Montreal", MontrealWeek);
      StoreWeatherData("Toronto", TorontoWeek);
      StoreWeatherData("Vancouver", VancouverWeek);
    }
  }
}
