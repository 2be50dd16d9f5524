# Weather dashboard core, modelled in Dafny

The system is a small weather dashboard. It has three parts:

- A Flask web application (`app.py`). Users register and log in. They search a city's 7-day
  forecast, update a reading, raise alerts and upload files.
- A data layer (`user_db.py`). SQLite tables hold users, weather readings and upload metadata.
- An alert side. `alerts_db.py` is an append-only SQLite log of alerts. `alert.py` is a TCP
  server that replays the stored alerts to every new client and broadcasts the message of each
  `alert` request to every connected client. It also accepts `get_latest_alert` requests, but as
  written each one raises and ends the connection (see "## Findings").

The model has five modules, one per source file plus a small shared one:

| file | module | what it holds |
|---|---|---|
| `util.dfy` | `Util` | `Option`; `Query`, the result of one SQL statement (value or raised exception); `NoDup`; Python's `list.remove` as `RemoveFirst`; `Reverse` |
| `alerts_db.dfy` | `AlertsDb` | class `AlertStore`: the `alerts` table with AUTOINCREMENT ids, CURRENT_TIMESTAMP timestamps and the table's existence |
| `alert_server.dfy` | `AlertServer` | class `Socket` (a real client transport: delivered messages, closed flag, whether sends fail); class `Server` (CONNECTED_CLIENTS and the per-connection handler); pure functions `Dispatch`/`Serve`/`Connection` that say what a connection publishes and receives |
| `user_db.dfy` | `UserDb` | class `Database` with the `users`, `weather_data` and `files` tables as sequences of rows; the pure functions its methods are proved against |
| `app.dfy` | `WebApp` | upload whitelist; de-duplication and date lookup of the weather pages; update-or-insert; class `App` (connected_users, the session user, the SocketIO `new_alert` emits) |

Methods that change state are proved against pure functions of the old state. For example,
`StoreWeatherData` ends with `weather == StoreForecast(old(weather), city, forecast)`. The
properties the application relies on are then lemmas about those functions: idempotence,
uniqueness of keys, "earlier rows are never changed", and round trips: register then log in
(`UserDb.LoginAfterRegister`), and log in then log out, which restores the list of connected
users for a user with a non-empty name who was not already connected (`WebApp.App.LoginThenLogout`).

### Behaviour of the code worth knowing

- The backlog is replayed newest first, because `get_weather_alerts` sorts by
  `timestamp DESC` (alerts_db.py:48).
- An inbound `alert` request is only broadcast (alert.py:32-35). The alert server never
  writes to the alert store.
- A client whose send fails during a broadcast stays registered (alert.py:50-55). It is
  unregistered only when its own handler exits (alert.py:40-43).
- The de-duplication in `select_city` (app.py:174-179) never removes anything:
  `weather_data` is keyed by (city, date, condition), and every (date, temperature, condition)
  triple of one city already occurs once (`WebApp.SearchHasNoDuplicates`).
- `update_weather_data` called with an alert description stores the alert twice
  (app.py:101 and again inside `send_to_alert_server`, app.py:49). The first copy is for the
  city, the second for "Global". The alert is emitted once. The model keeps this behaviour.
  The double store is latent: the only caller, the `update_weather` route, passes no
  description (app.py:200) and stores its alert once, through `send_to_alert_server`
  (app.py:202-204).
- `send_to_alert_server` (app.py:46-55) never contacts the alert server: `ALERT_SERVER_HOST`
  and `ALERT_SERVER_PORT` (app.py:31-32) are never used. An alert raised on the web reaches the
  alert server's TCP clients only as backlog, when they next connect. This is why
  `WebApp.App.SendToAlertServer` stores and emits but broadcasts nothing over TCP.

## Model

| member | source | states |
|---|---|---|
| Util.RemoveFirst | alert.py:43 | `list.remove(x)` on a list holding `x` (alert.py:43, app.py:258): the result is one element shorter; with the lemmas below, exactly one copy of `x` goes and nothing else |
| Util.RemoveFirstNoDup | app.py:256-258 | removing a listed name from a duplicate-free list removes exactly that name and nothing else, and keeps the list duplicate-free |
| Util.RemoveFirstMultiset | alert.py:42-43 | `list.remove` takes away exactly one copy of the element |
| Util.RemoveFirstAppended | alert.py:42-43 | removing the socket that registration just appended gives back the registry as it was before the connection |
| AlertsDb.NewestFirst | alerts_db.py:48 | `ORDER BY timestamp DESC` with equal timestamps in reverse insertion order: one record per row, the i-th being the i-th newest row |
| AlertsDb.NewestFirstAppend | alerts_db.py:45-50 | after an insert, the newest-first listing is the new alert followed by the previous listing |
| AlertsDb.AlertStore.CreateAlertsTable | alerts_db.py:12-25 | CREATE TABLE IF NOT EXISTS: afterwards the table exists, and existing rows, ids and clock are unchanged |
| AlertsDb.AlertStore.AddWeatherAlert | alerts_db.py:28-38 | with the table present: exactly one row appended, with a fresh, larger id, the given city, description and user, and the current time; earlier rows unchanged. Without the table: it raises and nothing changes |
| AlertsDb.AlertStore.WeatherAlerts | alerts_db.py:41-53 | raises iff the table is missing; otherwise one record per stored row (same multiset), ordered by timestamp descending |
| AlertsDb.AlertStore.UnsentAlerts | alerts_db.py:56-67 | raises iff the table is missing; otherwise the same records as `get_weather_alerts` (as a multiset), in no promised order |
| AlertsDb.AlertStore.LatestAlert | alert.py:27-31 | the lookup alert.py needs: fails iff the table is missing; none iff no alerts; otherwise the row with the greatest id, which is also the head of `get_weather_alerts` |
| AlertServer.Dispatch | alert.py:24-37 | one read: an empty read, undecodable data or a missing "type" stops the loop; an unrecognised type does nothing; each read broadcasts at most one message, only for an `alert` request, and sends the client at most one |
| AlertServer.Serve | alert.py:23-39 | the request loop over all reads. It has no contract of its own: `ServeBounds`, `ServeAt`, `ServeStopsAt`, `ServeIgnoresUnrecognised` and `ServePublishesAlertRequests` state what it does, and `Server.ServeRequests` is proved equal to it |
| AlertServer.ServeBounds | alert.py:23-39 | a session broadcasts at most one message per read and sends the client at most one per read |
| AlertServer.Connection | alert.py:16-39 | a whole connection: a failed backlog query ends it with an exception before anything is sent; with a readable backlog, a healthy client receives at least one message per stored alert, and the broadcasts are exactly those of the request loop |
| AlertServer.Socket.Send | alert.py:21 | `send` (alert.py:21, 31, 53): delivers the message iff the socket is healthy, otherwise raises and delivers nothing; never closes the socket |
| AlertServer.Socket.Close | alert.py:44 | `close`: the socket is closed and what it received is kept |
| AlertServer.ServeStopsAt | alert.py:23-39 | after an empty read, undecodable data or a request without "type", nothing more is read: what follows has no effect |
| AlertServer.ServeIgnoresUnrecognised | alert.py:27-35 | a request of any type other than `get_latest_alert` and `alert` is ignored and the loop goes on |
| AlertServer.ServePublishesAlertRequests | alert.py:32-35 | while no read stops the loop, and the lookup works for each `get_latest_alert` request there is (none is needed for a session of `alert` requests only, even with the as-written lookup), the connection broadcasts exactly the messages of its `alert` requests, in order (a missing message is ""), and ends at the end of the stream |
| AlertServer.BacklogFirst | alert.py:17-21 | a healthy client first receives one message per stored alert, carrying its description (`alert[1]`), in the order the query returned them |
| AlertServer.GetLatestKeepsOpen | alert.py:27-31 | with the corrected lookup, a `get_latest_alert` request replies with the newest alert's description (none if there is none) and the connection goes on |
| AlertServer.GetLatestAsWrittenCloses | alert.py:27-39 | as written, a `get_latest_alert` request raises, so the session ends at once with an exception, whatever follows |
| AlertServer.Server.BroadcastAlert | alert.py:47-55 | every registered client whose sends work receives the message once, in addition to what it had; a failing client is skipped, the rest are still tried, and the registry is unchanged |
| AlertServer.Server.SendBacklog | alert.py:17-21 | runs only for a registered client; delivers one message per backlog row, in order, or stops at the first failing send and reports it |
| AlertServer.Server.HandleRequest | alert.py:24-35 | one read does what `Dispatch` prescribes: the client receives the reply or broadcast, every other client receives the broadcasts, and `stop` says whether the loop ends |
| AlertServer.Server.ServeRequests | alert.py:23-39 | the loop over all reads matches `Serve`: what the client receives, what every other client receives, and whether it ended by an empty read or an exception |
| AlertServer.Server.Converse | alert.py:16-39 | backlog replay, then the request loop; a failed query or send ends it; the outcome is `Connection(backlog, latest, reads)` |
| AlertServer.Server.Register | alert.py:13 | the new client is appended to CONNECTED_CLIENTS, which stays duplicate-free |
| AlertServer.Server.Release | alert.py:40-44 | on every exit path the client is removed from the registry if listed, then closed; nothing else it received changes |
| AlertServer.Server.HandleAlertClient | alert.py:12-45 | a whole connection: the registry is the same as before it, the client is closed, the alert store is untouched, the client received `Connection(...)`'s messages, and every other client received exactly the session's broadcasts |
| UserDb.FindUser | user_db.py:75-76 | `fetchone` after selecting by name: the first row with that name, or none iff no row has it |
| UserDb.FindUserAppend | user_db.py:58-76 | an insert changes the lookup of no name already present; the new name is found at the new row |
| UserDb.VerifyLogin | user_db.py:71-81 | on a table with unique names, login succeeds iff some row has that name and a hash that verifies the password |
| UserDb.LoginAfterRegister | user_db.py:47-81 | after registering a new name, logging in with it succeeds with exactly the registered password |
| UserDb.RegisterKeepsOtherLogins | user_db.py:47-81 | registering one user changes no other user's login result |
| UserDb.KeyCount | user_db.py:90-95 | the COUNT(*) is zero iff no row has the (city, date, condition) key |
| UserDb.InsertIfAbsent | user_db.py:90-99 | one loop turn of `store_weather_data`: appends at most one row and keeps the earlier rows; afterwards the entry's key is stored |
| UserDb.StoreForecast | user_db.py:88-99 | the whole loop: adds at most one row per entry and never removes one |
| UserDb.StoreForecastAppends | user_db.py:84-102 | storing a forecast only appends: every earlier row, its temperature included, is unchanged, and each new row is one of the forecast's entries for that city |
| UserDb.StoreForecastCovers | user_db.py:88-99 | afterwards the key of every entry of the forecast is in the table |
| UserDb.StoreForecastUnique | user_db.py:26-33 | storing a forecast keeps (city, date, condition) unique |
| UserDb.StoreForecastPresent | user_db.py:88-99 | a forecast whose keys are all stored changes nothing (a new temperature for a stored key is dropped) |
| UserDb.StoreForecastIdempotent | user_db.py:84-102 | storing the same forecast twice is the same as storing it once |
| UserDb.Matching | user_db.py:110-115 | the city's rows: an entry is returned iff the table holds that row for the city |
| UserDb.DateLe | user_db.py:114 | SQLite's BINARY text order on dates: a prefix comes first; with `DateLeTotal` and `DateLeTrans` it is a total preorder |
| UserDb.DateLeTotal | user_db.py:114 | any two dates are ordered by the text collation |
| UserDb.DateLeTrans | user_db.py:114 | the text collation is transitive |
| UserDb.SortByDate | user_db.py:114 | the result is sorted by date and is a permutation of the input |
| UserDb.FileEntries | user_db.py:170 | the list comprehension: one entry per row, in order, with the row's filename and uploader |
| UserDb.FileEntriesAppend | user_db.py:138-170 | a saved file appears as the last entry of the listing, after all earlier entries, which are unchanged |
| UserDb.WithoutFile | user_db.py:179-181 | every row with that file name is deleted and every other row keeps its number of copies |
| UserDb.WithoutFileIdempotent | user_db.py:173-186 | deleting a file name twice is the same as deleting it once |
| UserDb.DeleteAfterSave | user_db.py:138-186 | deleting the name of the file just saved removes its row, giving the same table as deleting from before the save |
| UserDb.StoreThreeIdempotent | user_db.py:223-224 | storing three forecasts again, in the same order, adds nothing |
| UserDb.PrepopulateIdempotent | user_db.py:192-224 | prepopulating a second time (every start of the application does it) leaves the table as after the first time |
| UserDb.Database.constructor | user_db.py:14-44 | the tables after `create_tables` on a fresh file: empty, with the constraints holding |
| UserDb.Database.RegisterUser | user_db.py:47-68 | succeeds iff name and password are non-empty and the name is not taken; then exactly one row with the name and a hash of the password is appended, otherwise nothing changes; names stay unique |
| UserDb.Database.StoreWeatherData | user_db.py:84-102 | the table becomes `StoreForecast(old table, city, forecast)`, keys stay unique, the other tables are unchanged |
| UserDb.Database.SearchWeatherData | user_db.py:105-120 | sorted by date; exactly the city's rows (the same multiset as `Matching`); an entry is returned iff its row is stored |
| UserDb.Database.SaveFileMetadata | user_db.py:138-149 | exactly one row appended; the other tables unchanged |
| UserDb.Database.UploadedFiles | user_db.py:156-170 | one entry per row, in table order, with the row's filename and uploader |
| UserDb.Database.DeleteFileMetadata | user_db.py:173-186 | the files table becomes `WithoutFile` of the old one; the other tables unchanged |
| UserDb.Database.PrepopulateWeatherData | user_db.py:192-224 | stores the three sample weeks, Montreal, Toronto, Vancouver in this order; keys stay unique |
| WebApp.LastDot | app.py:43 | none iff the name has no '.'; otherwise a '.' with no '.' after it |
| WebApp.AllowedFile | app.py:42-43 | `allowed_file`: an accepted name contains a '.' and does not end with one; `AllowedFileIff` gives the exact characterisation |
| WebApp.AllowedFileIff | app.py:42-43 | a name is accepted iff it has a '.' with no later '.' and the text after it, lower-cased, is one of txt, pdf, png, jpg, jpeg, gif |
| WebApp.AllowedWithExtension | app.py:42-43 | any base name followed by '.' and a whitelisted extension is accepted, even if the base contains dots |
| WebApp.AllowedUpperCase | app.py:43 | the extension is compared after lower-casing ("a.PNG" is accepted) |
| WebApp.RefusedEmptyExtension | app.py:43 | a trailing '.' leaves an empty extension, which is refused |
| WebApp.RefusedDoubleExtension | app.py:43 | only the last extension counts ("x.tar.gz" is refused) |
| WebApp.RefusedWithoutDot | app.py:43 | a name without '.' is refused |
| WebApp.FirstOccurrences | app.py:174-179 | the result has no duplicates and the same members as the input |
| WebApp.FirstOccurrencesOrder | app.py:174-179 | the result keeps the order in which entries first appear |
| WebApp.FirstOccurrencesOfNoDup | app.py:174-179 | a duplicate-free list is left unchanged |
| WebApp.SearchHasNoDuplicates | app.py:170-179 | on a table whose keys are unique, de-duplicating a city search changes nothing |
| WebApp.UniqueWeatherInfo | app.py:174-179 | the `seen` loop computes exactly `FirstOccurrences` of the rows |
| WebApp.WeatherForDate | app.py:208-212 | none iff no record has the date; otherwise the first record with that date |
| WebApp.SetTemperature | app.py:83-87 | the UPDATE keeps the number of rows and every row's key |
| WebApp.Upsert | app.py:83-94 | the table effect of `update_weather_data`: at most one row added, every existing row keeps its key; `UpsertExactlyOne` and `UpsertIdempotent` state the rest |
| WebApp.UpsertExactlyOne | app.py:78-96 | on a table with unique keys, afterwards exactly one row has the key and it carries the new temperature. Every other row keeps its place and value. One row is added iff the key was absent, and keys stay unique |
| WebApp.UpsertIdempotent | app.py:78-96 | repeating the same update changes nothing more |
| WebApp.UpsertOfAbsentIsInsert | app.py:89-94 | for an absent key, the update-or-insert and `store_weather_data`'s insert give the same table |
| WebApp.App.SendToAlertServer | app.py:46-55 | with a session user and the alerts table: exactly one "Global" alert by that user is appended, and the message is emitted once, after the store. Otherwise the error is swallowed and nothing is stored or emitted |
| WebApp.App.UpdateWeatherData | app.py:78-105 | the reading is upserted and committed first. For a non-empty description, the city alert and then the "Global" alert are appended and the message is emitted once, and the next alert id has advanced by two. Without a description, or without the session or the table (it then raises after the commit), the alert store (rows, next id, clock) and the emits are unchanged |
| WebApp.App.Login | app.py:135-140 | succeeds iff `verify_login` does; the user joins connected_users once and only if not already there, and the session records the name |
| WebApp.App.Logout | app.py:255-260 | the session's user leaves connected_users if listed (the others stay), the list stays duplicate-free, and the session is cleared |
| WebApp.App.LoginThenLogout | app.py:135-140 | log in and then log out: for a user with a non-empty name who was not connected, connected_users is as before; a user already connected ends up no longer listed; the session is cleared either way |

## Left out

- Flask routing, templates, redirects, flash messages and request parsing are not modelled. The
  model starts from the values a route reads from its form (`app.py`, except the functions above).
- The file system is not modelled: upload folders, `file.save`, `shutil.move`, `send_from_directory`
  and `os.listdir`. Only the metadata rows are modelled.
- The alert server's accept loop and its threads (alert.py:58-67) are not modelled. Connections are
  served one at a time, so the model does not capture interleavings of concurrent handlers on the
  shared CONNECTED_CLIENTS list.
- A client's reads are given to `HandleAlertClient` as a sequence. JSON framing, `recv(1024)`
  boundaries and byte decoding are out of scope. A read is an end of stream, undecodable data, or
  an object with optional "type" and "message" strings.
- JSON `null` and values that are not strings are not modelled. A read whose JSON decodes to
  something other than an object makes `request['type']` raise TypeError (alert.py:27), which ends
  the connection; the model counts such a read as `Malformed`.
- AlertServer.Socket: a client's sends either always work or always fail. A socket that breaks
  midway through a connection is not modelled.
- SocketIO is modelled only as the log of `new_alert` emits (`App.emitted`). The `new_alert`,
  `test_alert` and `new_file_uploaded` event handlers and the file-upload emit are relay calls
  into Flask-SocketIO and are not modelled.
- UserDb.Hash: pbkdf2_sha256 is modelled as an ideal hash. The salt it draws is a parameter, and
  verification accepts exactly the hashed password.
- SQLite connections, commits and the clock are not modelled. CURRENT_TIMESTAMP is the previous
  insert's time plus a caller-given `elapsed`.
- `create_tables` and `create_files_table` are not modelled as operations. `Database`'s constructor
  is the state after they ran. Failures of statements on a missing `users`, `weather_data` or
  `files` table are therefore not modelled; only the alerts table has a missing-table state.
- UserDb.Database.RegisterUser: the catch-all `except Exception` path is not reached in the model.
  Only the empty-field check and the UNIQUE violation refuse a registration.
- The `upload_time` column is not modelled, because nothing reads it.
- UserDb.Database.UploadedFiles: `SELECT filename, uploader FROM files` has no ORDER BY
  (user_db.py:161-164). The model returns rows in insertion order, which SQLite's rowid scan gives
  but does not promise; `UserDb.FileEntriesAppend`'s "last entry" depends on that order.
- WebApp.App.UpdateWeatherData: the temperature is an integer. The text-to-integer conversion that
  SQLite's INTEGER affinity applies to the form's string is not modelled.
- WebApp.Lower: `str.lower` is modelled on ASCII letters only. Some non-ASCII characters do
  lower-case to ASCII text (U+0130 becomes "i" followed by U+0307, and the Kelvin sign U+212A
  becomes "k"), but no extension made with them lower-cases to exactly one of the six whitelisted
  extensions. So the accept/refuse answer is unaffected.
- AlertsDb.AlertStore.WeatherAlerts: ORDER BY leaves the order of equal timestamps open. The model
  picks one of the allowed orders (reverse insertion); the contract states only the descending order.
- UserDb.Database.SearchWeatherData: entries with equal dates come out in an order chosen by the
  model's insertion sort. The contract states only sortedness and the multiset.
- The `search_weather_data` copy in app.py:60-75 is the same query as user_db.py:105-120 and is
  modelled once, by `UserDb.Database.SearchWeatherData`.
- The second date lookup of `update_weather` (app.py:219-223) is the same loop as app.py:208-212
  and is modelled once, by `WebApp.WeatherForDate`.

## Findings

| source | as written | input that shows it | evidently intended | confidence | as-written member | corrected member |
|---|---|---|---|---|---|---|
| alert.py:27-31 | `handle_alert_client` calls `alerts_db.get_latest_alert()`, which alerts_db.py does not define. The AttributeError is caught by the handler's `except`, which ends the connection. | a connected client sends `{"type": "get_latest_alert"}` | reply with the newest stored alert (if there is one) and keep serving the connection; the model's lookup is `AlertsDb.AlertStore.LatestAlert`, which `AlertServer.Server.HandleAlertClient` uses | high, not executed | AlertServer.GetLatestAsWrittenCloses | AlertServer.GetLatestKeepsOpen |
