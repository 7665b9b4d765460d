# Browsing-event ingestion service, modelled in Dafny

This project models the core of a local browsing-activity logger. A capture agent posts
interaction events (page loads, clicks, text input, focus changes and visible-text
snapshots) to a loopback HTTP service. The service validates them and stores them in one
SQLite `events` table. It also answers filtered, newest-first queries over them.

The model has two parts.

- **The event store** (`server/internal/database/database.go`).
  - The `events` table is a sequence of rows. Each row is a surrogate id plus the stored event.
  - The table has two unique indexes:
    - `(url, field_id, session_id)` covers rows of every type. It binds only rows where both ids are non-NULL.
    - `(url, session_id)` covers `visible_text` rows only.
  - Both indexes are part of a table invariant.
  - `ValidateEvent` is the chain of four guards.
  - A batch insert sends each event to one of three writes: the input upsert, the visible_text upsert or a plain insert.
    - These writes are functions on a `Table` value, and `ApplyBatch` folds them over the batch.
    - `Store.Database.InsertEvents` loops over a working copy of the table. It commits the copy only when every event was written.
  - The query is a filter, then a sort by `ts_utc` descending, then an optional limit. Row ids are dropped from the result.
- **The HTTP decisions** (`server/internal/server/server.go`).
  - A request is abstract: a method, a body that either decoded to a batch or failed to decode, and the query parameters.
  - `PlanEvents` says which status is answered, or which store call is made.
  - `ParseFilter` builds the `EventFilter` from `type`, `since`, `until` and `limit`, in that order.
  - `Server.HandleEvents` runs the plan against the store object and maps the store's answer to 204/200/500.
  - `Decimal.ParseInt64` is Go's base-10, 64-bit `strconv.ParseInt`.

The event's `type` field is called `kind` here (`type` is reserved in Dafny). The
`data` payload is opaque. It is either the JSON document the encoder produces
(`Data.Json`) or a payload the encoder refuses (`Data.Unencodable`). A refused payload
rolls back the batch.

A filter `limit <= 0` means no LIMIT clause (`database.go:211-214`); the default of 100
comes from the HTTP layer (`server.go:66-68`). The store has no delete operation.

## Model

| member | source | states |
|---|---|---|
| Decimal.ParseInt64 | server/internal/server/server.go:75 | accepts a string exactly when it is an optional `+`/`-` followed by one or more ASCII digits and the value it spells fits in 64 bits, and then returns that value; a negative result needs a leading `-` |
| Decimal.ParseFormatRoundTrip | server/internal/server/server.go:74-90 | the decimal rendering of every integer parses back to it when it fits in 64 bits, and is rejected as out of range otherwise |
| Decimal.LeadingPlusIgnored | server/internal/server/server.go:75 | a leading `+` is accepted and gives the same result as the bare digits |
| Decimal.LeadingZeroIgnored | server/internal/server/server.go:75 | a leading zero after the optional sign never changes the result |
| Decimal.LeadingZeroValue | server/internal/server/server.go:75 | prefixing a digit string with `0` keeps it a digit string of the same value |
| Decimal.SignedEdgeCases | server/internal/server/server.go:75 | `-0` is zero; a sign alone and the empty string are syntax errors |
| Store.ValidateEvent | server/internal/database/database.go:82-96 | the event is accepted iff url is non-empty, the type is one of the five and ts_utc > 0; otherwise the error is the first failing check in the order url, empty type, unknown type, timestamp |
| Store.FindConflict | server/internal/database/database.go:113-139 | finds the first row sharing the event's key on the given unique index, or reports that no row does |
| Store.Classify | server/internal/database/database.go:158-166 | input with field_id and session_id goes to the input upsert; otherwise visible_text with session_id goes to the visible_text upsert; everything else is a plain insert |
| Store.Overwrite | server/internal/database/database.go:117-121 | an upsert's update keeps id, url, type, session_id and field_id, and takes ts_utc, ts_iso, title and data from the new event |
| Store.Append | server/internal/database/database.go:105 | a plain insert succeeds exactly when no row shares the event's key on either unique index, and otherwise fails with a constraint violation; it never removes or renumbers a row and adds at most one |
| Store.Upsert | server/internal/database/database.go:113-139 | a hit on the target index always succeeds without adding a row; otherwise the insert can only fail with a constraint violation; existing rows keep their ids and positions |
| Store.Write | server/internal/database/database.go:158-168 | a write fails only with a constraint violation, adds at most one row and keeps every existing row's id and position |
| Store.ApplyEvent | server/internal/database/database.go:146-171 | a validation failure reports exactly the failed check; an unencodable payload of a valid event fails the marshal step; a success wrote a valid, encodable event and added at most one row |
| Store.ApplyBatch | server/internal/database/database.go:146-176 | a successful batch adds at most one row per event, removes and renumbers none, and never lowers the next id; its other properties are in StoreProperties |
| Store.AppendKeepsInvariant | server/internal/database/database.go:59-70 | a plain insert that hits neither unique index keeps ids distinct and both indexes duplicate-free |
| Store.OverwriteKeepsInvariant | server/internal/database/database.go:116-121 | an upsert's update changes no key column, so both indexes stay duplicate-free |
| Store.ApplyEventKeepsInvariant | server/internal/database/database.go:146-171 | every successful write of one event keeps the table invariant (distinct ids, validated rows, encoded data, both unique indexes) |
| Store.Matches | server/internal/database/database.go:191-207 | the WHERE clause: type equality and the inclusive since/until bounds, each only when set (a predicate; Selected and QueryCorrect state its use) |
| Store.Covered | server/internal/database/database.go:59-60 | which events an index binds: both key columns non-NULL for the input index, visible_text with a session for the partial index (a predicate; see TableInvariant) |
| Store.SameKey | server/internal/database/database.go:59-70 | two events collide on an index when both are bound by it and agree on its columns (a predicate; SameKeyTransitive and FindConflictByKey state its properties) |
| Store.TableInvariant | server/internal/database/database.go:43-70 | distinct ids below the next id, validated rows, encodable payloads, and no duplicate key on either unique index (a predicate; kept by ApplyEventKeepsInvariant and ApplyBatchKeepsInvariant) |
| Store.InsertByTime | server/internal/database/database.go:209 | one step of the descending sort adds exactly one element (see InsertByTimePermutes and InsertByTimeSorted) |
| Store.SortNewestFirst | server/internal/database/database.go:209 | the sort keeps the length (see SortNewestFirstCorrect for order and permutation) |
| Store.InsertByTimePermutes | server/internal/database/database.go:209 | inserting into the sorted sequence adds exactly that event |
| Store.InsertByTimeSorted | server/internal/database/database.go:209 | inserting keeps the sequence ordered by ts_utc non-increasing and adds nothing else |
| Store.SortNewestFirstCorrect | server/internal/database/database.go:209 | ORDER BY ts_utc DESC yields a permutation of its input ordered by ts_utc non-increasing |
| Store.Selected | server/internal/database/database.go:191-207 | the WHERE clause: only matching events, every matching row's event included (type equal, since <= ts_utc <= until), ids dropped (SelectedCounts states the multiplicities) |
| Store.SelectedCounts | server/internal/database/database.go:191-207 | every event occurs in the selection exactly as many times as the table holds it when it matches, and not at all otherwise |
| Store.Take | server/internal/database/database.go:211-214 | a positive limit truncates to min(limit, length); a limit <= 0 returns everything; the result is a prefix |
| Store.PrefixIsMostRecent | server/internal/database/database.go:209-214 | every event cut off by the limit is no more recent than any event returned |
| Store.TakeNewestFirst | server/internal/database/database.go:209-214 | the limit applied to a newest-first sequence stays newest-first, draws from it, keeps all of it when limit <= 0, and keeps only events at least as recent as those it drops |
| Store.Query | server/internal/database/database.go:187-214 | an unknown type filter is an error and nothing else is; the result is never longer than the selection (QueryCorrect states the rest) |
| Store.QueryCorrect | server/internal/database/database.go:187-214 | an unknown type filter is an error; otherwise the result holds only matching events, newest first, drawn from the matches, limited to min(limit, matches) when limit > 0, and the most recent ones |
| Store.Database.constructor | server/internal/database/database.go:17-38 | a new store holds an empty table that satisfies the invariant |
| Store.Database.InsertEvents | server/internal/database/database.go:98-178 | on success the committed table is the batch applied in order; on any error the table is exactly as before, including rows the batch wrote earlier; the invariant is kept |
| Store.Database.GetEvents | server/internal/database/database.go:187-262 | error iff the type filter is unknown; otherwise matching events only, ordered by ts_utc non-increasing, at most limit when positive (all matches otherwise), the most recent matches |
| StoreProperties.InvalidEventFailsBatch | server/internal/database/database.go:146-150 | one event failing validation anywhere in the batch makes the whole batch fail |
| StoreProperties.SuccessfulBatchIsValid | server/internal/database/database.go:146-156 | a batch that succeeds consisted only of valid events with encodable payloads |
| StoreProperties.ApplyBatchKeepsInvariant | server/internal/database/database.go:59-70 | after every successful batch no two rows share (url, field_id, session_id) with both ids set, and no two visible_text rows share (url, session_id) with a session set |
| StoreProperties.SameKeyTransitive | server/internal/database/database.go:59-60 | two events sharing a key with a third share it with each other |
| StoreProperties.ConflictIsUnique | server/internal/database/database.go:116 | in a valid table, the row an upsert finds for a key is the only row with that key |
| StoreProperties.FindConflictByKey | server/internal/database/database.go:116 | which row collides depends only on the key columns |
| StoreProperties.InputUpsertOverwrites | server/internal/database/database.go:113-122 | an input event whose key is stored, in a row of any type, overwrites only ts_utc, ts_iso, title and data of that row; every other row, the row count and the id counter stay |
| StoreProperties.VisibleTextUpsertOverwrites | server/internal/database/database.go:130-139 | a visible_text event whose (url, session_id) is stored in a visible_text row overwrites that row the same way |
| StoreProperties.InputUpsertResult | server/internal/database/database.go:113-122 | an input upsert always succeeds; afterwards the key's row holds the event's timestamp and payload, and the table grows by one row exactly when the key was new |
| StoreProperties.LastWriteWins | server/internal/database/database_test.go:846-897 | repeated input events for one key leave one row for it holding the last event's timestamp and payload; the table grows by at most that one row |
| StoreProperties.DistinctInputKeysGiveSeparateRows | server/internal/database/database_test.go:711-801 | on a table that holds neither event's input key, two input events whose keys differ in url, session_id or field_id add two rows under the next two ids |
| StoreProperties.FreshInputKeyAppends | server/internal/database/database.go:113-122 | an input event whose (url, field_id, session_id) no row holds is inserted as one new row under the next id |
| StoreProperties.VisibleTextUpsertResult | server/internal/database/database.go:130-139 | a visible_text upsert succeeds exactly when it finds its (url, session_id) or its insert misses the input index; then exactly one visible_text row has that key, holding its timestamp and payload, and the table grew by one row exactly when the key was new |
| StoreProperties.VisibleTextLastWriteWins | server/internal/database/database.go:130-139 | a run of visible_text events for one (url, session_id) whose first one can be written leaves one row for it holding the last event's timestamp and payload |
| StoreProperties.FreshVisibleTextKeyAppends | server/internal/database/database.go:130-139 | a visible_text event whose keys no row holds is inserted as one new row under the next id |
| StoreProperties.DistinctVisibleTextKeysGiveSeparateRows | server/internal/database/database.go:130-139 | on a table where neither event hits either unique index, two visible_text events whose (url, session_id) differ add two rows under the next two ids |
| StoreProperties.PlainInsertAppends | server/internal/database/database.go:105 | a plain insert that does not hit the input index adds exactly one row holding the event under a fresh id |
| StoreProperties.RepeatedClicksGiveTwoRows | server/internal/database/database_test.go:803-844 | two identical click events lacking a field_id or a session_id give two rows with distinct ids |
| StoreProperties.InputKeyCollisionFailsBatch | server/internal/database/database.go:59-60 | a plain insert, or a visible_text upsert finding no visible_text row, whose (url, field_id, session_id) is already stored violates the input index, and its batch fails |
| StoreProperties.EmptyStoreGivesEmptyResult | server/internal/database/database_test.go:623-637 | an empty store answers any query with a known or absent type filter with no events and no error |
| StoreProperties.UnknownTypeFilterIsError | server/internal/database/database.go:191-194 | an unknown type filter is an error, never an empty result |
| Server.QueryGet | server/internal/server/server.go:70 | an absent query parameter reads as the empty string (see ParseFilter) |
| Server.ParseFilter | server/internal/server/server.go:64-99 | accepts iff since and until are absent or parse as 64-bit integers and limit is absent or a positive integer; the first bad one in the order since, until, limit is reported; type is passed through, empty meaning absent; limit defaults to 100 |
| Server.PlanPostEvents | server/internal/server/server.go:46-55 | a body that failed to decode is 400 and an empty batch is 204, both without a store call; a non-empty batch goes to InsertEvents unchanged |
| Server.PlanGetEvents | server/internal/server/server.go:64-101 | a malformed parameter is 400 without a store call; otherwise GetEvents is called with the parsed filter |
| Server.PlanEvents | server/internal/server/server.go:35-44 | POST goes to the insert path, GET to the query path, and every other method is 405 |
| Server.HandleHealthz | server/internal/server/server.go:31-33 | every health request is answered 200 "ok" |
| Server.Server.constructor | server/internal/server/server.go:24-29 | the server holds the given store |
| Server.Server.HandleEvents | server/internal/server/server.go:35-116 | a request answered before the store leaves it untouched; an insert answers 204 when the batch applies (and commits it) and 500 otherwise (including validation failures), with the store unchanged; a query leaves the store unchanged and answers 200 with the events or 500 on a store error |
| Server.FormattedParamsParse | server/internal/server/server.go:70-99 | the decimal renderings of 64-bit since/until and a positive limit are read back as exactly those values, with type passed through |
| Server.NoParamsIsDefaultFilter | server/internal/server/server.go:66-68 | a query without parameters filters nothing and is limited to 100 |
| Scenarios.PostStoresThreeRows | server/internal/server/server_test.go:188-235 | a batch of a navigate, a click and a focus event is stored as three rows with ids 1 to 3 |
| Scenarios.GetAllIsNewestFirst | server/internal/database/database_test.go:292-345 | reading them back without filters gives all three, newest first |
| Scenarios.GetByTypeIsTheClick | server/internal/database/database.go:191-197 | in the end-to-end scenario, `type=click` gives its one click alone |
| Scenarios.GetSinceIsTheTwoRecent | server/internal/server/server_test.go:452-513 | `since=2` gives the events at 2 and 3, newest first |
| Scenarios.GetRequestsPlanQueries | server/internal/server/server_test.go:427 | the scenario's GET requests build the filters above |

## Left out

- Opening the database, WAL mode and the busy timeout, the DDL itself, prepared statements and `Close` are not modelled. The schema's constraints are the table invariant instead.
- Failures of the engine (begin, prepare, commit, query, row scanning, unmarshalling a stored payload) are not modelled. Stored payloads are always valid JSON (an object, or `null` for an absent or null `data`, which `json.Marshal` renders from a nil map), and that unmarshals into the map without error; the other failures depend on I/O.
- JSON encoding and decoding is not modelled. `data` is opaque, and canonicalisation by SQLite's `json()` is treated as the identity. The request body is modelled as its decode outcome.
- Store.Database.GetEvents: the order among events with equal `ts_utc` is not specified by SQLite. The model returns them in table order; the contract states only the non-increasing order.
- Store.Database.constructor: a new store starts empty; reopening an existing database file is not modelled.
- Concurrent writers and the engine's locking are not modelled. Each `InsertEvents` is one atomic step on a single-threaded store.
- Row ids are modelled as a counter. SQLite assigns the largest id plus one, which gives the same ids here because rows are never deleted and a rolled-back batch restores the counter.
- `Start` (listener, timeouts, signals, graceful shutdown) and `setupRoutes` (path routing) are not modelled. Requests to `/events` and `/healthz` are modelled separately instead.
- Logging, the exact error messages and the `Content-Type` header are not modelled. An error kind is kept instead.
- Decimal.ParseInt64 also stands for `strconv.Atoi` on `limit`, since Go's `int` is 64 bits on the supported targets.
- A successful query's event list can never be null in the model. A Dafny sequence has no null, so the conversion of a nil slice to `[]` at `server.go:110-112` is implicit.
