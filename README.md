# databunker storage core and session records, in Dafny

This project models two pieces of databunker, a personal-data vault:

- its SQLite storage layer (`src/storage/storage.go`), and
- the session records built on top of that layer (`src/sessions_db.go`).

Five modules cover the storage layer:

- `Codec` models the statement builders. They turn a schema-free document into the column lists, `$n` placeholder lists, `SET` clauses and `WHERE` filters of parameterised SQL, and they quote the reserved column name `when`.
- `Catalog` models the table catalogue:
  - `getTable`, the closed enumeration of the nine core tables;
  - the process-wide `knownApps` list filled by `OpenDB`;
  - the ten-table cap that `ValidateNewApp` enforces and `IndexNewApp` relies on.
- `Queries` models the list statements with their paging rule, the row window SQLite returns for such a statement, and the database-file name normalisation.
- `Rows` models the type switches that turn scanned columns back into documents, and the control flow of `getRecordInTableDo` and `getListDo`.
- `Store` models what the delete, expiry, cleanup, insert, count and read statements do to an abstract store: a map from table name to that table's rows, kept in storage order.

`Sessions` covers the session records: `createSessionRecord`, `getUserSession` and `getUserSessionByToken`.

Modelling choices:

- A Go document (`bson.M`, `primitive.M`, `map[string]interface{}`) is modelled as the sequence of its field/value pairs in the order Go's map iteration visits them. Every contract holds for any such order.
- Go's fixed-width integers are the newtypes `Int32` and `Int64`. The casts `int32(...)` are written out as `Narrow32`, so wrap-around is modelled.
- A failed type assertion is the `Panicked` outcome.
- A Go string is modelled one character per byte. `BytesToString` and `StringToBytes` convert each byte to the character of the same code and back; no UTF-8 decoding or validation is modelled.
- These are parameters or arguments:
  - the clock (`now`);
  - encryption and decryption;
  - base64 decoding;
  - UUID generation;
  - `parseExpiration`;
  - the user lookup;
  - the error, if any, that the SQL driver or the transaction reports (`fault`, `queryErr`, `execErr`).

## Model

| member | source | states |
|---|---|---|
| `Codec.EscapeName` | src/storage/storage.go:201-206 | `when` becomes `` `when` ``; every other name is unchanged |
| `Codec.EscapeNameCollision` | src/storage/storage.go:201-206 | two distinct names escape alike only when they are `when` and `` `when` `` |
| `Codec.AccumulateIsJoin` | src/storage/storage.go:215-220 | the builders' "first item bare, later items after a comma" loop gives the items joined by commas, and gives "" only for no items, when no item is empty |
| `Codec.AccumulateConcat` | src/storage/storage.go:289-306 | two accumulation loops in turn add up to one loop over the concatenated items |
| `Codec.DecodeFieldsValues` | src/storage/storage.go:208-247 | for each of the three map types: the column list has one escaped name per field in iteration order, and the k-th value is the k-th field's value; any other type gives "" and no values |
| `Codec.ColumnListIsJoin` | src/storage/storage.go:215-242 | with no empty field name, the column list is the escaped names joined by commas |
| `Codec.ColumnListSplits` | src/storage/storage.go:215-242 | splitting the column list on commas gives back exactly the escaped names, one per value |
| `Codec.EmptyFirstNameLosesSeparator` | src/storage/storage.go:216-220 | an empty first field name leaves `fields` empty, so the next name gets no comma: two values, one column |
| `Codec.DecodeForCleanup` | src/storage/storage.go:249-275 | gives `name=null` per field of a `bson.M` or `map[string]interface{}` joined by commas; gives "" exactly when there are no such fields, including for `*primitive.M` |
| `Codec.BindSetFields` | src/storage/storage.go:289-297 | gives `name=$k` for the k-th field, accumulated with commas; the k-th bound value is the k-th field's value |
| `Codec.DecodeForUpdate` | src/storage/storage.go:277-309 | the SET clause is every set field as `name=$k`, then every deleted field as `name=null`, joined by commas; a nil document contributes nothing; values are the set fields' values in order |
| `Codec.UpdateClauseAccumulates` | src/storage/storage.go:277-309 | the two loops of decodeForUpdate together build the joined SET clause |
| `Codec.UpdateClauseItems` | src/storage/storage.go:289-306 | split on commas, the SET clause has one item per field: the k-th set field bound to `$k`, then each deleted field as `=null`, nothing else |
| `Codec.InsertQuery` | src/storage/storage.go:336-344 | the insert statement is `insert into tbl (columns) values ($1,...,$n)`; with no values it still binds `$1`; the values are the document's, in order |
| `Codec.Placeholders` | src/storage/storage.go:338-343 | the loop builds `$1`, then `,$k` for every further value: the placeholders `$1`..`$n` joined by commas, and just `$1` when there are no values |
| `Codec.PlaceholderNumbering` | src/storage/storage.go:338-343 | the i-th placeholder reads back as `$` followed by the number i+1 |
| `Codec.InsertArityAgrees` | src/storage/storage.go:336-344 | for a non-empty document of plain names, the numbers of columns, placeholders and bound values agree |
| `Codec.EmptyInsertStillBindsOne` | src/storage/storage.go:338-344 | a document of an unhandled type gives `insert into tbl () values ($1)` |
| `Codec.LookupQuery` | src/storage/storage.go:469-482 | LookupRecord's filter is `name=$k` for the k-th field, joined by ` AND ` with no trailing ` AND `; the values are the field values in order |
| `Codec.LookupChainIsJoin` | src/storage/storage.go:474-481 | after j of n fields the statement is the first j terms joined by ` AND `, plus a dangling ` AND ` while j < n |
| `Codec.LookupFilterLength` | src/storage/storage.go:474-481 | the filter's length is its terms' lengths plus five characters for each of the \|row\|-1 ` AND ` joiners, so no ` AND ` dangles at the end |
| `Codec.GetRecordTextsAreLookups` | src/storage/storage.go:486-512 | GetRecord and GetRecord2 build the same statement as LookupRecord on a one- and a two-field document |
| `Catalog.GetTable` | src/storage/storage.go:311-333 | enumeration value t (`TblName`, lines 41-51) names the t-th core table; any other number names `users` |
| `Catalog.GetTableNames` | src/storage/storage.go:311-333 | every number names a core table; distinct numbers name distinct tables except for the `users` fallback |
| `Catalog.ElementsAreMembers` | src/storage/storage.go:1099-1102 | the set built from a slice holds exactly the slice's elements |
| `Catalog.Contains` | src/storage/storage.go:1098-1106 | true exactly when the item is in the slice |
| `Catalog.Admits` | src/storage/storage.go:903-911 | accepts a known name always, and a new one exactly while fewer than ten tables are known |
| `Catalog.Registered` | src/storage/storage.go:932-950 | a new name is appended once its table and index were created; a known name or a failed creation leaves the list alone |
| `Catalog.RegisteredIdempotent` | src/storage/storage.go:932-950 | indexing the same name again changes nothing, and the list never holds a name twice |
| `Catalog.GuardedRunKeepsCap` | src/storage/storage.go:903-950 | validating before every indexing keeps the catalogue within ten tables and never drops a name |
| `Catalog.UnguardedIndexPassesCap` | src/storage/storage.go:932-950 | IndexNewApp has no cap of its own: an unvalidated call grows a full list of ten to eleven |
| `Catalog.CoreTablesLeaveOneSlot` | src/storage/storage.go:126-137 | with the nine core tables loaded, one application table is admitted and a second is refused |
| `Catalog.KnownApps.constructor` | src/storage/storage.go:21-23 | the package-level catalogue starts empty |
| `Catalog.KnownApps.LoadTables` | src/storage/storage.go:132-137 | appends every table name the `sqlite_master` query returns, in order |
| `Catalog.KnownApps.GetAllTables` | src/storage/storage.go:898-900 | returns the whole catalogue and no error |
| `Catalog.KnownApps.ValidateNewApp` | src/storage/storage.go:903-911 | true exactly when the name is known or fewer than ten tables are known |
| `Catalog.KnownApps.IndexNewApp` | src/storage/storage.go:932-950 | the catalogue becomes the old one with the name appended exactly when it was new and the DDL succeeded |
| `Queries.ClampLimit` | src/storage/storage.go:775-777 | limits above 100 become 100; other limits are unchanged, negative ones included |
| `Queries.PagingFor` | src/storage/storage.go:783-788 | a positive start gives LIMIT and OFFSET; otherwise a positive limit gives only LIMIT; otherwise there is no paging clause; the limit is the clamped one |
| `Queries.ListAllText` | src/storage/storage.go:773-793 | the statement selects from the table, ends with the paging clause, and is the bare `select * from` the table with no order field and no start or limit |
| `Queries.ListText` | src/storage/storage.go:795-815 | the statement starts with GetRecord's statement on the key and ends with the paging clause; with no order field it is exactly those two |
| `Queries.PagingClauseReadsBack` | src/storage/storage.go:795-810 | the paging clause renders exactly the clamped limit and the start in each of the three cases |
| `Queries.OrderClauseOnlyWithField` | src/storage/storage.go:802-804 | an ORDER BY clause appears exactly when an order field is given; `when` is quoted |
| `Queries.PageIsWindow` | src/storage/storage.go:783-788 | the rows returned are one contiguous run of the result, from the start when it is inside the result, and at most 100 rows whenever a non-negative LIMIT is sent |
| `Queries.NoLimitMeansEverything` | src/storage/storage.go:783-788 | with no positive start or limit, the whole result comes back however long it is |
| `Queries.OffsetWithZeroLimitIsEmpty` | src/storage/storage.go:783-785 | a start with a zero limit sends `LIMIT 0` and gets no rows |
| `Queries.DbFile` | src/storage/storage.go:60-69 | a nil or empty path gives `./databunker.db`; `.db` is appended to a name of three or more characters not already ending in it; a shorter name is used as given |
| `Queries.DbFileSettles` | src/storage/storage.go:84-92 | every file name ends in `.db` except short names, and normalising twice is normalising once |
| `Rows.FieldOf` | src/storage/storage.go:562-579 | a column is dropped exactly when it is NULL or of an unknown type, and in the list switch when it is int32; int64 is narrowed to int32 |
| `Rows.SwitchesAgree` | src/storage/storage.go:864-879 | the record and list switches differ only on int32 columns |
| `Rows.DecodeRow` | src/storage/storage.go:562-579 | the loop builds the document of the decodable columns in column order |
| `Rows.DecodedKeys` | src/storage/storage.go:562-579 | every key of a decoded document is a column name |
| `Rows.DecodedAt` | src/storage/storage.go:562-579 | with distinct column names, the i-th column is in the document under its own name exactly when it decodes, with its decoded value |
| `Rows.DecodedFields` | src/storage/storage.go:562-579 | with distinct column names, the document holds exactly the decodable columns, each under its own name with its decoded value |
| `Rows.StoredRoundTrip` | src/storage/storage.go:564-573 | a stored string, int32 or bool reads back unchanged under either switch, and text that arrives as bytes reads back as the same string |
| `Rows.DecodeStoredRow` | src/storage/storage.go:562-579 | a row of stored values with distinct names decodes to the document of those names and values |
| `Rows.NarrowingWraps` | src/storage/storage.go:568-569 | int64 columns keep only their low 32 bits: 2^32 reads as 0 and 2^31 as -2^31 |
| `Rows.GetRecordDo` | src/storage/storage.go:514-593 | a query error is returned; no row gives nil and no error; another scan error is returned; a row whose document is empty gives nil; otherwise the decoded document |
| `Rows.AllNullRowIsNotFound` | src/storage/storage.go:587-590 | a row with nothing but NULLs is reported as no record |
| `Rows.GetListDo` | src/storage/storage.go:817-895 | a query error is returned; a fully scanned result gives one document per row in order; any scan failure gives nothing and no error |
| `Store.DeletePartitions` | src/storage/storage.go:602-620 | a delete removes exactly the matching rows and keeps exactly the others, as a partition of the table's multiset |
| `Store.DeleteIdempotent` | src/storage/storage.go:602-620 | deleting with the same filter again removes nothing |
| `Store.CleanupNullsOnlyListed` | src/storage/storage.go:729-749 | cleanup nulls exactly the listed fields of the matching rows, keeps their other fields, leaves other rows as they were, and running it twice is running it once |
| `Store.RowOfFields` | src/storage/storage.go:336-344 | the inserted row has a column exactly for each field name of the document |
| `Store.RowOfValues` | src/storage/storage.go:336-344 | each field that no later field of the same name overrides is stored with its own value |
| `Store.CleanupClauseNamesKeys` | src/storage/storage.go:249-268 | split on commas, the cleanup's `SET` clause has one `name=null` item per field, naming exactly the fields the cleanup nulls, in order |
| `Store.StaleCutoff` | src/storage/storage.go:684-685 | DeleteExpired0's cut-off is the int32 `now` minus `expt` whenever that difference fits in int32 |
| `Store.DeleteTouchesOneTable` | src/storage/storage.go:596-620 | a delete changes no other table, and a failed statement changes nothing |
| `Store.DeleteExpiredExactly` | src/storage/storage.go:706-726 | DeleteExpired removes a row exactly when its key matches and its `endtime` is set and earlier than now; endtime 0 is never removed |
| `Store.ExpirySweepStopsIn2038` | src/storage/storage.go:716-717 | at every clock from 2^31 up to 2^32 the int32 `now` is negative and DeleteExpired removes nothing |
| `Store.Store.constructor` | src/storage/storage.go:55-58 | a storage object wraps a database holding the given tables |
| `Store.Store.CreateRecord` | src/storage/storage.go:336-367 | the store is the old one with the document appended to the table `t` names, returning 1; a driver error, an empty or malformed column list, or a missing table returns that error and changes nothing |
| `Store.Store.DeleteRecord` | src/storage/storage.go:596-620 | removes the rows whose key equals the value from the table `t` names and returns their number; on error nothing changes |
| `Store.Store.DeleteExpired` | src/storage/storage.go:706-726 | removes the key's rows with 0 < endtime < int32(now) and returns their number |
| `Store.Store.DeleteExpired0` | src/storage/storage.go:682-703 | removes the rows with 0 < `when` < int32(now)-expt and returns their number |
| `Store.Store.CleanupRecord` | src/storage/storage.go:729-749 | nulls the document's fields in the key's rows and returns the number of rows matched; an empty SET clause is a syntax error that changes nothing |
| `Store.CountRecords` | src/storage/storage.go:394-415 | a missing table is an error; otherwise the count succeeds and is the number of stored rows of the key, at most the table's size |
| `Store.GetRecord` | src/storage/storage.go:486-492 | a missing table is an error, an existing one never is; a record found is one whose key equals the value |
| `Store.GetRecordFirstMatch` | src/storage/storage.go:486-592 | when some row has the key, the record returned is the first such row in storage order |
| `Store.GetRecordNoMatch` | src/storage/storage.go:486-592 | no record is returned exactly when no stored row has the key |
| `Store.GetList` | src/storage/storage.go:795-815 | a missing table is an error; otherwise every row listed is a stored row of the key, there are at most as many as the count, and with no start or limit every stored row of the key is listed |
| `Store.CountMatchesFullList` | src/storage/storage.go:394-415 | on the same store, a count and an unpaged list of the same key succeed together and agree in size |
| `Store.InsertThenCount` | src/storage/storage.go:363-415 | inserting a row of the key raises that key's count by exactly one |
| `Sessions.CreateSession` | src/sessions_db.go:18-47 | a failure leaves the store unchanged; a success returns the generated UUID and adds exactly one row at the end of `sessions`, touching no other table |
| `Sessions.CreateSessionRecord` | src/sessions_db.go:18-47 | the store and the result are those of `CreateSession`: the UUID and no error on success; an empty UUID and the first error otherwise |
| `Sessions.CreateSessionStores` | src/sessions_db.go:18-47 | a created session adds one row to `sessions` holding token, UUID, parsed end time (0 for no expiration), int32 creation time and encrypted data; any failure stores nothing and returns the first error in order: the expiration's parse error, then the encryption error, the UUID error, the insert error |
| `Sessions.SessionRowFields` | src/sessions_db.go:35-41 | the stored row has exactly the five session fields, with the values it was built from |
| `Sessions.GetUserSessionErrors` | src/sessions_db.go:49-61 | a lookup error passes through, a missing session is "not found", and for a positive end time the read agrees with the corrected check |
| `Sessions.GetUserSession` | src/sessions_db.go:49-70 | a successful read serves the creation time, the token and the decrypted data of the stored row of that UUID, whose end time is not before the int32 clock |
| `Sessions.GetUserSessionIntended` | src/sessions_db.go:49-70 | the same with the corrected expiry check: a successful read serves the stored row of that UUID, decrypted, and that session has not lapsed |
| `Sessions.GetUserSessionReads` | src/sessions_db.go:57-69 | for a found row: a non-integer end time panics; a clock past the end time gives "session expired" whatever the other fields (for the corrected check, a lapsed session); otherwise a mistyped field panics, a decryption error is returned, and a decryption gives the creation time, the data and the token |
| `Sessions.EndlessSessionReadsExpired` | src/sessions_db.go:58-61 | a session created with no expiration reads back as "session expired" at every clock from 1 to 2^31-1 |
| `Sessions.CreatedSessionIsFound` | src/sessions_db.go:18-56 | after a successful create with a fresh UUID, looking the UUID up finds exactly the new row |
| `Sessions.CreateThenRead` | src/sessions_db.go:18-70 | reading a fresh session back before its end time (or at any time without one) gives its creation time, the original data and its token |
| `Sessions.ReadAgreesWithSweep` | src/sessions_db.go:58-61 | the corrected read-time check lapses a session exactly when DeleteExpired's sweep would remove its row |
| `Sessions.GetUserSessionByToken` | src/sessions_db.go:72-106 | a lookup error passes through; no user gives nothing; otherwise errors of the key decoding, count and list in that order; otherwise one event per listed row with the count; a wrong field type panics |
| `Sessions.EventsAt` | src/sessions_db.go:95-103 | one event per record, and event i is the `{"when":...,"data":...}` text of record i |
| `Sessions.ListEvents` | src/sessions_db.go:95-103 | one `{"when":...,"data":...}` event per record in list order, or a panic when some record's `when` or `data` has the wrong type |
| `Sessions.CountAgreesOnOneSnapshot` | src/sessions_db.go:85-93 | on one snapshot the count equals the number of events; a session inserted between the count and the list is listed but not counted |

## Left out

- SQL execution itself is not modelled. Parsing, the engine, transactions, driver errors and `RowsAffected` are abstract: each statement's effect is a function on the abstract store, and any driver or transaction error of a write is a `fault` parameter that leaves the store unchanged.
- Table creation and schema are not modelled (`InitDB`, `init*`, `execQueries`' DDL), so neither is a missing-column error. A missing table is the only schema error modelled.
- `BackupDB`, `CreateTestDB`, `Ping`, `CloseDB`, `vacuum`, logging and every `fmt.Printf` are I/O. They are left out.
- `UpdateRecord*`, `CountRecords0`, `DeleteRecord2`, `deleteDuplicate*`, `GetExpiring` and `GetUniqueList` are left out. They are storage operations outside the modelled core. `decodeForUpdate`, the builder these updates use, is modelled.
- Store.GetList: does not model ORDER BY. It names no order field, and rows come back in storage order.
- Store.Store.CreateRecord: the only statement errors modelled are an empty column list, an empty column name and a missing table. Other SQLite errors (unknown columns, type affinity) are folded into `fault`.
- Store.Store.CleanupRecord: its errors are modelled the same way as those of Store.Store.CreateRecord.
- `decodeFieldsValues` dereferences a `*primitive.M` without a nil check (src/storage/storage.go:225), so a nil pointer panics in Go. The model has no nil pointer: the `PrimitiveMRef` case always holds a document.
- Store.CountRecords: takes no driver error; a missing table is the only read error modelled. The same holds for Store.GetRecord and Store.GetList, so the "lookup error passes through" of `getUserSession` and `getUserSessionByToken` ranges over that one error.
- SQLite type affinity is not modelled. A stored integer comes back as int64, text as a string, and a key compares equal only to the same string value.
- Rows.GetRecordDo: only the first scan is modelled. `rows.Columns`, `rows.Err` and `rows.Close` errors are folded into `queryErr`.
- Rows.GetListDo: the `log.Fatal` on `rows.Err` and the `rows.Close` errors are not modelled.
- Sessions.GetUserSessionByToken: the user lookup (`lookupUserRecord`) is not modelled; its result is a parameter. Base64 decoding and decryption are opaque functions. Their ignored errors are dropped, not modelled.
- Concurrency is not modelled; in particular, unsynchronised updates of the shared `knownApps` slice are not. Interleaving is captured only where it shows in a result: `GetUserSessionByToken` takes separate snapshots for the count and the list, and `CountAgreesOnOneSnapshot` shows what an insert between them changes.
- Go's random map iteration order is not fixed. It is an arbitrary order of the pairs, and every contract holds for any order.
- The clock, UUID generation, encryption and `parseExpiration` are parameters.

## Findings

| source | as written | input that shows it | evidently intended | confidence | as-written member | corrected member |
|---|---|---|---|---|---|---|
| src/sessions_db.go:59 | `now > record["endtime"]` treats the end time 0, which createSessionRecord stores for a session without expiration, as a moment in the past | createSessionRecord with expiration "" and then getUserSession at any clock between 1 and 2^31-1 gives "session expired" | an end time of 0 means "never expires", as DeleteExpired's `endtime>0` (src/storage/storage.go:708) reads it | not executed; high that the behaviour is as shown, medium that it is unintended | `Sessions.EndlessSessionReadsExpired` | `Sessions.CreateThenRead` |
