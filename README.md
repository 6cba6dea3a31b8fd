# Board record store

A Dafny model of InvokeAI's SQLite-backed board record store. A board is a
named collection of images, optionally showing one image as its cover. The
store keeps one row per board in the `boards` table. It offers five operations:

- `save` inserts a board under a freshly generated key (`INSERT OR IGNORE`), commits, and reads the row back.
- `get` looks a board up by key.
- `update` applies a patch of two optional fields. It runs one `UPDATE` per present field. Each `UPDATE` fires an `AFTER UPDATE` trigger that stamps `updated_at`.
- `delete` removes a board by key.
- `get_many` returns one page of the boards, newest `updated_at` first, with the total row count.

The model has three modules:

- `BoardRecords` (`board_records.dfy`) holds the records, the patch, the errors, and what each SQL statement does to the table. Each statement is a function on `map<string, Row>`. The file also holds the lemmas about updates.
- `BoardListing` (`board_listing.dfy`) holds `ORDER BY updated_at DESC LIMIT ? OFFSET ?` and `COUNT(*)`. It says which orderings of the table are valid answers (ties in any order), how a page is cut from one, and what pages guarantee.
- `BoardRecordStorage` (`board_record_storage.dfy`) holds the store as a class. The class has the table as a `map` field and a clock field. Each operation is a method that runs the source's statements in order and rolls the table back to its last committed value when a call fails.

Timestamps are readings of an abstract clock (`now: nat`). Only the store's
`AdvanceClock` method moves it forward. Database failures are an input: with
`failAt == Some(n)`, the operation's `n`-th database call (counting from 0, in
the order the operation issues them) raises `sqlite3.Error`.

Where the code and the interface's intent part ways, the model follows the code:

- `save` is not all-or-nothing. The read-back `SELECT` runs after the commit. If it fails, the new row stays in the table and `BoardRecordSaveException` is still raised.
- `get_many` takes any integers. A negative `LIMIT` or `OFFSET` is modelled the way SQLite reads it: no upper bound and zero, respectively.
- `delete` binds its key as a bare string, so each character becomes a separate binding. This is modelled as written (see Findings).

## Model

| member | source | states |
|---|---|---|
| `BoardRecords.Inserted` | invokeai/app/services/board_record_storage.py:146-152 | `INSERT OR IGNORE` on the primary key. A new key gets exactly one row: the given name, no cover, and `created_at == updated_at == now` from the column defaults. An existing key keeps its row. Every other row is unchanged. |
| `BoardRecords.Assign` | invokeai/app/services/board_record_storage.py:165-176 | One `UPDATE ... WHERE board_id = ?` plus its trigger. The set of keys is unchanged, every other row is unchanged, and a matched row keeps `created_at` and gets `updated_at = now`. |
| `BoardRecords.PatchedInSteps` | invokeai/app/services/board_record_storage.py:261-281 | An update is the name `UPDATE` when a name is given, followed by the cover `UPDATE` when a cover is given. |
| `BoardRecords.PatchedEffect` | invokeai/app/services/board_record_storage.py:261-281 | After an update, present fields are overwritten and `None` fields keep their values. `created_at` is kept. `updated_at` becomes `now` exactly when some statement ran. Other rows and the key set are unchanged. |
| `BoardRecords.EmptyPatchChangesNothing` | invokeai/app/services/board_record_storage.py:262-283 | An all-`None` patch runs no statement, so the table is untouched, including `updated_at`. |
| `BoardRecords.PatchOfUnknownIdChangesNothing` | invokeai/app/services/board_record_storage.py:262-281 | Updating a key that is not in the table changes nothing, because both `WHERE` clauses match zero rows. |
| `BoardRecords.CoverIsNeverCleared` | invokeai/app/services/board_record_storage.py:272-281 | No patch can clear a cover a board already has, because a `None` cover runs no statement. |
| `BoardRecords.RenameRefreshesUpdatedAt` | invokeai/app/services/board_record_storage.py:262-270 | A rename sets the name, keeps the cover, and moves `updated_at` past its earlier value whenever the clock has advanced. |
| `BoardRecords.PatchIsIdempotent` | invokeai/app/services/board_record_storage.py:262-281 | Applying the same patch twice at one clock reading gives the same table as applying it once. |
| `BoardRecords.PatchKeepsWellTimed` | invokeai/app/services/board_record_storage.py:165-176 | Updates preserve `created_at <= updated_at <= now` for every row. |
| `BoardListing.PageContents` | invokeai/app/services/board_record_storage.py:299-307 | With non-negative arguments, `LIMIT limit OFFSET offset` returns `min(limit, max(0, n - offset))` rows, and item `i` is row `offset + i` of the ordering. |
| `BoardListing.NegativeArguments` | invokeai/app/services/board_record_storage.py:299-307 | A negative `LIMIT` means no bound, and a negative `OFFSET` means zero. |
| `BoardListing.AdjacentPages` | invokeai/app/services/board_record_storage.py:299-307 | Two adjacent pages, concatenated, equal the single page that spans both. |
| `BoardListing.PagingVisitsEveryRowOnce` | invokeai/app/services/board_record_storage.py:290-325 | Pages cut from one ordering, starting at offset 0 and advancing by `limit` until past the end, hold every row exactly once, in listing order. |
| `BoardListing.ListingLength` | invokeai/app/services/board_record_storage.py:312-321 | A full listing has exactly as many records as `COUNT(*)` counts rows. |
| `BoardListing.PageOfListing` | invokeai/app/services/board_record_storage.py:299-310 | A page of a listing holds table rows, each at most once, newest first. With non-negative arguments it holds `min(limit, max(0, total - offset))` of them. |
| `BoardListing.EarlierPagesAreNewer` | invokeai/app/services/board_record_storage.py:299-307 | Every item on an earlier page is at least as recent as every item on a later page. |
| `BoardListing.NewestRowComesFirst` | invokeai/app/services/board_record_storage.py:301-303 | The first item of every listing carries the newest `updated_at` in the table. |
| `BoardListing.SavedBoardHeadsListing` | invokeai/app/services/board_record_storage.py:150-152 | A board that was just saved is stamped with the current clock, so it heads every listing (up to ties). |
| `BoardListing.FifteenBoardsInTwoPages` | invokeai/app/services/board_record_storage.py:290-325 | With 15 boards, cut from one ordering, the page at offset 0 with limit 10 has 10 items and the page at offset 10 has the other 5. Together they are the whole listing. |
| `BoardListing.ListingIsUniqueWithoutTies` | invokeai/app/services/board_record_storage.py:299-305 | If no two rows share an `updated_at`, the table has exactly one newest-first ordering, so every query orders the rows the same way. |
| `BoardListing.PagesOfSeparateQueriesWithoutTies` | invokeai/app/services/board_record_storage.py:290-325 | With no ties, pages from separate `get_many` calls at offsets 0, `limit`, `2 * limit`, ... that reach past the last row together list every board exactly once, newest first. |
| `BoardListing.FifteenBoardsInTwoQueries` | invokeai/app/services/board_record_storage.py:290-325 | With 15 boards and no ties, `get_many(0, 10)` returns 10 boards and a separate `get_many(10, 10)` returns the other 5. Together they are a full listing. |
| `BoardListing.TiedBoardsCanRepeatAcrossQueries` | invokeai/app/services/board_record_storage.py:301-304 | For two boards with the same `updated_at`, both orders are valid answers. So `get_many(0, 1)` and a separate `get_many(1, 1)` may both return the same board and never the other. |
| `BoardRecordStorage.BoardRecordStore.constructor` | invokeai/app/services/board_record_storage.py:122-138 | A new store has an empty table and satisfies the timestamp invariant. |
| `BoardRecordStorage.BoardRecordStore.AdvanceClock` | invokeai/app/services/board_record_storage.py:172 | The clock that the column defaults and the trigger read only moves forward. The table is untouched. |
| `BoardRecordStorage.BoardRecordStore.Save` | invokeai/app/services/board_record_storage.py:195-226 | If the insert or the commit fails, the table is rolled back and SaveError is raised. Otherwise the table becomes `Inserted(old table)`. If the read-back fails, SaveError is raised anyway. On success the returned record is the stored row: a new key gives (key, name, no cover, now, now), and a colliding key gives the old row. |
| `BoardRecordStorage.BoardRecordStore.Get` | invokeai/app/services/board_record_storage.py:228-251 | Returns the stored record exactly when the key is present and the lookup does not fail. Both a missing key and a failed lookup give NotFound. The table is never modified. |
| `BoardRecordStorage.BoardRecordStore.Update` | invokeai/app/services/board_record_storage.py:253-288 | If any of its calls fails (one `UPDATE` per present field, then the commit), the table is rolled back and SaveError is raised. Otherwise the table becomes `Patched(old table)`, the operation returns without error, and the invariant is kept. |
| `BoardRecordStorage.BoardRecordStore.Delete` | invokeai/app/services/board_record_storage.py:178-193 | As written: a key whose length is not 1, or a failed call, rolls back and gives DeleteError. A 1-character key removes its row if present; if absent, nothing changes. |
| `BoardRecordStorage.BoardRecordStore.DeleteById` | invokeai/app/services/board_record_storage.py:178-193 | Corrected delete. The row with the key is gone afterwards, and the row count drops by one exactly when the key was present. A failed call rolls back and gives DeleteError. |
| `BoardRecordStorage.BoardRecordStore.OrderByUpdatedAtDesc` | invokeai/app/services/board_record_storage.py:299-305 | `ORDER BY updated_at DESC` over the whole table: the result holds every row exactly once, each as the store would read it, newest first. The table is only read. |
| `BoardRecordStorage.BoardRecordStore.GetMany` | invokeai/app/services/board_record_storage.py:290-331 | The defaults are offset 0 and limit 10. If either query fails, the raw database error is raised. Otherwise `total` is the row count, `offset` and `limit` are echoed, and `items` is the `LIMIT`/`OFFSET` page of some newest-first ordering of the whole table. With non-negative arguments, the number of items is `min(limit, max(0, total - offset))`. The table is only read. |
| `BoardRecordStorage.UuidBoardSurvivesDelete` | invokeai/app/services/board_record_storage.py:186 | A board saved under a 36-character UUID key: `Delete` raises DeleteError and the board is still found afterwards. `DeleteById` removes it, so `get` gives NotFound. |
| `BoardRecordStorage.DefaultPageOfEmptyStore` | invokeai/app/services/board_record_storage.py:290-294 | `get_many()` with its default arguments on an empty store returns no items, offset 0, limit 10 and total 0. |
| `BoardRecordStorage.SaveThenGet` | invokeai/app/services/board_record_storage.py:195-251 | `get` right after `save` returns the record `save` returned: the given name, no cover, and `created_at == updated_at`. |
| `BoardRecordStorage.RenameThenGet` | invokeai/app/services/board_record_storage.py:253-288 | If the clock has moved since the save, a rename followed by `get` shows the new name, the cover unchanged, and `updated_at > created_at`. |

## Findings

| source | as written | input that shows it | evidently intended | confidence | as-written member | corrected member |
|---|---|---|---|---|---|---|
| invokeai/app/services/board_record_storage.py:186 | `(board_id)` is the bare string, not a 1-tuple. The driver binds one parameter per character against a statement with one placeholder. Every key not exactly one character long raises, and the call ends in `BoardRecordDeleteException`. | any key `save` generates, e.g. `3f2a9c1e-8b7d-4e6f-a5c4-1d2e3f4a5b6c` (36 bindings for 1 placeholder) | `(board_id,)`: delete the row with that key; deleting a missing key is not an error | not executed; read from the code | `BoardRecordStorage.BoardRecordStore.Delete` (shown by `BoardRecordStorage.UuidBoardSurvivesDelete`) | `BoardRecordStorage.BoardRecordStore.DeleteById` |

## Left out

- Connection and schema setup are not modelled: the connection, cursor, row factory, `PRAGMA foreign_keys`, the DDL and the `created_at` index. These are database I/O. The table starts empty, so a database file that already holds rows is not modelled.
- The store's lock is not modelled. Every public method runs as one atomic step, which is what the lock guarantees between callers.
- `uuid.uuid4()` is not modelled. The generated key is `Save`'s `boardId` parameter.
- Wall-clock timestamps are replaced by the abstract clock. The two textual formats are not modelled (the defaults' millisecond `STRFTIME` and the trigger's `current_timestamp`). Neither is the text comparison between them, which can order a same-second update before a creation.
- SQLite's recursive triggers are not modelled. The trigger fires once per matched row of an `UPDATE`, as with SQLite's default setting.
- Pydantic validation is not modelled: strict rejection of unknown patch fields and coercion of `datetime` or `str`. `BoardChanges` is two options. `BoardDTO` is not modelled. `OffsetPaginatedResults` is defined outside this file and appears only as the shape `OffsetPage`.
- The `deleted_at` column is not modelled. It is never written or read.
- The abstract base class `BoardRecordStorageBase` is not modelled. It only declares the interface, and its `update` declares a record result that the concrete store never returns.
- Failures other than a raising database call are not modelled: a rollback that itself fails, and non-database exceptions such as an integer too large to bind as `LIMIT` or `OFFSET`. For the same reason, 64-bit bounds on `LIMIT` and `OFFSET` are not modelled.
- SQLite's own sort is not modelled. `OrderByUpdatedAtDesc` builds the ordering by repeatedly taking a newest remaining row, choosing among ties nondeterministically, and its contract and `GetMany`'s admit any newest-first ordering.
- BoardListing.PagingVisitsEveryRowOnce, BoardListing.FifteenBoardsInTwoPages: these hold for pages cut from one ordering only. Separate `get_many` calls may order boards with equal `updated_at` differently, because `ORDER BY updated_at DESC` fixes no order among ties, and the trigger's `current_timestamp` has one-second resolution, so ties happen. Pages fetched by separate calls can therefore repeat or skip tied boards (`TiedBoardsCanRepeatAcrossQueries`). For separate calls, the model proves the guarantees only when no two boards share an `updated_at` (`PagesOfSeparateQueriesWithoutTies`, `FifteenBoardsInTwoQueries`).
