# Todo store — a Dafny model

This project models the todo service of `main.py`: six HTTP handlers over a single
SQLite table `todo(id INTEGER PRIMARY KEY, title, description, done INTEGER, created_at INTEGER)`.

- `todo_model.dfy`, module `TodoModel`: the values. A stored `Row` (title, description,
  the integer `done` column, `createdAt`), the `TodoItem` record a handler returns, the
  `NewTodoItem` request body, and `Result`/`Error` (`NotFound(id)` or `InternalError`).
  It also holds the conversions between the stored integer `done` and the exposed boolean,
  the WHERE clause of the listing, and what a listing of the table is (`IsListing`),
  with the lemmas about it.
- `todo_service.dfy`, module `TodoService`: the class `TodoStore`, whose field `table`
  (a `map<int, Row>` keyed by id) is the table. The handlers that run INSERT, UPDATE or
  DELETE are methods that change `table` and say exactly what it becomes; the single-row
  SELECT is a function over it; the listing is a method with the source's loop. The class
  invariant `Valid()` says every stored `done` is 0 or 1, which holds because the service
  only ever writes `int(b)` of a boolean, and that every id is a SQLite INTEGER. The
  module also holds client methods that chain the handlers (create then get, patch then
  get, update then get, delete twice, and the "buy milk" exchange) using only the
  handlers' contracts.

Inputs the handlers take from outside are parameters: the creation timestamp `ts`
(the clock) and the new row id `rowId` (chosen by the database engine, required to be
a 64-bit integer absent from the table).

Two points where the stored integer and the exposed boolean could part ways:

- the listing filter is the SQL `done = int(b)` on the stored integer, whereas a record
  is exposed with `done != 0`; `ListingFiltered` proves that filtering on the column and
  comparing the exposed boolean agree on every table the service can produce
  (`AllBoolColumns`), while a row stored with `done = 2` would be shown as done but not
  selected by `done=true`;
- the full update binds the body's boolean `done` directly; the database adapter stores
  a boolean as 0 or 1, which is what `BoolToColumn` gives.

An id (or timestamp) outside the signed 64-bit range cannot be bound to a statement
parameter: the adapter raises an overflow error, which the handler's `except` turns
into a 500 carrying the exception text. The model returns `InternalError(BindOverflow)`
in that case and leaves the table unchanged; `LookupError(id)` (a definition without
a contract of its own) is the error a handler reports when no row can be found under
`id`: `NotFound(id)` for a 64-bit id, `InternalError(BindOverflow)` otherwise.

## Model

| member | source | states |
|---|---|---|
| `TodoModel.BoolToColumn` | main.py:144-152 | a boolean is stored as 0 or 1 and reads back (`!= 0`, `bool(...)`) as the same boolean |
| `TodoModel.DoneFromColumn` | main.py:59 | a column read as `!= 0` (line 59), or `bool(...)` at lines 87, 132 and 152; on a 0/1 column the boolean read gives the column back (1 for true, 0 for false) |
| `TodoModel.ItemOf` | main.py:81-89 | the record built from a fetched row (here, and likewise at lines 58-59 and 126-134) carries the row's id, and on a 0/1 `done` storing its fields again reproduces the row exactly |
| `TodoModel.Selects` | main.py:50-53 | without a filter every row is selected; with filter `b` on a 0/1 column, a row is selected exactly when it is exposed with `done == b` |
| `TodoModel.FiltersPartition` | main.py:50-53 | on the service's tables, no filter selects every row, and `done=true` and `done=false` select disjoint sets that together make up the table |
| `TodoModel.AbsentFilterKeepsDoneRows` | main.py:50-53 | as soon as one row is done, the unfiltered listing selects it and the `done=false` listing does not, so the two selections differ |
| `TodoModel.ListingUnique` | main.py:46-63 | the listing is fully determined by the table and the filter |
| `TodoModel.ListingUnfiltered` | main.py:53-61 | an unfiltered listing holds the id of every row of the table and has exactly as many records as the table has rows |
| `TodoModel.ListingFiltered` | main.py:50-59 | when every stored `done` is 0 or 1, a listing filtered by `b` holds exactly the rows exposed with `done == b`, and every record in it has `done == b` |
| `TodoModel.AscendingUnique` | main.py:55-61 | two id-ascending record sequences with the same ids, each record converted from the row under its id, are equal |
| `TodoModel.ListingHas` | main.py:55-61 | every row the filter selects appears in the listing as its converted record |
| `TodoModel.ScanStep` | main.py:57-61 | visiting the least unvisited row, and appending its conversion when the filter selects it, keeps the scan in increasing id order with exactly the selected visited rows collected |
| `TodoModel.AscendingIdCount` | main.py:55-61 | an id-ascending sequence of records repeats no id |
| `TodoService.TodoStore.constructor` | main.py:16-19 | a freshly created table is empty and satisfies the invariant |
| `TodoService.TodoStore.GetTodos` | main.py:46-63 | the result is the listing of the table (each selected row once, converted with `done != 0`, increasing ids); with no filter it covers every row; with a filter on a valid table every record has that `done` |
| `TodoService.TodoStore.GetTodoById` | main.py:69-93 | an error exactly when the id does not fit 64 bits (the overflow error) or no row has it (NotFound carrying the id); otherwise the stored row's title, description and created_at, `done` as `!= 0`, under the requested id; the table is only read |
| `TodoService.TodoStore.CreateTodo` | main.py:95-110 | exactly one row is added, under a previously absent key, with the given title and description, `done = 0` and `created_at = ts`; every other row is unchanged; the returned record equals the inserted row converted; a timestamp outside 64 bits gives the overflow error and no row |
| `TodoService.TodoStore.UpdateTodo` | main.py:113-138 | on an existing path id, title, description and done are overwritten and created_at kept, the body's id and created_at are not used, and the returned record is the updated row; on an absent id the lookup error (NotFound, or the overflow error for an id outside 64 bits) and the table is unchanged |
| `TodoService.TodoStore.UpdateTodoStatus` | main.py:140-156 | on an existing id only that row's `done` changes, to `int(done)`, and `done` is returned; on an absent id the lookup error and the table is unchanged |
| `TodoService.TodoStore.DeleteTodo` | main.py:158-172 | the table loses exactly the key `id`; "ok" exactly when a row was affected, the lookup error (NotFound carrying the id, or the overflow error) otherwise |
| `TodoService.BuyMilkExchange` | main.py:95-168 | on a fresh table and a 64-bit timestamp: create gives `{1, "buy milk", false, "2%", ts}`, the status update gives `true`, get gives the same record with `done = true` and the same created_at, delete gives "ok", and a second get gives NotFound(1) |
| `TodoService.CreateThenGet` | main.py:69-106 | reading a record right after creating it returns the created record: same title and description, not done, the given created_at |
| `TodoService.CreateThenList` | main.py:46-106 | a created record appears in the unfiltered listing and in the `done=false` listing, and the unfiltered listing grows by one |
| `TodoService.PatchThenGet` | main.py:140-152 | after a status update the record reads back with the new `done` and its other fields as before; on an absent id both report the lookup error and nothing changes |
| `TodoService.UpdateThenGet` | main.py:113-134 | after a full update the record reads back as returned: the body's fields with the path id and the original created_at; on an absent id both report the lookup error and nothing changes |
| `TodoService.DeleteTwice` | main.py:158-168 | after a delete, a get and a second delete of the same id both report the lookup error (NotFound for a 64-bit id) |

## Left out

- `get_current_weather` (main.py:174-197): two calls to an external weather service and float formatting; network I/O.
- The SQLite connection, the `check_same_thread` setting and the shutdown hook (main.py:14-19, main.py:42-44): I/O. The table is an abstract map; the constructor models the table created on an empty database file, not one left by an earlier run.
- The other `except Exception` paths that answer 500 with the exception text (main.py:65-67, 91-93, 108-110, 136-138, 154-156, 170-172): a locked or corrupt database file, a full disk and similar engine failures this code cannot see. The one such failure the arguments alone decide, an integer outside 64 bits, is modelled as `InternalError(BindOverflow)`; a string holding a lone surrogate, which the adapter cannot encode either, has no counterpart because a Dafny string of `char` cannot hold one.
- CORS middleware, `.env` and API key loading, FastAPI routing and the JSON/pydantic coercion of request bodies and query strings (main.py:5-12, main.py:32-40): framework configuration.
- `datetime.now()` and its truncation to whole seconds (main.py:99-100): the clock; the timestamp is the parameter `ts`.
- SQLite's rule for choosing `lastrowid`: the new id is the parameter `rowId`, required only to be fresh and, like every rowid, a 64-bit integer.
- HTTP status codes (201 on create, 404, 500) and the exact text of the error bodies (which formats the id into a message): the model returns the error kind with the id; the translation to a response is the framework's boundary.
- Listing order: the SELECT of `get_todos` has no ORDER BY, so SQLite does not promise an order; the model fixes the order a scan of a rowid table yields, increasing id.
- Concurrency between requests sharing the one connection: each handler is one statement, modelled as one sequential method call.
