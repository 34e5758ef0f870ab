# Todo store: a Dafny model

This project models the storage core of a small todo-list web service. The service keeps todos in a single SQLite table,
`todos (id TEXT PRIMARY KEY, title TEXT NOT NULL, completed INTEGER NOT NULL DEFAULT 0)`.
It exposes four JSON endpoints: list, create, partial update and delete.

The model is purely functional:

- The table is an immutable `seq<Row>` in rowid order, so a row inserted later sits further right.
- Every handler is one atomic transition of that sequence. It returns a `Result` that is either the new table and record or a `StoreError`.
- The `completed` column keeps its SQLite representation as an integer. The API record `Todo` carries it decoded as a boolean, so the `int(...)`/`bool(...)` conversions are explicit.

Files:

- `results.dfy`: module `Results`, with `Option` and `Result`.
- `todo_store.dfy`: module `TodoStore`. It holds rows, records, the column encoding, the table invariant `Valid` (unique ids and a completed column of 0/1 only), and the five operations `InitDb`, `ListTodos`, `Create`, `Update` and `Delete`. It also holds the SQL building blocks they use: `IndexOf` for `SELECT ... WHERE id = ?`, `SetWhere` for `UPDATE ... WHERE id = ?` and `RemoveWhere` for `DELETE ... WHERE id = ?`.
- `store_properties.dfy`: module `StoreProperties`. It shows that every operation keeps `Valid`. It proves how create, update and delete move the newest-first listing. It also gives the exact field-merging rule of a partial update and the exact effect of a delete.
- `todo_api.dfy`: module `TodoApi`. It has the request handler with its status codes and bodies, and the service's life: `init_db` at startup, then any sequence of requests. It proves that the table invariant holds across every run.
- `api_scenarios.dfy`: module `ApiScenarios`. These are the request sequences the repository's tests exercise, stated as lemmas.

Design decisions:

- The identifier that `uuid.uuid4()` draws is a parameter of `Create` and `Handle`. A colliding identifier is not excluded by a precondition. The INSERT's primary-key constraint rejects it: `Create` returns `DuplicateKey`, and the handler answers 500 without touching the table. A fresh identifier always succeeds (`Create`'s contract). So uniqueness of ids is an invariant of every run, whatever identifiers are drawn.
- The code accepts any string as a title, including the empty one. Only the browser client rejects empty titles (static/app.js:40-41); the server does not. The model follows the code and puts no condition on titles.
- Python's `bool(c)` on the INTEGER column is `c != 0`, and `int(b)` is 1 or 0.

## Model

| member | source | states |
|---|---|---|
| TodoStore.EncodeCompleted | main.py:91 | `int(...)` writes only 0 or 1 into the column, and writes 1 exactly for true |
| TodoStore.DecodeCompleted | main.py:79 | `bool(...)` reads every non-zero value as true; re-encoding what was read reproduces the column exactly when it holds 0 or 1 |
| TodoStore.CompletedRoundTrip | main.py:109-118 | a completion flag written with `int(...)` reads back with `bool(...)` unchanged |
| TodoStore.ToTodo | main.py:78-81 | the API record of a row carries its id and title, and is completed exactly when the column is non-zero |
| TodoStore.InitDb | main.py:37-47 | create-if-absent: afterwards the table exists; an existing table is left untouched; a created one is empty |
| TodoStore.IndexOf | main.py:104-107 | the lookup by id finds nothing exactly when no row has the id; otherwise it finds the first row carrying it |
| TodoStore.ListTodos | main.py:71-81 | the listing has one record per stored row, in reverse insertion order: position i shows the row inserted i-th from last |
| TodoStore.Create | main.py:84-94 | with a fresh id, one row is appended after all existing rows, which are unchanged; the returned record has the given title, is not completed and is what the new row decodes to; a stored id is refused with DuplicateKey |
| TodoStore.SetWhere | main.py:116-119 | rows with the id get the new title and completed value; all other rows and the table length are unchanged |
| TodoStore.Update | main.py:97-122 | an unknown id fails with NotFound; otherwise ids, length and every other row are unchanged, supplied fields are taken, and the returned record equals what is now stored under the id |
| TodoStore.RemoveWhere | main.py:134 | exactly the rows without the id remain; a table without the id is returned unchanged |
| TodoStore.Delete | main.py:125-137 | an unknown id fails with NotFound; otherwise the id is gone, the table is shorter, and every other row is kept |
| StoreProperties.InitIdempotent | main.py:40-46 | running the schema statement on an existing database changes nothing, so startup is idempotent |
| StoreProperties.InitValid | main.py:37-47 | startup leaves a valid table, and a new table lists as an empty sequence |
| StoreProperties.ListMembership | main.py:76-81 | a record is listed if and only if some stored row decodes to it |
| StoreProperties.ListAppend | main.py:76 | listing a table made of an older part followed by a newer part lists the newer part first, then the older part |
| StoreProperties.ListAfterCreate | main.py:87-94 | after a create, the listing is the returned record followed by the previous listing |
| StoreProperties.CreatePreservesValid | main.py:89-92 | create keeps ids pairwise distinct and the completed column binary |
| StoreProperties.UpdateMergesFields | main.py:109-122 | with unique ids, the new title is the supplied one or the stored one, and the same holds independently for completed; the merged row is stored at the same position and is exactly the returned record |
| StoreProperties.UpdateKeepsOmittedField | main.py:113-114 | an update with only completed keeps the stored title; an update with only a title keeps the stored completion state |
| StoreProperties.EmptyUpdateIsIdentity | main.py:113-119 | an update supplying no field leaves a valid table exactly as it was and returns the stored record |
| StoreProperties.UpdatePreservesValid | main.py:116-119 | update keeps ids pairwise distinct and the completed column binary |
| StoreProperties.ListReplaceAt | main.py:76 | replacing one stored row replaces exactly its record in the listing, at the position the row's insertion order gives it |
| StoreProperties.ListAfterUpdate | main.py:116-122 | after an update, the record keeps its place in the listing and shows the returned record; every other listed record is unchanged |
| StoreProperties.DeleteRemovesExactly | main.py:129-135 | with unique ids, deleting the id at position k leaves exactly the other rows in their order |
| StoreProperties.DeletePreservesValid | main.py:134 | delete keeps ids pairwise distinct and the completed column binary |
| StoreProperties.ListAfterDelete | main.py:134-135 | after a delete, the listing is the previous listing without the deleted record, the others in order |
| TodoApi.ErrorResponse | main.py:106-107 | NotFound is answered with 404 and detail "Todo not found"; any other storage failure is a 500 |
| TodoApi.Handle | main.py:71-137 | a list answers 200 with the current newest-first listing and changes nothing; a successful create or update answers 200 with exactly the record the store operation returns, and the database afterwards is the one that operation produced; a successful delete answers 200 with "Todo deleted successfully" and the table the delete produced; 404 happens exactly for an update or delete of an unknown id, with detail "Todo not found"; 500 happens exactly for a missing table or a colliding create id; every non-200 answer leaves the database unchanged |
| TodoApi.HandlePreservesValid | main.py:84-137 | every request keeps the table valid |
| TodoApi.Serve | main.py:50-54 | startup runs the schema statement before any request, so no request meets a missing table: a 500 answers only a create, and when every drawn id is new to the table and to the other drawn ids, no request is answered with 500; the table exists at the end and there is one response per request |
| TodoApi.HandleIds | main.py:84-137 | after any request every stored id was stored before, or is the id a create drew |
| TodoApi.RunFreshIdsNoServerError | main.py:84-94 | once the table exists, a run whose creates draw ids new to the table and pairwise distinct answers no request with 500 |
| TodoApi.RunServerErrorsOnlyOnCreate | main.py:71-137 | once the table exists, every 500 in a run of requests answers a create |
| TodoApi.RunKeepsTable | main.py:71-137 | no request drops the table |
| TodoApi.RunPreservesValid | main.py:71-137 | unique ids and the binary completed column hold after any sequence of requests, whatever identifiers are drawn |
| TodoApi.ServePreservesValid | main.py:37-54 | from a missing or valid database, the invariant holds after startup and any run of requests |
| ApiScenarios.ListOnEmptyStore | test_main.py:32-36 | listing a new database answers 200 with an empty array |
| ApiScenarios.CreateAnswersNewRecord | test_main.py:39-46 | creating "Test todo" answers 200 with that title, not completed, under the drawn id |
| ApiScenarios.ListNewestFirstAfterTwoCreates | test_main.py:49-57 | after creating "First" then "Second", the listing has two records with "Second" first |
| ApiScenarios.UpdateCompletedKeepsTitle | test_main.py:60-68 | setting completed on "Original" answers completed with the title kept |
| ApiScenarios.UpdateTitleKeepsCompleted | test_main.py:71-78 | setting a new title answers that title with completed kept |
| ApiScenarios.UpdateUnknownIsNotFound | test_main.py:81-84 | updating an unknown id answers 404 and writes nothing |
| ApiScenarios.DeleteThenListEmpty | test_main.py:87-97 | deleting the only todo answers the deletion message and the next listing is empty |
| ApiScenarios.DeleteUnknownIsNotFound | test_main.py:100-103 | deleting an unknown id answers 404 and leaves the database unchanged |

## Left out

- Connections, `async`/`await`, commits and durability across restarts (main.py:39, 74, 88, 100, 128) are I/O and resource scoping. Each handler is modelled as one atomic transition of the table.
- TodoApi.Handle: its contract assumes requests are served one at a time. `update_todo` runs its SELECT (main.py:104) and its UPDATE (main.py:116) as separate statements, and `delete_todo` does the same (main.py:130, 134), with no transaction around the pair. Under concurrent requests an update can answer 200 for a row a concurrent delete has just removed, and a partial update can write back a stale value over a field another request has just set. The model does not cover these interleavings.
- `uuid.uuid4()` (main.py:87) is randomness. Its result is a parameter, and a collision is modelled only through the primary-key error.
- FastAPI routing, the CORS middleware, pydantic request validation and the `DATABASE_PATH` environment lookup (main.py:17, 20-33, 57-67) are framework plumbing. That includes the 422 answer to a body without a title: requests reach the model already typed.
- The static file mount and the landing page (main.py:140-147) serve assets, not logic.
- static/app.js is the browser client. Its local list updates are UI state. It appends new todos at the end of its own list, while the server lists newest first.
- Storage failures other than a missing table and a repeated primary key, such as disk or connection errors, are not modelled. Every unhandled failure is answered as a bare 500 (`ServerError`), without modelling the framework's error text.
- SQLite allocates rowids as the largest rowid plus one. The model takes "appended at the end" as that rule and leaves out what happens when rowids run out at the 64-bit limit.
- TodoApi.Run: its own contract states only that there is one response per request. What a run does is stated by `RunKeepsTable`, `RunPreservesValid` and the scenario lemmas.
