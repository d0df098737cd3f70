# Todo CRUD handlers: a Dafny model

This project models the todo component of a small record-management service.
The component is five request handlers over one table of `Todo{Id, Name, Completed}`
records: list all, get one, add, delete and update.

Each handler is one small step on the table:

- GetOne, DeleteTodo and UpdateTodo parse an integer id from the request path, as Go's `strconv.Atoi`
  does on a 64-bit platform. GetAll and AddTodo take no id.
- Each handler decides between 400 (malformed id or body), 404 (no such record) and 200. GetAll always answers 200.
- Each handler reads, inserts, patches or removes at most one record. GetAll reads them all.

The files:

- `wrappers.dfy` holds `Option`, used for a failed parse and for the fields an update body may leave out.
- `id_parse.dfy` (module `IdParse`) is the id parse. It accepts an optional `+`/`-`, then one or more
  ASCII digits; leading zeros are allowed. The value must fit a 64-bit `int`; anything else is an error.
- `todos.dfy` (module `Todos`) holds the record, the response (a status code plus a record, a list, or an
  `{"error": …}` / `{"status": …}` message), and the handlers. `GetAll` and `GetOne` only read the table,
  so they are functions of the map. `AddTodo`, `DeleteTodo` and `UpdateTodo` change the table, so they
  are methods of the class `Store`, which holds the live rows as a `map<int, Todo>`. `UpdateTodo` patches
  its local record field by field, as the handler does, before saving it.

The store's invariant (`Store.Valid`) is that every row sits under its own `Id`, and every key is a Go `int`.
Every method keeps this invariant. Each method also states its whole new table. Every error path leaves the table unchanged. So does
the 200 answer of DeleteTodo for an absent id 0. Every other 200 answer inserts, removes or replaces one key.
So no other record changes.

A lookup that misses leaves Go's zero-valued `Todo` (`Lookup`). The handlers then decide "not found" by
comparing the fetched `Id` with the requested id. The model keeps this comparison, so id 0 behaves as if it
were always present:

- `GET /todos/0` on a table without row 0 answers 200 with the zero record.
- `DELETE /todos/0` answers 200 "todo deleted successfully" and removes nothing.
- `PATCH /todos/0` saves a patched zero record under key 0.

An explicit presence check would answer 404 in all three cases; the model keeps the comparison the code makes.
Two more points about creating a record:

- A create body without a name is accepted, and the record is stored with an empty name.
- The new id lies in the 32-bit range that `uuid.New().ID()` yields (todos/todos.go:70-72). A draw that hits a stored id is excluded (see "Left out").

## Model

| member | source | states |
|---|---|---|
| `IdParse.ParseId` | todos/todos.go:30-37 | An accepted path is a signed decimal: non-empty, an optional leading sign followed by at least one digit, nothing but digits after the first character. The value fits a 64-bit `int`, and it is negative only after a `-`. |
| `IdParse.ParseFormatRoundTrip` | todos/todos.go:31 | Every 64-bit `int` written in decimal is accepted and read back as itself, `MinInt` included. |
| `IdParse.ParseRejectsOverflow` | todos/todos.go:31-37 | Every integer outside the 64-bit range, written in decimal, is rejected even though the text is well formed: the overflow error. |
| `IdParse.ParseIgnoresLeadingZero` | todos/todos.go:31 | A leading `0` does not change the parsed id ("007" and "7" name the same todo). |
| `IdParse.SignedLeadingZero` | todos/todos.go:31 | After a `+` or `-`, a leading `0` does not change the parsed id ("-007" and "-7" name the same todo). |
| `IdParse.ParseNegativeZero` | todos/todos.go:31 | "-0" parses to id 0, so `/todos/-0` reaches the same id-0 behaviour as `/todos/0`. |
| `IdParse.ParseIgnoresPlusSign` | todos/todos.go:31 | A leading `+` does not change the parsed id. |
| `Todos.Lookup` | todos/todos.go:41-42 | Reading one row into a zero-valued record gives the stored row when the id is present, and the zero record (id 0, empty name, not completed) when it is absent. The same read is at lines 92-93 and 133-135. |
| `Todos.LookupMatches` | todos/todos.go:41-45 | On a well-keyed table, the test "fetched `Id` equals requested id" holds exactly when the id is stored or is 0. |
| `Todos.GetAll` | todos/todos.go:21-27 | Always 200 with a list of exactly the stored records, each once: same length as the table, in ascending id order, and empty for an empty table. The table is a parameter, so it cannot change. |
| `Todos.GetOne` | todos/todos.go:29-53 | A path that is not an id gives 400 "cannot parse id". A stored id gives 200 with exactly that record. An absent nonzero id gives 404 "todo not found". An absent id 0 gives 200 with the zero record. |
| `Todos.GetOneFindsStored` | todos/todos.go:41-46 | A stored record is fetched again, with 200, under the decimal text of its id. |
| `Todos.GetOneAfterDelete` | todos/todos.go:41-52 | After a nonzero id is removed from the table, fetching it under its decimal text gives 404. |
| `Todos.GetOneZeroIdOnEmptyTable` | todos/todos.go:41-46 | On an empty table, `GET /todos/0` gives 200 with the zero record, not 404. |
| `Todos.GetOneNegativeZero` | todos/todos.go:41-46 | On a table without row 0, `GET /todos/-0` answers 200 with the zero record, as `GET /todos/0` does. |
| `Todos.Patch` | todos/todos.go:144-150 | The patched record keeps its id. Its name is the supplied name when there is one, else the old name. Its completed flag is the supplied flag when there is one, else the old flag. |
| `Todos.PatchNothingIsIdentity` | todos/todos.go:144-150 | An update body that supplies neither field leaves the record unchanged. |
| `Todos.PatchCompletedKeepsName` | todos/todos.go:148-150 | Supplying only `completed` changes only `completed`; id and name stay. |
| `Todos.PatchIdempotent` | todos/todos.go:144-150 | Applying the same update body twice gives the same record as applying it once. |
| `Todos.Store.AddTodo` | todos/todos.go:55-80 | A body that does not decode gives 400 "cannot parse json", and the table is unchanged. Otherwise the record with the generated id, the given name (empty allowed) and `completed == false` is stored under that id and answered with 200. Nothing else changes, and the invariant is kept. |
| `Todos.Store.DeleteTodo` | todos/todos.go:82-106 | A bad id gives 400, and an absent nonzero id gives 404; both leave the table unchanged. A stored id is removed, every other row stays, and the answer is 200 "todo deleted successfully". An absent id 0 also answers 200 and removes nothing. |
| `Todos.Store.UpdateTodo` | todos/todos.go:108-155 | The id is checked before the body: a bad id gives 400 "cannot parse id" even when the body is also bad. A bad body with a valid id gives 400 "Cannot parse body". An absent nonzero id gives 404. All three leave the table unchanged. For a stored id, the record with only the supplied fields replaced is saved under the same id and answered with 200; the answer equals the stored row. An absent id 0 saves the patched zero record under key 0. |
| `Todos.DeleteTwice` | todos/todos.go:92-105 | Deleting the same stored nonzero id twice answers 200, then 404, and removes exactly that row. |
| `Todos.Lifecycle` | todos/todos.go:55-155 | Create, fetch, mark completed, delete, fetch again under a nonzero new id answers: 200 with the new record, the same record, 200 with `completed` true and the name unchanged, 200 deleted, and 404. The table ends as it began. |

## Left out

- Process startup, environment reads, port binding and HTML rendering (app.go) are I/O and are not part of this model.
- Request plumbing is not modelled: JSON decoding and encoding, reading path parameters (including any URL unescaping), and writing the response. A decoded body is an input value. `None` means the body did not decode. A create body without `"name"` decodes with the empty name.
- GetOne and AddTodo also return the parse error to the web framework after writing their 400 response. The framework's error handler, which may replace that response, is not part of this model. The model gives the response the handler writes.
- Store.AddTodo: the new id is a parameter instead of `uuid.New().ID()`, limited to the 32-bit unsigned range that call yields. It must be absent from the table, because what the database does on a key collision is not visible in the code.
- The database layer is abstracted as the visible map of live rows. Not modelled: audit timestamps, soft-delete bookkeeping (a soft-deleted row's id is not in the map), the interplay of the base record's `ID` with `Id`, the differences between `Find` and `First`, and database errors, which the handlers ignore.
- Store.UpdateTodo: for an absent id 0, saving the zero-keyed record is modelled as an insertion under key 0. Whether the database would assign another key is not visible in the code.
- GetAll: the model lists rows in ascending id order. The database promises no order, so only the membership and the length of the list are the source's promise.
- The shared global connection and concurrency between requests are not modelled. Each handler is one atomic step on the table.
