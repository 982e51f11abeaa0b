# Todo CRUD core, modelled in Dafny

This project models the core of a small todo service: the `TodoRequest`
validator and the five handlers that read and write the `todos` table
(`get_all`, `get_by_id`, `create`, `update_todo`, `delete_todo`). The same
validator and handlers appear twice in the repository: once in
`routers/todo.py` and once in `main.py` (there `get_all` and `get_by_id` are
named `read_all` and `read_by_id`). The logic is identical, so one Dafny
module models both files.

The table is a finite map `map<int, Todo>` from primary key to row. Each
handler is a pure function (or, for `get_all`, a method) that takes the table
and the call's arguments and returns a `Reply`: a `Result` (`Ok`, `NotFound`,
`ValidationError`) and the table as it is after the call.

- `results.dfy`, module `Results`: `Option` and `Result`. `NotFound` stands for
  the handlers' `HTTPException(404)`. `ValidationError` stands for the 422
  answer the web framework gives when a path parameter or the body breaks a
  declared constraint.
- `models.dfy`, module `Models`: the `Todo` row, the `completed` column
  default, the table type and the primary-key property.
- `requests.dfy`, module `Requests`: the `TodoRequest` body constraints, the
  framework's per-field error list and the `Path(gt=0)` id constraint.
- `todo_store.dfy`, module `TodoStore`: the five handlers and the table
  invariant.
- `todo_properties.dfy`, module `TodoProperties`: properties that span
  several calls. These cover read-after-write, framing, idempotence, and the
  invariant over any sequence of calls.

In the code, a row has exactly the columns `id`, `title`, `describe`,
`priority` and `completed` (models.py). There is no owner column, and no
handler checks who is calling. `create` returns `None`.

## Model

| member | source | states |
|---|---|---|
| Models.PrimaryKeyUnique | models.py:7 | In a table keyed by `id`, two stored rows with the same id are the same row. |
| Models.CompletedDefaultsToFalse | models.py:11 | A row inserted without a `completed` value is stored with `completed` False. No handler relies on this default, because every insert passes the request's `completed`. |
| Requests.Violations | routers/todo.py:15-19 | The error list contains a violation exactly when `raw` breaks the corresponding bound: title or describe too short or too long, priority below 1 or above 5, `completed` missing or not a boolean. |
| Requests.Validate | routers/todo.py:15-19 | A body is accepted iff 3 <= len(title) <= 50, 3 <= len(describe) <= 1000, 1 <= priority <= 5 and `completed` is a boolean. The accepted request carries the body's four values. Validation never answers `NotFound`. |
| TodoStore.GetAll | routers/todo.py:33-35 | Returns every stored row exactly once: the list length equals the row count, each element is a stored row, and each stored row is listed. Ids in the list are pairwise distinct. The table is unchanged. |
| TodoStore.GetById | routers/todo.py:37-42 | A non-positive id is a validation error. Otherwise the answer is the row the query `Todo.id == id` selects, or `NotFound` exactly when no row has that id. The table is unchanged. |
| TodoStore.Create | routers/todo.py:45-49 | Succeeds iff the body is valid. On success it adds exactly the key `newId`, holding a row with the body's four fields, and keeps every existing row. On failure the table is unchanged. |
| TodoStore.UpdateTodo | routers/todo.py:52-62 | A bad id or body is a validation error. An absent id is `NotFound`. In both cases the table is unchanged. Otherwise the row keeps its id and takes all four body values. The handler stores it and returns the updated row object. The key set is unchanged, and every other row is unchanged. What the client receives is under "Left out". |
| TodoStore.DeleteTodo | routers/todo.py:64-71 | A bad id is a validation error. An absent id is `NotFound` with the table unchanged. Otherwise it returns the stored row, removes exactly that key and leaves every other row as it was. |
| TodoStore.NextId | models.py:7 | An id above every id in use is always available, so the database can always hand `create` a fresh positive id. |
| TodoProperties.ValidationBoundaries | main.py:15-19 | Title lengths 2 and 51 are rejected and 3 and 50 accepted. Describe length 1000 is accepted and 1001 rejected. Priorities 0 and 6 are rejected and 1 and 5 accepted. A missing `completed` is rejected. |
| TodoProperties.NonPositiveIdRejected | main.py:38-65 | Read, update and delete all refuse an id <= 0 (lines 38, 53 and 65). The table is unchanged. |
| TodoProperties.CreateThenGet | main.py:45-49 | After a valid create, reading the new id returns a row with that id and the body's fields. |
| TodoProperties.CreateAddsOneRow | main.py:47-49 | A valid create grows the table by exactly one row. |
| TodoProperties.UpdateThenGet | main.py:52-62 | After a successful update, reading the id returns the row that the update returned. |
| TodoProperties.UpdateIsFullReplace | main.py:56-59 | The updated row does not depend on the old row's title, describe, priority or completed: update replaces the row and does not merge. |
| TodoProperties.UpdateIdempotent | main.py:52-62 | Repeating the same update gives the same answer and the same table as doing it once. |
| TodoProperties.DeleteThenGet | main.py:64-71 | After a delete, reading the id is `NotFound`, and deleting it again is `NotFound`. |
| TodoProperties.DeleteRemovesOneRow | main.py:66-70 | A successful delete shrinks the table by exactly one row. |
| TodoProperties.WritesLeaveOtherRowsAlone | main.py:45-71 | Create, update and delete leave the answer for every other id unchanged. |
| TodoProperties.ColumnsImposeNoBounds | models.py:8-10 | The columns accept a row that no request could produce. Such a row is a valid table entry but breaks the invariant. |
| TodoProperties.StepPreservesInvariant | routers/todo.py:33-71 | Each of the five handlers keeps the table invariant. The invariant is that every row is filed under its own positive id and meets the request bounds. |
| TodoProperties.RunPreservesInvariant | routers/todo.py:45-62 | The invariant survives any sequence of handler calls. It holds because create and update validate before they write. |
| TodoProperties.EveryStoredRowWasValidated | models.py:7-11 | Starting from an empty table, every stored row meets the request bounds and sits under its own positive id, whatever calls were made. |

## Left out

- Web routing, dependency injection and the `get_db` session open/close
  lifecycle. These are framework plumbing with no logic of their own.
- The database session: query, add, commit, transactions and
  `Base.metadata.create_all`. The table is a plain map, and each handler is
  one atomic step on it.
- Path ids beyond the database's integer width. The model's ids are
  unbounded integers. For an id of 2^63 or more, the driver fails while
  binding the query, and the client gets a server error. The model answers
  `NotFound` instead.
- Database failures, such as a failed commit. The model has no persistence
  errors.
- The Alembic migrations. They are schema changes with no logic. The
  `completed` to `complete` rename is not reflected in `models.py`, so the
  model keeps `completed`.
- Authentication, per-user ownership and AI description enrichment. No file
  of the core implements them.
- `async` and concurrency between requests. Each handler is one sequential
  step.
- TodoStore.Create: the id comes from the database's autoincrement. The
  model takes it as a parameter and assumes only that it is positive and
  unused. `NextId` shows one such choice; the actual allocation policy is
  not modelled.
- TodoStore.GetAll: the row order is whatever the database returns. The
  contract states no order.
- TodoProperties.Step: a `get_all` call is modelled as leaving the table
  unchanged. The list it returns comes from the `GetAll` method, which a
  function cannot call.
- Requests.Validate: the framework's lax coercion is not modelled. For
  example, it turns `"3"` into `3` and `"true"` into `true`. A body is
  either well-typed or reported as a missing boolean. A path id that is not
  an integer, such as `/get_by_id/abc`, is also refused with a 422. The
  model's `id: int` cannot express such a path, so that answer is not
  modelled.
- The 422 error body. `ValidationError` carries no detail. Which violations
  are reported is modelled by `Violations`; the path-parameter error entry
  is not.
- String length is counted in Unicode scalar values (Dafny's `char`). This
  matches Python's `len` for every string without unpaired surrogate
  escapes.
- Strings that contain an unpaired surrogate escape, such as
  `"\ud800abc"`. This is valid JSON and decodes to a Python `str`, but
  Dafny's `char` cannot hold a lone surrogate. Such strings have no
  counterpart in the model, so the framework's answer for them is not
  modelled.
- TodoStore.UpdateTodo: the model's `Ok(row)` is the handler's Python
  return value, not the JSON the client receives. The row object is
  returned after `db.commit()`. With the session's default expire-on-commit
  setting, its attributes are expired at that point. The web framework's
  fallback encoder may then send an empty object instead of the updated
  fields. The session configuration is not part of this model, so this is
  not modelled. `delete_todo` returns a deleted, detached row whose fields
  are still loaded.
- JSON serialisation of the answers, and the `null` body `create` returns,
  are left out. `create` is modelled as answering `Ok(())`.
