/** Properties that relate several handler calls: read-after-write, framing,
    idempotence, and the table invariant across any sequence of calls. */
module TodoProperties {
  import opened Results
  import opened Models
  import opened Requests
  import opened TodoStore

  /** The request model's boundaries: title lengths 2 and 51 and priorities
      0 and 6 are refused; 3, 50, 1 and 5 are accepted. */
  lemma ValidationBoundaries()
    ensures Validate(RawRequest(seq(2, _ => 'a'), "abc", 3, Some(false))).ValidationError?
    ensures Validate(RawRequest(seq(3, _ => 'a'), "abc", 3, Some(false))).Ok?
    ensures Validate(RawRequest(seq(50, _ => 'a'), "abc", 3, Some(false))).Ok?
    ensures Validate(RawRequest(seq(51, _ => 'a'), "abc", 3, Some(false))).ValidationError?
    ensures Validate(RawRequest("abc", seq(1000, _ => 'd'), 3, Some(true))).Ok?
    ensures Validate(RawRequest("abc", seq(1001, _ => 'd'), 3, Some(true))).ValidationError?
    ensures Validate(RawRequest("abc", "abc", 0, Some(false))).ValidationError?
    ensures Validate(RawRequest("abc", "abc", 1, Some(false))).Ok?
    ensures Validate(RawRequest("abc", "abc", 5, Some(false))).Ok?
    ensures Validate(RawRequest("abc", "abc", 6, Some(false))).ValidationError?
    ensures Validate(RawRequest("abc", "abc", 3, None)).ValidationError?
  {
  }

  /** A path id that is zero or negative is refused before the table is
      consulted, by every handler that takes one. */
  lemma NonPositiveIdRejected(store: Store, id: int, raw: RawRequest)
    requires id <= 0
    ensures GetById(store, id) == Reply(ValidationError, store)
    ensures UpdateTodo(store, id, raw) == Reply(ValidationError, store)
    ensures DeleteTodo(store, id) == Reply(ValidationError, store)
  {
  }

  /** A created row is found by its id with the body's fields. */
  lemma CreateThenGet(store: Store, raw: RawRequest, newId: int)
    requires Fresh(store, newId) && Acceptable(raw)
    ensures GetById(Create(store, raw, newId).store, newId).result
         == Ok(Todo(newId, raw.title, raw.describe, raw.priority, raw.completed.value))
  {
  }

  /** `create` adds exactly one row. */
  lemma CreateAddsOneRow(store: Store, raw: RawRequest, newId: int)
    requires Fresh(store, newId) && Acceptable(raw)
    ensures |Create(store, raw, newId).store| == |store| + 1
  {
  }

  /** After an update, reading the id yields the updated row. */
  lemma UpdateThenGet(store: Store, id: int, raw: RawRequest)
    requires UpdateTodo(store, id, raw).result.Ok?
    ensures GetById(UpdateTodo(store, id, raw).store, id).result == UpdateTodo(store, id, raw).result
  {
  }

  /** Update is a full replace: the answer does not depend on the old row's
      fields, only on its id and the body. */
  lemma UpdateIsFullReplace(s1: Store, s2: Store, id: int, raw: RawRequest)
    requires id in s1 && id in s2 && s1[id].id == s2[id].id
    ensures UpdateTodo(s1, id, raw).result == UpdateTodo(s2, id, raw).result
  {
  }

  /** Sending the same update twice leaves the table as sending it once. */
  lemma UpdateIdempotent(store: Store, id: int, raw: RawRequest)
    ensures var once := UpdateTodo(store, id, raw);
            UpdateTodo(once.store, id, raw) == once
  {
  }

  /** After a delete, the id is no longer found, and deleting it again is a 404. */
  lemma DeleteThenGet(store: Store, id: int)
    requires DeleteTodo(store, id).result.Ok?
    ensures GetById(DeleteTodo(store, id).store, id).result == NotFound
    ensures DeleteTodo(DeleteTodo(store, id).store, id).result == NotFound
  {
  }

  /** `delete_todo` removes exactly one row. */
  lemma DeleteRemovesOneRow(store: Store, id: int)
    requires DeleteTodo(store, id).result.Ok?
    ensures |DeleteTodo(store, id).store| == |store| - 1
  {
  }

  /** Writes touch only their own id: reading any other id answers as before. */
  lemma WritesLeaveOtherRowsAlone(store: Store, raw: RawRequest, newId: int, id: int, other: int)
    requires Fresh(store, newId)
    requires other != id && other != newId
    ensures GetById(Create(store, raw, newId).store, other) == GetById(store, other).(store := Create(store, raw, newId).store)
    ensures GetById(UpdateTodo(store, id, raw).store, other).result == GetById(store, other).result
    ensures GetById(DeleteTodo(store, id).store, other).result == GetById(store, other).result
  {
  }

  /** The columns themselves accept any text and any integer: a row that no
      request could have produced is a perfectly good table entry. Only the
      validator in front of `create` and `update_todo` keeps such rows out. */
  lemma ColumnsImposeNoBounds()
    ensures var s := map[1 := Todo(1, "", "", 0, false)];
            KeyedById(s) && !Invariant(s)
  {
    var s := map[1 := Todo(1, "", "", 0, false)];
    assert 1 in s && !ValidRecord(s[1]);
  }

  /** One call to any of the five handlers, with the id the database would
      assign when the call is a `create`. */
  datatype Call =
    | ListAll
    | Read(id: int)
    | Add(raw: RawRequest, newId: int)
    | Change(id: int, raw: RawRequest)
    | Remove(id: int)

  /** The database hands a `create` an unused id. */
  predicate Allowed(s: Store, c: Call)
  {
    c.Add? ==> Fresh(s, c.newId)
  }

  /** The table after one call. `get_all` leaves it as it is (see `GetAll`). */
  function Step(s: Store, c: Call): Store
    requires Allowed(s, c)
  {
    match c
    case ListAll => s
    case Read(id) => GetById(s, id).store
    case Add(raw, newId) => Create(s, raw, newId).store
    case Change(id, raw) => UpdateTodo(s, id, raw).store
    case Remove(id) => DeleteTodo(s, id).store
  }

  /** Every `create` in the sequence gets an unused id. */
  predicate Feasible(s: Store, calls: seq<Call>)
    decreases |calls|
  {
    calls == [] || (Allowed(s, calls[0]) && Feasible(Step(s, calls[0]), calls[1..]))
  }

  /** The table after a sequence of calls, one after another. */
  function Run(s: Store, calls: seq<Call>): Store
    requires Feasible(s, calls)
    decreases |calls|
  {
    if calls == [] then s else Run(Step(s, calls[0]), calls[1..])
  }

  /** Every handler keeps the table invariant. */
  lemma StepPreservesInvariant(s: Store, c: Call)
    requires Invariant(s) && Allowed(s, c)
    ensures Invariant(Step(s, c))
  {
  }

  /** The table invariant survives any sequence of calls. */
  lemma {:induction false} RunPreservesInvariant(s: Store, calls: seq<Call>)
    requires Invariant(s) && Feasible(s, calls)
    ensures Invariant(Run(s, calls))
    decreases |calls|
  {
    if calls != [] {
      StepPreservesInvariant(s, calls[0]);
      RunPreservesInvariant(Step(s, calls[0]), calls[1..]);
    }
  }

  /** Starting from an empty table, every stored row meets the request bounds
      and sits under its own positive id, whatever calls were made. */
  lemma EveryStoredRowWasValidated(calls: seq<Call>)
    requires Feasible(map[], calls)
    ensures var t := Run(map[], calls);
            forall k :: k in t ==> k > 0 && t[k].id == k && ValidRecord(t[k])
  {
    RunPreservesInvariant(map[], calls);
  }
}
