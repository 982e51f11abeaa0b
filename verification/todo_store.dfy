/** The five todo handlers over the `todos` table. The router module and the
    application module define the same handlers under different route names
    (`get_all`/`read_all`, `get_by_id`/`read_by_id`, `create`, `update_todo`,
    `delete_todo`); this module models both. Each handler is one step on the
    table: it answers with a `Result` and the table as it is afterwards. */
module TodoStore {
  import opened Results
  import opened Models
  import opened Requests

  /** A handler's answer together with the table after the call. */
  datatype Reply<+T> = Reply(result: Result<T>, store: Store)

  /** An id the database may hand out to a new row: positive and unused. */
  predicate Fresh(s: Store, id: int)
  {
    id > 0 && id !in s
  }

  /** A row could have been written by `create` or `update_todo`: its fields
      meet the request model's bounds. */
  predicate ValidRecord(t: Todo)
  {
    WithinBounds(t.title, t.describe, t.priority)
  }

  /** What the handlers keep true of the table: rows are filed under their
      own positive id and every row passed the request validator. */
  predicate Invariant(s: Store)
  {
    && KeyedById(s)
    && forall k :: k in s ==> k > 0 && ValidRecord(s[k])
  }

  /** `db.query(Todo).filter(Todo.id == id)` selects `t`. */
  predicate Selects(s: Store, id: int, t: Todo)
  {
    IsRow(s, t) && t.id == id
  }

  /** The row `Todo(**request.model_dump())` builds for a validated body. */
  function RowFor(id: int, req: TodoRequest): Todo
  {
    NewTodo(id, req.title, req.describe, req.priority, req.completed)
  }

  /** `get_all` / `read_all`: every row, each once, in an order the database
      chooses; the table is not changed. */
  method GetAll(store: Store) returns (r: Reply<seq<Todo>>)
    ensures r.store == store && r.result.Ok?
    ensures |r.result.value| == |store|
    ensures forall k :: k in store ==> store[k] in r.result.value
    ensures forall i :: 0 <= i < |r.result.value| ==> IsRow(store, r.result.value[i])
    ensures KeyedById(store) ==>
      forall i, j :: 0 <= i < j < |r.result.value| ==> r.result.value[i].id != r.result.value[j].id
  {
    var rows: seq<Todo> := [];
    var left := store.Keys;
    ghost var seen: set<int> := {};
    ghost var keys: seq<int> := [];  // keys[i] is the key rows[i] was read under
    while left != {}
      invariant left !! seen && left + seen == store.Keys
      invariant |keys| == |rows| == |seen|
      invariant forall i :: 0 <= i < |rows| ==> keys[i] in seen && rows[i] == store[keys[i]]
      invariant forall i, j :: 0 <= i < j < |keys| ==> keys[i] != keys[j]
      invariant forall k :: k in seen ==> store[k] in rows
      decreases left
    {
      if forall j :: j !in left {
        assert false;  // the loop guard says `left` is not empty
      }
      var k :| k in left;
      rows := rows + [store[k]];
      keys := keys + [k];
      left := left - {k};
      seen := seen + {k};
    }
    forall i | 0 <= i < |rows|
      ensures IsRow(store, rows[i])
    {
      var k := keys[i];
      assert k in store && store[k] == rows[i];
    }
    r := Reply(Ok(rows), store);
  }

  /** `get_by_id` / `read_by_id`: the row with that id, or 404. */
  function GetById(store: Store, id: int): (r: Reply<Todo>)
    ensures r.store == store
    ensures r.result.ValidationError? <==> !ValidPathId(id)
    ensures r.result.Ok? ==> Selects(store, id, r.result.value) || !KeyedById(store)
    ensures r.result.Ok? ==> IsRow(store, r.result.value)
    ensures KeyedById(store) && ValidPathId(id) ==>
      (r.result.NotFound? <==> forall k :: k in store ==> store[k].id != id)
  {
    if !ValidPathId(id) then Reply(ValidationError, store)
    else if id in store then Reply(Ok(store[id]), store)
    else Reply(NotFound, store)
  }

  /** `create`: validates the body, then adds one row under the id `newId`
      the database assigns; answers with nothing. */
  function Create(store: Store, raw: RawRequest, newId: int): (r: Reply<()>)
    requires Fresh(store, newId)
    ensures r.result.Ok? <==> Acceptable(raw)
    ensures !r.result.NotFound?
    ensures !r.result.Ok? ==> r.store == store
    ensures r.result.Ok? ==>
      && r.store.Keys == store.Keys + {newId}
      && r.store[newId] == Todo(newId, raw.title, raw.describe, raw.priority, raw.completed.value)
      && forall k :: k in store ==> r.store[k] == store[k]
  {
    match Validate(raw)
    case Ok(req) => Reply(Ok(()), store[newId := RowFor(newId, req)])
    case _ => Reply(ValidationError, store)
  }

  /** `update_todo`: replaces all four fields of the row with that id by the
      body's values (not a merge) and returns the updated row object, or
      404. */
  function UpdateTodo(store: Store, id: int, raw: RawRequest): (r: Reply<Todo>)
    ensures r.result.ValidationError? <==> !ValidPathId(id) || !Acceptable(raw)
    ensures r.result.NotFound? <==> ValidPathId(id) && Acceptable(raw) && id !in store
    ensures !r.result.Ok? ==> r.store == store
    ensures r.result.Ok? ==>
      && id in store
      && r.result.value == Todo(store[id].id, raw.title, raw.describe, raw.priority, raw.completed.value)
      && r.store.Keys == store.Keys
      && r.store[id] == r.result.value
      && forall k :: k in store && k != id ==> r.store[k] == store[k]
  {
    if !ValidPathId(id) then Reply(ValidationError, store)
    else match Validate(raw)
      case Ok(req) =>
        if id in store then
          var row := store[id].(title := req.title, describe := req.describe,
                                priority := req.priority, completed := req.completed);
          Reply(Ok(row), store[id := row])
        else Reply(NotFound, store)
      case _ => Reply(ValidationError, store)
  }

  /** `delete_todo`: removes the row with that id and answers with it, or 404. */
  function DeleteTodo(store: Store, id: int): (r: Reply<Todo>)
    ensures r.result.ValidationError? <==> !ValidPathId(id)
    ensures r.result.NotFound? <==> ValidPathId(id) && id !in store
    ensures !r.result.Ok? ==> r.store == store
    ensures r.result.Ok? ==>
      && id in store
      && r.result.value == store[id]
      && r.store.Keys == store.Keys - {id}
      && forall k :: k in r.store ==> r.store[k] == store[k]
  {
    if !ValidPathId(id) then Reply(ValidationError, store)
    else if id in store then Reply(Ok(store[id]), store - {id})
    else Reply(NotFound, store)
  }

  /** One id allocation the database may make (one past the largest id in
      use, or 1 for an empty table); it always yields a fresh id, so
      `Create`'s precondition can always be met. */
  method NextId(store: Store) returns (id: int)
    ensures Fresh(store, id)
    ensures forall k :: k in store ==> k < id
  {
    id := 1;
    var left := store.Keys;
    while left != {}
      invariant left <= store.Keys
      invariant id > 0
      invariant forall k :: k in store && k !in left ==> k < id
      decreases left
    {
      if forall j :: j !in left {
        assert false;  // the loop guard says `left` is not empty
      }
      var k :| k in left;
      if k >= id {
        id := k + 1;
      }
      left := left - {k};
    }
  }
}
