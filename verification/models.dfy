/** The `todos` table of the database, seen as a finite map from the primary
    key to the row. */
module Models {

  /** One row of `todos`. The columns carry no length or range constraint. */
  datatype Todo = Todo(id: int, title: string, describe: string, priority: int, completed: bool)

  /** The row as stored. A row inserted without `completed` is stored with
      the column's insert-time default, False. No handler relies on this
      default: every insert passes the request's `completed`. */
  function NewTodo(id: int, title: string, describe: string, priority: int, completed: bool := false): Todo
  {
    Todo(id, title, describe, priority, completed)
  }

  /** The table, addressed by primary key. */
  type Store = map<int, Todo>

  /** `id` is the primary key: every row is filed under its own id. */
  predicate KeyedById(s: Store)
  {
    forall k :: k in s ==> s[k].id == k
  }

  /** `t` is one of the rows of `s`. */
  predicate IsRow(s: Store, t: Todo)
  {
    exists k :: k in s && s[k] == t
  }

  /** A row inserted without `completed` is stored as not completed. */
  lemma CompletedDefaultsToFalse(id: int, title: string, describe: string, priority: int)
    ensures NewTodo(id, title, describe, priority).completed == false
    ensures NewTodo(id, title, describe, priority) == NewTodo(id, title, describe, priority, false)
  {
  }

  /** A primary key identifies at most one row: two stored rows with the same
      id are the same row. */
  lemma PrimaryKeyUnique(s: Store, a: Todo, b: Todo)
    requires KeyedById(s)
    requires IsRow(s, a) && IsRow(s, b)
    requires a.id == b.id
    ensures a == b
  {
    var ka :| ka in s && s[ka] == a;
    var kb :| kb in s && s[kb] == b;
    assert ka == a.id && kb == b.id;
  }
}
