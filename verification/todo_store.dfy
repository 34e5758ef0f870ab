/** The `todos` table and the statements the service runs against it.

    The table is a sequence of rows in rowid order: a row inserted later sits
    further to the right. Each handler of the service is one atomic transition
    of this sequence. The `completed` column is an SQLite INTEGER; the API
    record `Todo` carries it decoded as a boolean. */
module TodoStore {
  import opened Results

  type Id = string

  /** One stored row: (id TEXT PRIMARY KEY, title TEXT, completed INTEGER). */
  datatype Row = Row(id: Id, title: string, completed: int)

  /** The record the API returns. */
  datatype Todo = Todo(id: Id, title: string, completed: bool)

  /** A partial update: an absent field keeps the stored value. */
  datatype TodoUpdate = TodoUpdate(title: Option<string>, completed: Option<bool>)

  /** Why a storage operation refused to act. */
  datatype StoreError =
    | NotFound       // no row carries the requested id
    | DuplicateKey   // an INSERT would repeat a primary key

  type Table = seq<Row>

  /** The database file: the `todos` table exists or it does not. */
  datatype Database = Database(todos: Option<Table>)

  // ---------------------------------------------------------------------------
  // Column encoding of `completed`

  /** `int(b)`: how a boolean is written into the INTEGER column. */
  function EncodeCompleted(b: bool): (c: int)
    ensures c == 0 || c == 1
    ensures c == 1 <==> b
  {
    if b then 1 else 0
  }

  /** `bool(c)`: how the INTEGER column is read back; any non-zero is true. */
  function DecodeCompleted(c: int): (b: bool)
    ensures b <==> c != 0
    ensures EncodeCompleted(b) == c <==> (c == 0 || c == 1)
  {
    c != 0
  }

  /** A boolean written to the column reads back unchanged. */
  lemma CompletedRoundTrip(b: bool)
    ensures DecodeCompleted(EncodeCompleted(b)) == b
  {
  }

  /** The API view of a stored row. */
  function ToTodo(row: Row): (t: Todo)
    ensures t.id == row.id && t.title == row.title
    ensures t.completed <==> row.completed != 0
  {
    Todo(row.id, row.title, DecodeCompleted(row.completed))
  }

  // ---------------------------------------------------------------------------
  // Table predicates

  /** Some row carries `id`. */
  predicate Contains(t: Table, id: Id)
  {
    exists i :: 0 <= i < |t| && t[i].id == id
  }

  /** The primary key: no two rows share an id. */
  predicate UniqueIds(t: Table)
  {
    forall i, j :: 0 <= i < j < |t| ==> t[i].id != t[j].id
  }

  /** Every `completed` cell holds one of the two values `int(...)` writes. */
  predicate BinaryCompleted(t: Table)
  {
    forall i :: 0 <= i < |t| ==> t[i].completed == 0 || t[i].completed == 1
  }

  /** The invariant every operation of the service keeps. */
  predicate Valid(t: Table)
  {
    UniqueIds(t) && BinaryCompleted(t)
  }

  // ---------------------------------------------------------------------------
  // init_db

  /** `CREATE TABLE IF NOT EXISTS todos (...)`: creates an empty table when
      there is none and leaves an existing one as it is. */
  function InitDb(db: Database): (r: Database)
    ensures r.todos.Some?
    ensures db.todos.Some? ==> r == db
    ensures db.todos.None? ==> r.todos.value == []
  {
    match db.todos
    case Some(_) => db
    case None => Database(Some([]))
  }

  // ---------------------------------------------------------------------------
  // SELECT ... WHERE id = ?

  /** The position of the first row carrying `id`, if any. */
  function IndexOf(t: Table, id: Id): (r: Option<nat>)
    ensures r.None? <==> !Contains(t, id)
    ensures r.Some? ==> r.value < |t| && t[r.value].id == id
    ensures r.Some? ==> forall j :: 0 <= j < r.value ==> t[j].id != id
  {
    if |t| == 0 then None
    else if t[0].id == id then Some(0)
    else
      match IndexOf(t[1..], id)
      case None => None
      case Some(k) => Some(k + 1)
  }

  // ---------------------------------------------------------------------------
  // get_todos: SELECT id, title, completed FROM todos ORDER BY rowid DESC

  /** Every row, decoded, newest first. */
  function ListTodos(t: Table): (r: seq<Todo>)
    ensures |r| == |t|
    ensures forall i :: 0 <= i < |t| ==> r[i] == ToTodo(t[|t| - 1 - i])
  {
    if |t| == 0 then [] else ListTodos(t[1..]) + [ToTodo(t[0])]
  }

  // ---------------------------------------------------------------------------
  // create_todo: INSERT INTO todos (id, title, completed) VALUES (?, ?, 0)

  /** Inserts a row for the caller-chosen `id` with `completed` = 0 and
      returns the new record; the primary key refuses an id already stored. */
  function Create(t: Table, id: Id, title: string): (r: Result<(Table, Todo), StoreError>)
    ensures r.Failure? <==> Contains(t, id)
    ensures r.Failure? ==> r.error == DuplicateKey
    ensures r.Success? ==>
              && r.value.1 == Todo(id, title, false)
              && |r.value.0| == |t| + 1
              && r.value.0[..|t|] == t
              && ToTodo(r.value.0[|t|]) == r.value.1
  {
    if Contains(t, id) then Failure(DuplicateKey)
    else Success((t + [Row(id, title, 0)], Todo(id, title, false)))
  }

  // ---------------------------------------------------------------------------
  // update_todo: UPDATE todos SET title = ?, completed = ? WHERE id = ?

  /** Overwrites title and completed of every row carrying `id`. */
  function SetWhere(t: Table, id: Id, title: string, completed: int): (t': Table)
    ensures |t'| == |t|
    ensures forall i :: 0 <= i < |t| && t[i].id != id ==> t'[i] == t[i]
    ensures forall i :: 0 <= i < |t| && t[i].id == id ==> t'[i] == Row(id, title, completed)
  {
    if |t| == 0 then []
    else
      var head := if t[0].id == id then Row(id, title, completed) else t[0];
      [head] + SetWhere(t[1..], id, title, completed)
  }

  /** Looks the row up, merges the supplied fields over the stored ones, writes
      the merged values back and returns the merged record; an unknown id is
      NotFound and nothing is written. */
  function Update(t: Table, id: Id, upd: TodoUpdate): (r: Result<(Table, Todo), StoreError>)
    ensures r.Failure? <==> !Contains(t, id)
    ensures r.Failure? ==> r.error == NotFound
    ensures r.Success? ==>
              && r.value.1.id == id
              && |r.value.0| == |t|
              && (forall i :: 0 <= i < |t| ==> r.value.0[i].id == t[i].id)
              && (forall i :: 0 <= i < |t| && t[i].id != id ==> r.value.0[i] == t[i])
              && (forall i :: 0 <= i < |t| && t[i].id == id ==> ToTodo(r.value.0[i]) == r.value.1)
              && (upd.title.Some? ==> r.value.1.title == upd.title.value)
              && (upd.completed.Some? ==> r.value.1.completed == upd.completed.value)
  {
    match IndexOf(t, id)
    case None => Failure(NotFound)
    case Some(k) =>
      var current := ToTodo(t[k]);
      var newTitle := upd.title.GetOr(current.title);
      var newCompleted := upd.completed.GetOr(current.completed);
      var t' := SetWhere(t, id, newTitle, EncodeCompleted(newCompleted));
      Success((t', Todo(id, newTitle, newCompleted)))
  }

  // ---------------------------------------------------------------------------
  // delete_todo: DELETE FROM todos WHERE id = ?

  /** Drops every row carrying `id`, keeping the others in order. */
  function RemoveWhere(t: Table, id: Id): (t': Table)
    ensures |t'| <= |t|
    ensures Contains(t, id) ==> |t'| < |t|
    ensures !Contains(t, id) ==> t' == t
    ensures !Contains(t', id)
    ensures forall row :: row in t' <==> row in t && row.id != id
  {
    if |t| == 0 then []
    else if t[0].id == id then RemoveWhere(t[1..], id)
    else [t[0]] + RemoveWhere(t[1..], id)
  }

  /** Deletes the row carrying `id`; an unknown id is NotFound and the table
      is left alone. */
  function Delete(t: Table, id: Id): (r: Result<Table, StoreError>)
    ensures r.Failure? <==> !Contains(t, id)
    ensures r.Failure? ==> r.error == NotFound
    ensures r.Success? ==> !Contains(r.value, id) && |r.value| < |t|
    ensures r.Success? ==> forall row :: row in t && row.id != id ==> row in r.value
  {
    if Contains(t, id) then Success(RemoveWhere(t, id)) else Failure(NotFound)
  }
}
