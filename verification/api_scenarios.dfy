/** End-to-end request sequences against a service that starts with no
    database file, each checking what the endpoints answer. */
module ApiScenarios {
  import opened Results
  import opened TodoStore
  import opened TodoApi

  /** The database right after startup on a missing file. */
  function Fresh(): (db: Database)
    ensures db.todos == Some([])
  {
    InitDb(Database(None))
  }

  /** Listing a new database answers 200 with an empty array. */
  lemma ListOnEmptyStore(x: Id)
    ensures Serve(Database(None), [(ListRequest, x)]).1 == [Response(200, TodoList([]))]
  {
  }

  /** Creating "Test todo" answers 200 with that title, not completed, under
      the drawn identifier. */
  lemma CreateAnswersNewRecord(a: Id)
    ensures Handle(Fresh(), CreateRequest("Test todo"), a).1
            == Response(200, TodoItem(Todo(a, "Test todo", false)))
  {
  }

  /** After creating "First" then "Second", the listing has two entries with
      "Second" first. */
  lemma ListNewestFirstAfterTwoCreates(a: Id, b: Id, x: Id)
    requires a != b
    ensures var (db1, r1) := Handle(Fresh(), CreateRequest("First"), a);
            var (db2, r2) := Handle(db1, CreateRequest("Second"), b);
            var (db3, r3) := Handle(db2, ListRequest, x);
            && r1.status == 200 && r2.status == 200 && r3.status == 200
            && r3.body == TodoList([Todo(b, "Second", false), Todo(a, "First", false)])
  {
  }

  /** `{completed: true}` on a stored "Original" answers it completed and
      with its title kept. */
  lemma UpdateCompletedKeepsTitle(a: Id)
    ensures var (db1, _) := Handle(Fresh(), CreateRequest("Original"), a);
            var (_, r) := Handle(db1, UpdateRequest(a, TodoUpdate(None, Some(true))), a);
            r == Response(200, TodoItem(Todo(a, "Original", true)))
  {
  }

  /** `{title: "New title"}` answers the new title and keeps completed. */
  lemma UpdateTitleKeepsCompleted(a: Id)
    ensures var (db1, _) := Handle(Fresh(), CreateRequest("Old title"), a);
            var (_, r) := Handle(db1, UpdateRequest(a, TodoUpdate(Some("New title"), None)), a);
            r == Response(200, TodoItem(Todo(a, "New title", false)))
  {
  }

  /** Updating an unknown id answers 404 "Todo not found" and writes nothing. */
  lemma UpdateUnknownIsNotFound(db: Database, id: Id, upd: TodoUpdate, x: Id)
    requires db.todos.Some? && !Contains(db.todos.value, id)
    ensures Handle(db, UpdateRequest(id, upd), x) == (db, Response(404, Detail("Todo not found")))
  {
  }

  /** Creating then deleting a todo answers 200 with the deletion message, and
      the following listing is empty. */
  lemma DeleteThenListEmpty(a: Id, x: Id)
    ensures var (db1, _) := Handle(Fresh(), CreateRequest("To delete"), a);
            var (db2, r2) := Handle(db1, DeleteRequest(a), x);
            var (_, r3) := Handle(db2, ListRequest, x);
            && r2 == Response(200, Message("Todo deleted successfully"))
            && r3 == Response(200, TodoList([]))
  {
  }

  /** Deleting an unknown id answers 404 "Todo not found" and leaves the
      database unchanged. */
  lemma DeleteUnknownIsNotFound(db: Database, id: Id, x: Id)
    requires db.todos.Some? && !Contains(db.todos.value, id)
    ensures Handle(db, DeleteRequest(id), x) == (db, Response(404, Detail("Todo not found")))
  {
  }
}
