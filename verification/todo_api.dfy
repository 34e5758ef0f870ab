/** The HTTP layer: the four `/api/todos` endpoints as one request handler
    over the database, the status codes and bodies it answers with, and the
    service's life from startup (which runs `init_db`) over a sequence of
    requests.

    A storage failure the service does not handle (no `todos` table, or an
    INSERT that repeats a primary key) surfaces as status 500 and leaves the
    database as it was. */
module TodoApi {
  import opened Results
  import opened TodoStore
  import StoreProperties

  datatype Request =
    | ListRequest                                 // GET /api/todos
    | CreateRequest(title: string)                // POST /api/todos {title}
    | UpdateRequest(id: Id, update: TodoUpdate)   // PUT /api/todos/{id}
    | DeleteRequest(id: Id)                       // DELETE /api/todos/{id}

  /** The JSON bodies the endpoints answer with. */
  datatype Body =
    | TodoList(todos: seq<Todo>)    // [{id, title, completed}, ...]
    | TodoItem(todo: Todo)          // {id, title, completed}
    | Message(message: string)      // {"message": ...}
    | Detail(detail: string)        // {"detail": ...}
    | ServerError                   // unhandled storage failure

  datatype Response = Response(status: int, body: Body)

  const NotFoundDetail: string := "Todo not found"
  const DeletedMessage: string := "Todo deleted successfully"

  /** How a refused storage operation reaches the client: NotFound is the
      handled 404, anything else is an unhandled server error. */
  function ErrorResponse(e: StoreError): (r: Response)
    ensures r.status == 404 <==> e == NotFound
    ensures r.status == 404 ==> r.body == Detail(NotFoundDetail)
    ensures r.status != 404 ==> r.status == 500
  {
    match e
    case NotFound => Response(404, Detail(NotFoundDetail))
    case DuplicateKey => Response(500, ServerError)
  }

  /** One request against the database. `freshId` is the identifier a create
      draws from `uuid4`; the other requests ignore it. Returns the database
      afterwards and the response. */
  function Handle(db: Database, req: Request, freshId: Id): (r: (Database, Response))
    ensures r.1.status in {200, 404, 500}
    ensures r.1.status != 200 ==> r.0 == db
    ensures r.1.status == 404 <==>
              && db.todos.Some?
              && (req.UpdateRequest? || req.DeleteRequest?)
              && !Contains(db.todos.value, req.id)
    ensures r.1.status == 404 ==> r.1.body == Detail(NotFoundDetail)
    ensures r.1.status == 500 <==>
              db.todos.None? || (req.CreateRequest? && Contains(db.todos.value, freshId))
    ensures req.ListRequest? ==> r.0 == db
    ensures r.0.todos.Some? <==> db.todos.Some?
    ensures db.todos.Some? && req.ListRequest? ==>
              r.1 == Response(200, TodoList(ListTodos(db.todos.value)))
    ensures db.todos.Some? && req.CreateRequest? && r.1.status == 200 ==>
              && r.1.body.TodoItem?
              && Create(db.todos.value, freshId, req.title) == Success((r.0.todos.value, r.1.body.todo))
    ensures db.todos.Some? && req.UpdateRequest? && r.1.status == 200 ==>
              && r.1.body.TodoItem?
              && Update(db.todos.value, req.id, req.update) == Success((r.0.todos.value, r.1.body.todo))
    ensures db.todos.Some? && req.DeleteRequest? && r.1.status == 200 ==>
              && r.1.body == Message(DeletedMessage)
              && Delete(db.todos.value, req.id) == Success(r.0.todos.value)
  {
    match db.todos
    case None => (db, Response(500, ServerError))
    case Some(t) =>
      match req
      case ListRequest =>
        (db, Response(200, TodoList(ListTodos(t))))
      case CreateRequest(title) =>
        (match Create(t, freshId, title)
         case Success((t', todo)) => (Database(Some(t')), Response(200, TodoItem(todo)))
         case Failure(e) => (db, ErrorResponse(e)))
      case UpdateRequest(id, upd) =>
        (match Update(t, id, upd)
         case Success((t', todo)) => (Database(Some(t')), Response(200, TodoItem(todo)))
         case Failure(e) => (db, ErrorResponse(e)))
      case DeleteRequest(id) =>
        (match Delete(t, id)
         case Success(t') => (Database(Some(t')), Response(200, Message(DeletedMessage)))
         case Failure(e) => (db, ErrorResponse(e)))
  }

  /** Every request the service can receive keeps the table valid. */
  lemma HandlePreservesValid(db: Database, req: Request, freshId: Id)
    requires db.todos.Some? && Valid(db.todos.value)
    ensures var db' := Handle(db, req, freshId).0;
            db'.todos.Some? && Valid(db'.todos.value)
  {
    var t := db.todos.value;
    match req
    case ListRequest =>
    case CreateRequest(title) => StoreProperties.CreatePreservesValid(t, freshId, title);
    case UpdateRequest(id, upd) => StoreProperties.UpdatePreservesValid(t, id, upd);
    case DeleteRequest(id) => StoreProperties.DeletePreservesValid(t, id);
  }

  /** Serves `reqs` in order, each paired with the identifier its handler
      would draw; returns the final database and one response per request. */
  function Run(db: Database, reqs: seq<(Request, Id)>): (r: (Database, seq<Response>))
    ensures |r.1| == |reqs|
    decreases |reqs|
  {
    if |reqs| == 0 then (db, [])
    else
      var (db1, resp) := Handle(db, reqs[0].0, reqs[0].1);
      var (db2, rest) := Run(db1, reqs[1..]);
      (db2, [resp] + rest)
  }

  /** The identifiers the creates in `reqs` draw are new: none is already
      stored in `t`, and no two creates draw the same one. */
  predicate FreshDraws(t: Table, reqs: seq<(Request, Id)>)
  {
    && (forall i :: 0 <= i < |reqs| && reqs[i].0.CreateRequest? ==> !Contains(t, reqs[i].1))
    && (forall i, j :: 0 <= i < j < |reqs| && reqs[i].0.CreateRequest? && reqs[j].0.CreateRequest? ==>
          reqs[i].1 != reqs[j].1)
  }

  /** The service's life: `init_db` at startup, then the requests. No
      request meets a missing table, so the only server error left is an
      identifier collision on create: when every drawn identifier is new,
      no request is answered with 500. */
  function Serve(db: Database, reqs: seq<(Request, Id)>): (r: (Database, seq<Response>))
    ensures |r.1| == |reqs|
    ensures r.0.todos.Some?
    ensures forall i :: 0 <= i < |reqs| && r.1[i].status == 500 ==> reqs[i].0.CreateRequest?
    ensures FreshDraws(InitDb(db).todos.value, reqs) ==>
              forall i :: 0 <= i < |reqs| ==> r.1[i].status != 500
  {
    RunKeepsTable(InitDb(db), reqs);
    RunServerErrorsOnlyOnCreate(InitDb(db), reqs);
    if FreshDraws(InitDb(db).todos.value, reqs) then
      RunFreshIdsNoServerError(InitDb(db), reqs);
      Run(InitDb(db), reqs)
    else
      Run(InitDb(db), reqs)
  }

  /** A request stores no identifier that was not stored before, except the
      one a create draws. */
  lemma HandleIds(db: Database, req: Request, freshId: Id, x: Id)
    requires db.todos.Some?
    ensures Contains(Handle(db, req, freshId).0.todos.value, x) ==>
              Contains(db.todos.value, x) || (req.CreateRequest? && x == freshId)
  {
  }

  /** When the table exists and every drawn identifier is new, no request of
      a run is answered with 500. */
  lemma {:induction false} RunFreshIdsNoServerError(db: Database, reqs: seq<(Request, Id)>)
    requires db.todos.Some?
    requires FreshDraws(db.todos.value, reqs)
    ensures var resps := Run(db, reqs).1;
            forall i :: 0 <= i < |reqs| ==> resps[i].status != 500
    decreases |reqs|
  {
    if |reqs| > 0 {
      var db1 := Handle(db, reqs[0].0, reqs[0].1).0;
      var tail := reqs[1..];
      forall j | 0 <= j < |tail| && tail[j].0.CreateRequest?
        ensures !Contains(db1.todos.value, tail[j].1)
      {
        assert tail[j] == reqs[j + 1];
        HandleIds(db, reqs[0].0, reqs[0].1, tail[j].1);
      }
      forall i, j | 0 <= i < j < |tail| && tail[i].0.CreateRequest? && tail[j].0.CreateRequest?
        ensures tail[i].1 != tail[j].1
      {
        assert tail[i] == reqs[i + 1] && tail[j] == reqs[j + 1];
      }
      RunFreshIdsNoServerError(db1, tail);
      var resps := Run(db, reqs).1;
      forall i | 0 <= i < |reqs|
        ensures resps[i].status != 500
      {
        if i > 0 {
          assert resps[i] == Run(db1, tail).1[i - 1];
          assert Run(db1, tail).1[i - 1].status != 500;
        } else {
          assert resps[0] == Handle(db, reqs[0].0, reqs[0].1).1;
        }
      }
    }
  }

  /** Once the table exists, a 500 answers only a create (whose drawn
      identifier collided). */
  lemma {:induction false} RunServerErrorsOnlyOnCreate(db: Database, reqs: seq<(Request, Id)>)
    requires db.todos.Some?
    ensures var resps := Run(db, reqs).1;
            forall i :: 0 <= i < |reqs| && resps[i].status == 500 ==> reqs[i].0.CreateRequest?
    decreases |reqs|
  {
    if |reqs| > 0 {
      var db1 := Handle(db, reqs[0].0, reqs[0].1).0;
      RunServerErrorsOnlyOnCreate(db1, reqs[1..]);
      var resps := Run(db, reqs).1;
      forall i | 0 <= i < |reqs| && resps[i].status == 500
        ensures reqs[i].0.CreateRequest?
      {
        if i > 0 {
          assert resps[i] == Run(db1, reqs[1..]).1[i - 1];
          assert reqs[i] == reqs[1..][i - 1];
        }
      }
    }
  }

  /** The table, once created, is never dropped. */
  lemma {:induction false} RunKeepsTable(db: Database, reqs: seq<(Request, Id)>)
    requires db.todos.Some?
    ensures Run(db, reqs).0.todos.Some?
    decreases |reqs|
  {
    if |reqs| > 0 {
      RunKeepsTable(Handle(db, reqs[0].0, reqs[0].1).0, reqs[1..]);
    }
  }

  /** Starting from any database that is absent or valid, the table stays
      valid (unique ids, binary completed column) however many requests are
      served and whatever identifiers are drawn. */
  lemma {:induction false} RunPreservesValid(db: Database, reqs: seq<(Request, Id)>)
    requires db.todos.Some? && Valid(db.todos.value)
    ensures var db' := Run(db, reqs).0;
            db'.todos.Some? && Valid(db'.todos.value)
    decreases |reqs|
  {
    if |reqs| > 0 {
      HandlePreservesValid(db, reqs[0].0, reqs[0].1);
      RunPreservesValid(Handle(db, reqs[0].0, reqs[0].1).0, reqs[1..]);
    }
  }

  /** From a missing or valid database, startup and any run of requests
      leave a valid table. */
  lemma ServePreservesValid(db: Database, reqs: seq<(Request, Id)>)
    requires db.todos.None? || Valid(db.todos.value)
    ensures Valid(Serve(db, reqs).0.todos.value)
  {
    StoreProperties.InitValid(db);
    RunPreservesValid(InitDb(db), reqs);
  }
}
