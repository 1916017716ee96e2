/** The todo request handlers (src/controllers/todo.controller.js) over an
    in-memory todo collection. The requester is the id of the authenticated
    user; the handlers that read are functions of the collection, those that
    write are methods of `TodoCollection`. */
module TodoController {
  import opened Js
  import opened Api
  import opened TodoModel

  const MsgRequired := "Title and content are required"
  const MsgInvalidId := "Invalid todo ID"
  const MsgNotFound := "Todo not found"
  const MsgForbidden := "You are not authorized to access this todo"

  /** getTodos: the requester's todos. Converting the requester id to an
      ObjectId throws when it is malformed. */
  function GetTodos(todos: map<Id, Todo>, isValidId: IdCheck, requester: Id)
    : (r: Result<Reply<map<Id, Todo>>>)
    ensures r.Ok? <==> isValidId(requester)
    ensures r.Err? ==> r.error == Uncaught(ObjectIdError)
    ensures r.Ok? ==> r.value.statusCode == 200
    ensures r.Ok? ==> forall id :: id in r.value.data <==> id in todos && todos[id].owner == requester
    ensures r.Ok? ==> forall id :: id in r.value.data ==> r.value.data[id] == todos[id]
  {
    if !isValidId(requester) then Err(Uncaught(ObjectIdError))
    else Ok(Reply(200, OwnedBy(todos, OwnerOf, requester)))
  }

  /** The checks getTodo, updateTodo and deleteTodo make before acting, in
      their order: a malformed id is rejected with 400, an absent one with
      404, and one owned by someone else with 403. `None` lets the handler go on. */
  function CheckAccess(todos: map<Id, Todo>, isValidId: IdCheck, todoId: Id, requester: Id)
    : (r: Option<Failure>)
    ensures r.None? <==> isValidId(todoId) && todoId in todos && todos[todoId].owner == requester
    ensures !isValidId(todoId) ==> r == Some(ApiError(400, MsgInvalidId))
    ensures isValidId(todoId) && todoId !in todos ==> r == Some(ApiError(404, MsgNotFound))
    ensures r == Some(ApiError(403, MsgForbidden)) <==>
              isValidId(todoId) && todoId in todos && todos[todoId].owner != requester
  {
    if !isValidId(todoId) then Some(ApiError(400, MsgInvalidId))
    else if todoId !in todos then Some(ApiError(404, MsgNotFound))
    else if todos[todoId].owner != requester then Some(ApiError(403, MsgForbidden))
    else None
  }

  /** getTodo: the addressed todo, as a one-element list, for its owner only. */
  function GetTodo(todos: map<Id, Todo>, isValidId: IdCheck, todoId: Id, requester: Id)
    : (r: Result<Reply<seq<Stored<Todo>>>>)
    ensures r.Ok? <==> isValidId(todoId) && todoId in todos && todos[todoId].owner == requester
    ensures r.Ok? ==> r.value == Reply(200, [Stored(todoId, todos[todoId])])
    ensures r.Err? ==> Some(r.error) == CheckAccess(todos, isValidId, todoId, requester)
  {
    match CheckAccess(todos, isValidId, todoId, requester)
    case Some(failure) => Err(failure)
    case None => Ok(Reply(200, [Stored(todoId, todos[todoId])]))
  }

  /** An absent id is reported as 404 to every requester: existence is
      checked before ownership, so "not found" wins over "not yours". */
  lemma NotFoundBeforeForbidden(todos: map<Id, Todo>, isValidId: IdCheck, todoId: Id, requester: Id)
    requires isValidId(todoId) && todoId !in todos
    ensures GetTodo(todos, isValidId, todoId, requester) == Err(ApiError(404, MsgNotFound))
  {
  }

  /** In a well-formed collection every stored todo is reachable by its
      owner: getTodo returns it and getTodos lists it. */
  lemma StoredTodoReachable(todos: map<Id, Todo>, isValidId: IdCheck, todoId: Id)
    requires WellFormed(todos, OwnerOf, isValidId)
    requires todoId in todos
    ensures var owner := todos[todoId].owner;
      && GetTodo(todos, isValidId, todoId, owner) == Ok(Reply(200, [Stored(todoId, todos[todoId])]))
      && GetTodos(todos, isValidId, owner).Ok?
      && todoId in GetTodos(todos, isValidId, owner).value.data
  {
  }

  /** The todo collection of the database. Every stored todo has a
      well-formed id and a well-formed owner id. */
  class TodoCollection {
    const isValidId: IdCheck
    var records: map<Id, Todo>

    ghost predicate Valid()
      reads this
    {
      WellFormed(records, OwnerOf, isValidId)
    }

    constructor (isValidId: IdCheck)
      ensures Valid()
      ensures this.isValidId == isValidId && records == map[]
    {
      this.isValidId := isValidId;
      records := map[];
    }

    /** createTodo. `newId` is the fresh id the database assigns. */
    method CreateTodo(newId: Id, title: Option<string>, content: Option<string>, requester: Id)
      returns (r: Result<Reply<Stored<Todo>>>)
      requires Valid()
      requires isValidId(newId) && newId !in records
      modifies this
      ensures Valid()
      ensures !Given(title) || !Given(content) ==> r == Err(ApiError(400, MsgRequired))
      ensures Given(title) && Given(content) && !isValidId(requester) ==> r == Err(Uncaught(ObjectIdError))
      ensures r.Err? ==> records == old(records)
      ensures r.Ok? <==> Given(title) && Given(content) && isValidId(requester)
      ensures r.Ok? ==>
        var todo := Todo(title.value, content.value, false, requester);
        && ValidTodo(todo)
        && records == old(records)[newId := todo]
        && r.value == Reply(201, Stored(newId, todo))
      ensures r.Ok? ==> |records| == |old(records)| + 1
      ensures forall v :: v != requester ==>
        GetTodos(records, isValidId, v) == GetTodos(old(records), isValidId, v)
    {
      if !Given(title) || !Given(content) {
        return Err(ApiError(400, MsgRequired));
      }
      if !isValidId(requester) {
        return Err(Uncaught(ObjectIdError));
      }
      var doc := NewTodo(title, content, None, requester);
      assert doc.Ok?;
      records := records[newId := doc.value];
      r := Ok(Reply(201, Stored(newId, records[newId])));
      forall v | v != requester
        ensures OwnedBy(records, OwnerOf, v) == OwnedBy(old(records), OwnerOf, v)
      {
      }
    }

    /** updateTodo: the owner overwrites title, content and isCompleted. */
    method UpdateTodo(todoId: Id, requester: Id, title: string, content: string, isCompleted: bool)
      returns (r: Result<Reply<Stored<Todo>>>)
      requires Valid()
      modifies this
      ensures Valid()
      ensures r.Ok? <==> CheckAccess(old(records), isValidId, todoId, requester).None?
      ensures r.Err? ==>
        && Some(r.error) == CheckAccess(old(records), isValidId, todoId, requester)
        && records == old(records)
      ensures r.Ok? ==>
        var todo := Todo(title, content, isCompleted, requester);
        && records == old(records)[todoId := todo]
        && r.value == Reply(200, Stored(todoId, todo))
        && GetTodo(records, isValidId, todoId, requester) == Ok(Reply(200, [Stored(todoId, todo)]))
      ensures records.Keys == old(records).Keys
      ensures forall v :: v != requester ==>
        GetTodos(records, isValidId, v) == GetTodos(old(records), isValidId, v)
    {
      if !isValidId(todoId) {
        return Err(ApiError(400, MsgInvalidId));
      }
      if todoId !in records {
        return Err(ApiError(404, MsgNotFound));
      }
      var todo := records[todoId];
      if todo.owner != requester {
        return Err(ApiError(403, MsgForbidden));
      }
      records := records[todoId := Todo(title, content, isCompleted, todo.owner)];
      r := Ok(Reply(200, Stored(todoId, records[todoId])));
      forall v | v != requester
        ensures OwnedBy(records, OwnerOf, v) == OwnedBy(old(records), OwnerOf, v)
      {
      }
    }

    /** deleteTodo: the owner removes the todo; afterwards every requester
        gets 404 for its id. */
    method DeleteTodo(todoId: Id, requester: Id) returns (r: Result<Reply<()>>)
      requires Valid()
      modifies this
      ensures Valid()
      ensures r.Ok? <==> CheckAccess(old(records), isValidId, todoId, requester).None?
      ensures r.Err? ==>
        && Some(r.error) == CheckAccess(old(records), isValidId, todoId, requester)
        && records == old(records)
      ensures r.Ok? ==> records == old(records) - {todoId} && r.value == Reply(200, ())
      ensures r.Ok? ==> forall u :: GetTodo(records, isValidId, todoId, u) == Err(ApiError(404, MsgNotFound))
      ensures forall v :: v != requester ==>
        GetTodos(records, isValidId, v) == GetTodos(old(records), isValidId, v)
    {
      if !isValidId(todoId) {
        return Err(ApiError(400, MsgInvalidId));
      }
      if todoId !in records {
        return Err(ApiError(404, MsgNotFound));
      }
      var todo := records[todoId];
      if todo.owner != requester {
        return Err(ApiError(403, MsgForbidden));
      }
      records := records - {todoId};
      r := Ok(Reply(200, ()));
      forall v | v != requester
        ensures OwnedBy(records, OwnerOf, v) == OwnedBy(old(records), OwnerOf, v)
      {
      }
    }
  }
}
