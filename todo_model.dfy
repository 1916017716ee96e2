/** The todo document of the database schema (src/models/todo.model.js). */
module TodoModel {
  import opened Js
  import opened Api

  /** A stored todo, without its `_id` and timestamps. `owner` refers to a user. */
  datatype Todo = Todo(title: string, content: string, isCompleted: bool, owner: Id)

  /** The `owner` reference of a todo. */
  function OwnerOf(t: Todo): Id
  {
    t.owner
  }

  /** The schema's `required` validators: a required string field must be
      present and non-empty. */
  predicate ValidTodo(t: Todo)
  {
    t.title != "" && t.content != ""
  }

  /** Building a todo document and validating it, as `Todo.create` does:
      a missing or empty title or content fails validation, and an absent
      `isCompleted` takes its default, false. */
  function NewTodo(title: Option<string>, content: Option<string>, isCompleted: Option<bool>, owner: Id)
    : (r: Result<Todo>)
    ensures r.Ok? <==> Given(title) && Given(content)
    ensures r.Ok? ==> ValidTodo(r.value)
    ensures r.Ok? ==> r.value.title == title.value && r.value.content == content.value
    ensures r.Ok? ==> r.value.owner == owner
    ensures r.Ok? ==> (r.value.isCompleted <==> isCompleted == Some(true))
    ensures r.Err? ==> r.error.Uncaught?
  {
    match (title, content)
    case (Some(t), Some(c)) =>
      if t == "" || c == "" then Err(Uncaught(ValidationError))
      else
        var done := match isCompleted case None => false case Some(b) => b;
        Ok(Todo(t, c, done, owner))
    case _ => Err(Uncaught(ValidationError))
  }

  const ValidationError := "ValidationError: Todo validation failed"
}
