/** The category document of the database schema (src/models/category.model.js). */
module CategoryModel {
  import opened Js
  import opened Api

  /** A stored category, without its `_id` and timestamps: a required name,
      an optional description, the ordered ids of its todos, and its owner. */
  datatype Category = Category(name: string, description: Option<string>, todos: seq<Id>, owner: Id)

  /** The `owner` reference of a category. */
  function OwnerOf(c: Category): Id
  {
    c.owner
  }

  /** The schema's `required` validator on `name`. */
  predicate ValidCategory(c: Category)
  {
    c.name != ""
  }

  /** Building a category document and validating it, as `Category.create`
      does: a missing or empty name fails validation, an absent description
      stays absent, and the todo list starts empty. */
  function NewCategory(name: Option<string>, description: Option<string>, owner: Id)
    : (r: Result<Category>)
    ensures r.Ok? <==> Given(name)
    ensures r.Ok? ==> ValidCategory(r.value)
    ensures r.Ok? ==> r.value.name == name.value && r.value.description == description
    ensures r.Ok? ==> r.value.todos == [] && r.value.owner == owner
    ensures r.Err? ==> r.error.Uncaught?
  {
    match name
    case Some(n) =>
      if n == "" then Err(Uncaught(ValidationError))
      else Ok(Category(n, description, [], owner))
    case None => Err(Uncaught(ValidationError))
  }

  const ValidationError := "ValidationError: Category validation failed"
}
