/** The category request handlers (src/controllers/category.controller.js)
    over an in-memory category collection. Unlike the todo handlers, reads
    and updates look a category up by id AND owner, so a category of someone
    else is reported as not found; delete looks it up by id alone. */
module CategoryController {
  import opened Js
  import opened Api
  import opened CategoryModel

  const MsgNameRequired := "Name is required"
  const MsgInvalidOwner := "Invalid owner"
  const MsgInvalidCategory := "Invalid category"
  const MsgNotFound := "Category not found"
  const MsgHasTodos := "Category has todos"

  /** What createCategory returns: the new category without its todo list
      (`select("-__v -todos")`). */
  datatype CategoryView = CategoryView(id: Id, name: string, description: Option<string>, owner: Id)

  /** The filter `{ _id: categoryId, owner }` of getCategoriesById and
      updateCategory: a category with that id that the requester owns. */
  predicate OwnedMatch(categories: map<Id, Category>, categoryId: Id, requester: Id)
  {
    categoryId in categories && categories[categoryId].owner == requester
  }

  /** The two id checks every category handler but create makes first:
      the requester id, then the category id. */
  function CheckIds(isValidId: IdCheck, categoryId: Id, requester: Id): (r: Option<Failure>)
    ensures r.None? <==> isValidId(requester) && isValidId(categoryId)
    ensures !isValidId(requester) ==> r == Some(ApiError(400, MsgInvalidOwner))
    ensures isValidId(requester) && !isValidId(categoryId) ==> r == Some(ApiError(400, MsgInvalidCategory))
  {
    if !isValidId(requester) then Some(ApiError(400, MsgInvalidOwner))
    else if !isValidId(categoryId) then Some(ApiError(400, MsgInvalidCategory))
    else None
  }

  /** getCategories: the requester's categories. */
  function GetCategories(categories: map<Id, Category>, isValidId: IdCheck, requester: Id)
    : (r: Result<Reply<map<Id, Category>>>)
    ensures r.Ok? <==> isValidId(requester)
    ensures r.Err? ==> r.error == ApiError(400, MsgInvalidOwner)
    ensures r.Ok? ==> r.value.statusCode == 200
    ensures r.Ok? ==> forall id :: id in r.value.data <==> id in categories && categories[id].owner == requester
    ensures r.Ok? ==> forall id :: id in r.value.data ==> r.value.data[id] == categories[id]
  {
    if !isValidId(requester) then Err(ApiError(400, MsgInvalidOwner))
    else Ok(Reply(200, OwnedBy(categories, OwnerOf, requester)))
  }

  /** getCategoriesById: the addressed category, as a one-element list, when
      the requester owns it; 404 both when it is absent and when it belongs
      to someone else (there is no 403 here). */
  function GetCategoriesById(categories: map<Id, Category>, isValidId: IdCheck, categoryId: Id, requester: Id)
    : (r: Result<Reply<seq<Stored<Category>>>>)
    ensures r.Ok? <==> isValidId(requester) && isValidId(categoryId) && OwnedMatch(categories, categoryId, requester)
    ensures r.Ok? ==> r.value == Reply(200, [Stored(categoryId, categories[categoryId])])
    ensures CheckIds(isValidId, categoryId, requester).Some? ==>
              Some(r.error) == CheckIds(isValidId, categoryId, requester)
    ensures isValidId(requester) && isValidId(categoryId) && !OwnedMatch(categories, categoryId, requester) ==>
              r == Err(ApiError(404, MsgNotFound))
    ensures r.Err? ==> r.error.statusCode != 403
  {
    match CheckIds(isValidId, categoryId, requester)
    case Some(failure) => Err(failure)
    case None =>
      if !OwnedMatch(categories, categoryId, requester) then Err(ApiError(404, MsgNotFound))
      else Ok(Reply(200, [Stored(categoryId, categories[categoryId])]))
  }

  /** `!category.todos.length === 0`: `!` binds tighter than `===`, so the
      boolean `!length` is compared with the number 0. */
  function HasTodosGuard(todos: seq<Id>): bool
  {
    StrictEquals(Bool(!Truthy(Number(|todos|))), Number(0))
  }

  /** The has-todos guard of deleteCategory never fires, whatever the list. */
  lemma HasTodosGuardNeverFires(todos: seq<Id>)
    ensures !HasTodosGuard(todos)
  {
  }

  /** In a well-formed collection every stored category is reachable by its
      owner: getCategoriesById returns it and getCategories lists it. */
  lemma StoredCategoryReachable(categories: map<Id, Category>, isValidId: IdCheck, categoryId: Id)
    requires WellFormed(categories, OwnerOf, isValidId)
    requires categoryId in categories
    ensures var owner := categories[categoryId].owner;
      && GetCategoriesById(categories, isValidId, categoryId, owner)
           == Ok(Reply(200, [Stored(categoryId, categories[categoryId])]))
      && GetCategories(categories, isValidId, owner).Ok?
      && categoryId in GetCategories(categories, isValidId, owner).value.data
  {
  }

  /** The category collection of the database. Every stored category has a
      well-formed id and a well-formed owner id. */
  class CategoryCollection {
    const isValidId: IdCheck
    var records: map<Id, Category>

    ghost predicate Valid()
      reads this
    {
      WellFormed(records, OwnerOf, isValidId)
    }

    constructor (isValidId: IdCheck)
      ensures Valid()
      ensures this.isValidId == isValidId && records == map[]
    {
      this.isValidId := isValidId;
      records := map[];
    }

    /** createCategory. `newId` is the fresh id the database assigns. The
        name is checked before the requester id. */
    method CreateCategory(newId: Id, name: Option<string>, description: Option<string>, requester: Id)
      returns (r: Result<Reply<CategoryView>>)
      requires Valid()
      requires isValidId(newId) && newId !in records
      modifies this
      ensures Valid()
      ensures !Given(name) ==> r == Err(ApiError(400, MsgNameRequired))
      ensures Given(name) && !isValidId(requester) ==> r == Err(ApiError(400, MsgInvalidOwner))
      ensures r.Err? ==> records == old(records)
      ensures r.Ok? <==> Given(name) && isValidId(requester)
      ensures r.Ok? ==>
        var category := Category(name.value, description, [], requester);
        && ValidCategory(category)
        && records == old(records)[newId := category]
        && r.value == Reply(201, CategoryView(newId, name.value, description, requester))
      ensures forall v :: v != requester ==>
        GetCategories(records, isValidId, v) == GetCategories(old(records), isValidId, v)
    {
      if !Given(name) {
        return Err(ApiError(400, MsgNameRequired));
      }
      if !isValidId(requester) {
        return Err(ApiError(400, MsgInvalidOwner));
      }
      var doc := NewCategory(name, description, requester);
      assert doc.Ok?;
      records := records[newId := doc.value];
      var created := records[newId];
      r := Ok(Reply(201, CategoryView(newId, created.name, created.description, created.owner)));
      forall v | v != requester
        ensures OwnedBy(records, OwnerOf, v) == OwnedBy(old(records), OwnerOf, v)
      {
      }
    }

    /** updateCategory: sets name and description of the category with this
        id and this owner; any other requester gets 404 and nothing changes. */
    method UpdateCategory(categoryId: Id, requester: Id, name: string, description: string)
      returns (r: Result<Reply<()>>)
      requires Valid()
      modifies this
      ensures Valid()
      ensures CheckIds(isValidId, categoryId, requester).Some? ==>
        r == Err(CheckIds(isValidId, categoryId, requester).value)
      ensures CheckIds(isValidId, categoryId, requester).None? && !OwnedMatch(old(records), categoryId, requester) ==>
        r == Err(ApiError(404, MsgNotFound))
      ensures r.Ok? <==>
        isValidId(requester) && isValidId(categoryId) && OwnedMatch(old(records), categoryId, requester)
      ensures r.Err? ==> records == old(records)
      ensures r.Ok? ==>
        && records == old(records)[categoryId := old(records)[categoryId].(name := name, description := Some(description))]
        && r.value == Reply(200, ())
      ensures forall v :: v != requester ==>
        GetCategories(records, isValidId, v) == GetCategories(old(records), isValidId, v)
    {
      if !isValidId(requester) {
        return Err(ApiError(400, MsgInvalidOwner));
      }
      if !isValidId(categoryId) {
        return Err(ApiError(400, MsgInvalidCategory));
      }
      if !(categoryId in records && records[categoryId].owner == requester) {
        return Err(ApiError(404, MsgNotFound));
      }
      records := records[categoryId := records[categoryId].(name := name, description := Some(description))];
      r := Ok(Reply(200, ()));
      forall v | v != requester
        ensures OwnedBy(records, OwnerOf, v) == OwnedBy(old(records), OwnerOf, v)
      {
      }
    }

    /** deleteCategory: any requester with a well-formed id may delete any
        existing category, whether or not it owns it and whether or not the
        category still lists todos. */
    method DeleteCategory(categoryId: Id, requester: Id) returns (r: Result<Reply<()>>)
      requires Valid()
      modifies this
      ensures Valid()
      ensures CheckIds(isValidId, categoryId, requester).Some? ==>
        r == Err(CheckIds(isValidId, categoryId, requester).value)
      ensures CheckIds(isValidId, categoryId, requester).None? && categoryId !in old(records) ==>
        r == Err(ApiError(404, MsgNotFound))
      ensures r.Ok? <==> isValidId(requester) && isValidId(categoryId) && categoryId in old(records)
      ensures r.Err? ==> records == old(records)
      ensures r.Ok? ==> records == old(records) - {categoryId} && r.value == Reply(200, ())
      ensures r.Ok? ==> forall u :: isValidId(u) ==>
        GetCategoriesById(records, isValidId, categoryId, u) == Err(ApiError(404, MsgNotFound))
    {
      if !isValidId(requester) {
        return Err(ApiError(400, MsgInvalidOwner));
      }
      if !isValidId(categoryId) {
        return Err(ApiError(400, MsgInvalidCategory));
      }
      if categoryId !in records {
        return Err(ApiError(404, MsgNotFound));
      }
      var category := records[categoryId];
      if HasTodosGuard(category.todos) {
        return Err(ApiError(400, MsgHasTodos));
      }
      records := records - {categoryId};
      r := Ok(Reply(200, ()));
    }
  }
}
