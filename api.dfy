/** What every request handler shares: record ids, the id well-formedness
    test of the database library, and the outcome of a handler. */
module Api {

  /** A database record id (a MongoDB ObjectId), identified with its
      canonical string form, so that `todo.owner.toString()` is the id itself. */
  type Id = string

  /** The database library's test that a string is a well-formed object id
      (`mongoose.isValidObjectId`, `mongoose.Types.ObjectId.isValid`); the
      model does not fix its syntax and takes it as a parameter. */
  type IdCheck = Id -> bool

  /** Why a handler did not answer with a success.
      `ApiError` is the error a handler passes to `next(...)` or throws itself;
      `Uncaught` is any other exception (a TypeError, a failed ObjectId
      conversion, a schema validation error) that reaches the request wrapper. */
  datatype Failure =
    | ApiError(statusCode: int, message: string)
    | Uncaught(exception: string)

  /** A success response: its status code and its payload. */
  datatype Reply<+T> = Reply(statusCode: int, data: T)

  datatype Result<+T> = Ok(value: T) | Err(error: Failure)

  /** The records of one owner: what a `{ $match: { owner } }` stage keeps. */
  function OwnedBy<R>(table: map<Id, R>, ownerOf: R -> Id, owner: Id): (r: map<Id, R>)
    ensures forall id :: id in r <==> id in table && ownerOf(table[id]) == owner
    ensures forall id :: id in r ==> r[id] == table[id]
  {
    map id | id in table && ownerOf(table[id]) == owner :: table[id]
  }

  /** Every record of the table has a well-formed id and a well-formed
      owner id: the invariant of each collection whose records have an owner. */
  ghost predicate WellFormed<R>(table: map<Id, R>, ownerOf: R -> Id, isValidId: IdCheck)
  {
    forall id :: id in table ==> isValidId(id) && isValidId(ownerOf(table[id]))
  }

  /** A record read back from a collection together with its `_id`. */
  datatype Stored<+R> = Stored(id: Id, record: R)

  /** The exception `new mongoose.Types.ObjectId(s)` throws for a malformed `s`. */
  const ObjectIdError := "BSONError: input must be a 24 character hex string"

  /** The exception of reading a property of `undefined` or `null`. */
  const TypeError := "TypeError: cannot read properties of undefined or null"
}
