# Todo backend: ownership-checked record handlers

This project models the request handlers of a small todo backend (an
Express application over MongoDB). It covers three record collections:
users, todos and categories. It also covers two string derivations: the
username taken from an email, and the public id taken from a media url.

## What is modelled, and how

- **Records** (`todo_model.dfy`, `category_model.dfy`). `Todo` and `Category`
  are datatypes. `ValidTodo` and `ValidCategory` state the schema's `required`
  rules. `NewTodo` and `NewCategory` build and validate a document as
  `Model.create` does, applying the `isCompleted: false` and empty-`todos`
  defaults.
- **Collections**. Each collection is a class holding a `map<Id, R>` field
  (`TodoCollection`, `CategoryCollection`, `UserCollection`). The handlers
  that write are methods of that class. Each method's postcondition gives the
  whole new table and the response, case by case, in the handler's own order
  of checks. The handlers that only read (`GetTodos`, `GetTodo`,
  `GetCategories`, `GetCategoriesById`) are functions of the table.
- **Handler outcome**. A handler returns `Ok(Reply(status, payload))` or
  `Err(failure)`. A failure is either `ApiError(status, message)`, with the
  source's status codes and messages, or `Uncaught(exception)`. `Uncaught`
  stands for a JavaScript exception that is not an `ApiError`: a `TypeError`
  from reading `.url` of `undefined`, or a failed ObjectId conversion.
- **Ids**. An `Id` is a string. The library's ObjectId well-formedness test is
  a parameter (`isValidId`, a constant of each collection), so the model does
  not fix its syntax. The database picks the id of a new record; here it is a
  parameter that must be fresh and well formed.
- **Requester**. The requester is the authenticated user's id, given as a
  string.
- **JavaScript semantics** (`js.dfy`). `js.dfy` covers truthiness, strict
  equality across types, `split` with a one-character separator (with its
  inverse `Join` and the round trip), and `trim`.
- **Media host** (`cloudinary.dfy`). The upload and delete helpers keep their
  early returns on a falsy argument. Public-id extraction is a pure function.
  The host's answers are parameters.

## Where the code does not do what its own messages say

The model follows the code in each of these cases:

- **404 instead of 403 for categories.** `getCategoriesById` and
  `updateCategory` look a category up by id and owner together. A category
  owned by someone else is therefore reported as 404, never 403.
- **No ownership check on `deleteCategory`.** `deleteCategory` looks the
  category up by id only. Any requester with a well-formed id can delete any
  existing category.
- **The "has todos" guard never fires.** deleteCategory has a rejection
  with the message "Category has todos" (src/controllers/category.controller.js:224),
  meant for a category that still lists todos. The code's guard is
  `!category.todos.length === 0`, which compares a boolean with the number 0,
  so it is never true. A category is deleted whatever its todo list holds
  (`HasTodosGuardNeverFires`).
- **The blank-field check never rejects.** register has a rejection with
  the message "Please fill in all fields" (src/controllers/user.controller.js:35),
  meant for blank registration fields. The code's test is `(field === field?.trim()) === ""`,
  which compares a boolean with a string, so it never rejects
  (`BlankCheckNeverRejects`).
- **Register without an avatar file throws.** With no avatar file, register
  reads `.url` of `undefined` and throws a `TypeError`. It does not reach its
  own `ApiError(500, "Error uploading avatar")`.
- **Updates skip schema validation.** `updateTodo` and `updateCategory` use
  `findByIdAndUpdate`/`findOneAndUpdate`, which do not run the schema
  validators. An update can therefore store an empty title or name. For this
  reason the collection invariants require only well-formed ids and owners,
  not `ValidTodo` or `ValidCategory`.

## Model

| member | source | states |
|---|---|---|
| `Js.StrictEquals` | src/controllers/user.controller.js:32 | `===` is true exactly for two equal values; values of different types are never strictly equal |
| `Js.Truthy` | src/controllers/todo.controller.js:10 | a value passes `!v` exactly when it is not one of undefined, null, false, 0 and `""` |
| `Js.Given` | src/controllers/todo.controller.js:10 | a request field passes `!field` exactly when it is present and not the empty string |
| `Js.Split` | src/controllers/user.controller.js:38 | `split` yields at least one piece, and no piece contains the separator |
| `Js.JoinSplit` | src/controllers/user.controller.js:38 | joining the pieces of `split` with the separator gives back the original string |
| `Js.SplitFirstPiece` | src/controllers/user.controller.js:38 | the first piece is the prefix before the first separator, or the whole string when there is none |
| `Js.SplitAfterPiece` | src/controllers/user.controller.js:38 | a separator-free prefix followed by the separator splits off as the first piece |
| `Js.SplitLastPiece` | src/utils/cloudinary.js:31 | the last piece is the separator-free suffix right after the last separator, and the whole string when there is no separator |
| `Js.SplitWithoutSeparator` | src/utils/cloudinary.js:31 | a string without the separator splits into itself alone |
| `Js.LeadingSpaces` | src/controllers/user.controller.js:32 | the length of the white-space run at the start of a string: every character before it is white space, the next one is not |
| `Js.TrailingSpaces` | src/controllers/user.controller.js:32 | the length of the white-space run at the end of a string: every character after the rest is white space, the one before it is not |
| `Js.Trim` | src/controllers/user.controller.js:32 | `s.trim()`: the part of `s` between its leading and trailing JavaScript white space; it neither starts nor ends with white space, and it is empty exactly when `s` is all white space |
| `TodoModel.ValidTodo` | src/models/todo.model.js:6-13 | the schema's `required` rules: title and content are non-empty |
| `TodoModel.NewTodo` | src/models/todo.model.js:4-24 | a todo document validates exactly when title and content are present and non-empty; isCompleted defaults to false; the owner is the given user id |
| `CategoryModel.ValidCategory` | src/models/category.model.js:5-8 | the schema's `required` rule: name is non-empty |
| `CategoryModel.NewCategory` | src/models/category.model.js:3-24 | a category document validates exactly when name is present and non-empty; description stays optional; todos starts as an empty list; the owner is the given user id |
| `Api.OwnedBy` | src/controllers/todo.controller.js:29 | a `$match` on owner keeps exactly the records of that owner, unchanged; getTodos and getCategories both use it |
| `TodoController.GetTodos` | src/controllers/todo.controller.js:27-70 | returns exactly the requester's todos with 200; a malformed requester id makes the ObjectId conversion throw |
| `TodoController.CheckAccess` | src/controllers/todo.controller.js:76-90 | access is granted exactly to the owner of an existing todo with a well-formed id; otherwise 400 for a malformed id, then 404 for an absent one, then 403 for a non-owner |
| `TodoController.GetTodo` | src/controllers/todo.controller.js:72-134 | succeeds with the stored todo exactly for its owner; every failure is the access check's 400, 404 or 403 |
| `TodoController.StoredTodoReachable` | src/controllers/todo.controller.js:27-134 | in a collection whose ids and owners are well formed, getTodo returns every stored todo to its owner and getTodos lists it |
| `TodoController.NotFoundBeforeForbidden` | src/controllers/todo.controller.js:80-90 | an absent, well-formed id gives 404 to every requester, before ownership is considered |
| `TodoController.TodoCollection.CreateTodo` | src/controllers/todo.controller.js:7-25 | a missing or empty title or content gives 400 and adds nothing; otherwise exactly one todo is added, owned by the requester, with isCompleted false, and returned with 201; other users' listings are unchanged |
| `TodoController.TodoCollection.UpdateTodo` | src/controllers/todo.controller.js:136-171 | a 400, 404 or 403 leaves the table unchanged; the owner's update replaces title, content and isCompleted of that todo only, and a later getTodo returns the new values |
| `TodoController.TodoCollection.DeleteTodo` | src/controllers/todo.controller.js:173-198 | a 400, 404 or 403 leaves the table unchanged; the owner's delete removes that todo only, after which getTodo on its id gives 404 to everyone |
| `CategoryController.OwnedMatch` | src/controllers/category.controller.js:114-117 | the filter `{ _id, owner }`: a category with that id exists and the requester owns it |
| `CategoryController.CheckIds` | src/controllers/category.controller.js:104-110 | the requester id is checked before the category id; each malformed one gives 400 with its own message |
| `CategoryController.GetCategories` | src/controllers/category.controller.js:36-98 | a malformed requester id gives 400; otherwise returns exactly the requester's categories with 200 |
| `CategoryController.GetCategoriesById` | src/controllers/category.controller.js:100-174 | succeeds exactly when a category matches both the id and the requester as owner; a non-owner gets 404, never 403 |
| `CategoryController.StoredCategoryReachable` | src/controllers/category.controller.js:36-174 | in a collection whose ids and owners are well formed, getCategoriesById returns every stored category to its owner and getCategories lists it |
| `CategoryController.HasTodosGuard` | src/controllers/category.controller.js:223 | `!todos.length === 0`: the boolean `!length` compared strictly with the number 0 |
| `CategoryController.HasTodosGuardNeverFires` | src/controllers/category.controller.js:223-225 | the guard `!todos.length === 0` is false for every todo list |
| `CategoryController.CategoryCollection.CreateCategory` | src/controllers/category.controller.js:7-34 | a missing or empty name gives 400 first, and a malformed requester id gives 400 next, with nothing inserted; otherwise one category is added with the requester as owner and an empty todo list, and the reply omits the todo list |
| `CategoryController.CategoryCollection.UpdateCategory` | src/controllers/category.controller.js:176-203 | name and description change only when id and owner both match; otherwise 400 or 404 and the table is unchanged |
| `CategoryController.CategoryCollection.DeleteCategory` | src/controllers/category.controller.js:205-230 | 400 for malformed ids and 404 for an absent one, with nothing changed; otherwise the category is removed whoever asks and whatever todos it lists, and no other category changes |
| `Cloudinary.UploadOnCloudinary` | src/utils/cloudinary.js:10-24 | a falsy local path gives null without an upload; otherwise the host's answer, where null stands for a failed upload |
| `Cloudinary.LastSegment` | src/utils/cloudinary.js:31 | the last `/`-segment is the `/`-free suffix of the url that follows its last `/`, and the whole url when it has no `/` |
| `Cloudinary.PublicId` | src/utils/cloudinary.js:31 | the public id contains no `/` and no `.`; it is the prefix of the last `/`-segment before its first `.`, and the whole segment when it has no `.` |
| `Cloudinary.PublicIdOfPlainName` | src/utils/cloudinary.js:31 | a url with neither `/` nor `.` is its own public id |
| `Cloudinary.PublicIdOfMediaUrl` | src/utils/cloudinary.js:31 | the public id of `folders/name.ext` is `name`, whatever the folders and the extension |
| `Cloudinary.LastSegmentAfterSlash` | src/utils/cloudinary.js:31 | the last segment of `folders/file` is `file` when `file` has no `/` |
| `Cloudinary.PublicIdIdempotent` | src/utils/cloudinary.js:31 | extracting a public id from a public id gives the same string |
| `Cloudinary.DeleteFromCloudinary` | src/utils/cloudinary.js:27-42 | a falsy url gives null without contacting the host; otherwise one delete request for exactly the url's public id, as an uploaded resource of the given type |
| `UserController.Username` | src/controllers/user.controller.js:38 | the username is the prefix of the email before its first `@`; it contains no `@`; it is the whole email when there is no `@` |
| `UserController.FullName` | src/controllers/user.controller.js:40 | the full name is fname, one space, then lname |
| `UserController.UsernameOfAddress` | src/controllers/user.controller.js:38 | the username of `local@domain` is `local` when `local` has no `@` |
| `UserController.FullNameSplitsBack` | src/controllers/user.controller.js:40 | the full name is fname, one space, then lname, so two one-word names split back out of it |
| `UserController.BlankTest` | src/controllers/user.controller.js:32 | the per-field test `(field === field?.trim()) === ""`: a boolean compared strictly with `""` |
| `UserController.AnyBlank` | src/controllers/user.controller.js:30-34 | some field of the list meets `BlankTest`, as `.some(...)` computes |
| `UserController.BlankCheckNeverRejects` | src/controllers/user.controller.js:30-36 | the blank-field check rejects no field list, because it compares a boolean with `""` |
| `UserController.EmailTaken` | src/controllers/user.controller.js:42-46 | `User.findOne({ email })` finds a user: some stored user has that email |
| `UserController.FindOneByEmail` | src/controllers/user.controller.js:42 | while emails are unique, a taken email belongs to exactly one stored user, the one findOne returns |
| `UserController.View` | src/controllers/user.controller.js:69 | the user as `select("-password")` returns it: every stored field but the password |
| `UserController.AvatarUrl` | src/controllers/user.controller.js:48-57 | the avatar step yields a url exactly when a file path was given and the upload answered with a truthy url; no file or a failed upload throws a TypeError; a missing url gives 500 |
| `UserController.UserCollection.Register` | src/controllers/user.controller.js:27-76 | a taken email gives 400 and a failed avatar step gives its error, with no user inserted in either case; otherwise one user is added with the derived username and full name and the uploaded url as avatar, and returned without its password with 201, as the only user with that email; ids stay well formed and emails unique |
| `UserController.UserCollection.GenerateAccessTokenAndRefreshToken` | src/controllers/user.controller.js:12-25 | for an existing user with a well-formed id the new refresh token replaces the stored one and both tokens are returned; for a malformed id or a missing user the helper fails with 500 "Error generating token" and nothing changes |

## Left out

- Login, logout, token refresh and password change are not defined in src/controllers/user.controller.js, which exports register only, so they are not modelled. Only the helper that stores a new refresh token is.
- Routing (src/routes/), the application and server set-up (src/app.js, src/index.js) and the database connection (src/db/dbConfig.js) are not modelled.
- The category routes import `addTodoToCategory` and `removeTodoFromCategory`, and the todo routes import `toggleTodo`. The controllers do not define these operations, so they are not modelled.
- The user route attaches the avatar with `upload.fields`, which fills `req.files`, while register reads `req.file`. The routes are not modelled, so the model takes the file path as register's input.
- The aggregation `$lookup`, `$unwind` and `$project` stages are not modelled. Only the `$match` filters are. Listings are returned as maps from id to record, so the store's natural order is not modelled. `$unwind` would also drop records whose owner has no user record; an authenticated requester always has one.
- The ObjectId test is a parameter, and one parameter stands for both `mongoose.isValidObjectId` and `mongoose.Types.ObjectId.isValid`. An id is identified with its canonical string form, so ObjectIds built from 12-byte strings or upper-case hex are not distinguished from their string.
- The authentication middleware (verifyJWT) is not part of this model. The requester id is taken as a string. If that middleware attached an ObjectId object instead, the strict comparison `todo.owner.toString() !== owner` would hold for every requester.
- `TodoController.TodoCollection.UpdateTodo` takes title, content and isCompleted as present values. The library's treatment of fields missing from the request is not modelled.
- `CategoryController.CategoryCollection.UpdateCategory` takes name and description as present values, for the same reason.
- `TodoController.TodoCollection.CreateTodo` takes title and content as absent or a string. Other JSON values that the body parsers (src/app.js:14-15) can deliver are not modelled: `!title` rejects 0 and false with 400, and a value such as 5 passes and is stored as the string "5" by the schema's cast.
- `CategoryController.CategoryCollection.CreateCategory` takes name and description as absent or a string. Other JSON values are not modelled, for the same reason as in createTodo.
- `UserController.UserCollection.Register` takes the four body fields as strings, so a missing, null or non-string field is not modelled. In the source:
  - a present field that is neither a string nor null throws a `TypeError` at `field?.trim()` (src/controllers/user.controller.js:32);
  - a missing or null email throws at `email.split` (src/controllers/user.controller.js:38);
  - a missing or null fname, lname or password passes both checks and reaches `User.create`, with "undefined" or "null" in the full name. The outcome there depends on the user schema.
- src/models/user.model.js is not part of this model, so neither are its password hashing, its unique indexes or its token methods.
- `UserController.UserCollection.GenerateAccessTokenAndRefreshToken` takes both signed tokens as parameters. JWT signing and expiry are not modelled, and neither is a failing save.
- `Cloudinary.DeleteFromCloudinary` takes the resource type as a required parameter. The default `type = "image"` (src/utils/cloudinary.js:27) is not modelled; a caller that omits the type is `DeleteFromCloudinary(url, "image")`.
- The media host's SDK calls, the removal of the local file and console logging are I/O. Their results are parameters or are not modelled.
- The response envelope (ApiResponse, ApiError, asyncHandler) is not part of this model. The status code of an `Uncaught` failure is decided by the error responder.
- Timestamps (`createdAt`, `updatedAt`) and the version key `__v` are not modelled.
- Each handler runs as one atomic step. The interleaving of concurrent requests at their `await` points is not modelled.
- The todo schema does not require `owner`, but every handler that creates a todo sets one, so `Todo.owner` is always present.
- JavaScript numbers are integers here. No handler test involves fractions or NaN.
