# Task list API: a Dafny model of the task routes

The to-do-list API keeps its tasks in one ordered in-memory array. It serves
six routes over that array: list with pagination, get by id, create, update,
toggle `completed`, and delete. Every failure is an `HttpError(statusCode,
message)`. An error-handling middleware turns each error into a
`{message, statusCode}` response.

This project models those routes as pure functions over `seq<Task>`. Each
route takes the current collection and the request's inputs. It returns a
`Step`: the collection after the request, plus `Ok(value)` or
`Err(HttpError)`. A route that throws in the source returns `Err` here and
leaves the collection unchanged. The source always throws before it writes.

Modules:

- `HttpErrors` (`http_error.dfy`): the `HttpError` record and the `Result`
  type the routes return.
- `ErrorHandler` (`error_handler.dfy`): the middleware's mapping from a
  thrown error to a status and body.
- `TaskRoutes` (`task_routes.dfy`): the `Task` and `Meta` records,
  `buildMeta`, `findTaskIndex` and the six routes.
- `TaskProperties` (`task_properties.dfy`): properties that relate routes to
  one another. These cover the collection invariant, lookups after create
  and delete, toggle and update round trips, pagination, and the path from a
  route error to the client response.

Outside inputs are parameters:

- the fresh uuid is `id`;
- the current time is `now`, a `nat`;
- the `page` and `limit` query values are integers.

The error message asks for more than three characters, but the code rejects
only `!title || title.length < 3`, so a title of exactly three characters is
accepted. The model follows the code. `ThreeCharacterTitleAccepted` states
this outcome.

## Model

| member | source | states |
|---|---|---|
| ErrorHandler.HandleError | src/middlewares/errorHandler.ts:12-23 | an `HttpError` is answered with its own status and message; any other error gets status 500 and "Internal Server Error"; in both cases the body's `statusCode` equals the response status |
| ErrorHandler.FallbackLeaksNothing | src/middlewares/errorHandler.ts:19-23 | any two non-`HttpError` errors get the identical response, so nothing about the error reaches the client |
| ErrorHandler.HttpErrorRoundTrip | src/middlewares/errorHandler.ts:12-16 | the original `HttpError` can be read back from the status and message of its response |
| TaskRoutes.ValidTitle | src/routes/task.ts:204 | a title passes exactly when it is present and has at least three characters; the falsy test on a missing or empty title adds nothing beyond the length test; the update route repeats the same check at line 265 |
| TaskRoutes.BuildMeta | src/routes/task.ts:21-29 | new metadata has resource type "Task", `created == lastModified == now`, and location `http://localhost:3000/tasks/` followed by the id |
| TaskRoutes.Location | src/routes/task.ts:27 | the locator starts with `http://localhost:3000/tasks/` and the id can be read back from the rest |
| TaskRoutes.FindTaskIndex | src/routes/task.ts:31-33 | returns -1 exactly when no task has the id; otherwise returns a position holding the id with no earlier position holding it |
| TaskRoutes.CeilDiv | src/routes/task.ts:114 | the page count is the least `q` with `q * limit >= total`; it is 0 for an empty collection |
| TaskRoutes.Slice | src/routes/task.ts:108 | `slice(start, end)` gives the tasks from position `start` in order, up to `end - start` of them, and nothing when `start` is past the end or `end` is not past `start` |
| TaskRoutes.RemoveAt | src/routes/task.ts:354 | `splice(i, 1)` keeps the tasks before `i`, moves later tasks up one place and loses only `tasks[i]` (as a multiset) |
| TaskRoutes.List | src/routes/task.ts:95-120 | never fails and never changes the collection; page is at least 1 and defaults to 1; limit is between 1 and 100, defaults to 10 and is cut to 100; total is the collection size; totalPages is the ceiling of total/limit; data is the page starting at `(page-1)*limit` |
| TaskRoutes.GetById | src/routes/task.ts:165-177 | succeeds exactly when some task has the id and returns the first such task unchanged; otherwise 404 "Tarefa não encontrada"; never changes the collection |
| TaskRoutes.Create | src/routes/task.ts:199-224 | a missing or short title gives 400 with the fixed message and no change; otherwise appends exactly one task last, earlier tasks untouched, with the given id and title, `completed` false, resource type "Task", `created == lastModified == now`, and location `http://localhost:3000/tasks/<id>` |
| TaskRoutes.Update | src/routes/task.ts:254-289 | an unknown id gives 404 whatever the title; a known id with a bad title gives 400; both leave the collection unchanged; otherwise only the matching position changes, keeping id, `completed`, `created`, resource type and location, taking the new title and `lastModified == now` |
| TaskRoutes.ToggleCompleted | src/routes/task.ts:310-325 | an unknown id gives 404 with no change; otherwise only the matching task changes: `completed` flips, `lastModified` becomes `now`, everything else is kept |
| TaskRoutes.Delete | src/routes/task.ts:346-360 | an unknown id gives 404 with no change; otherwise the first task with the id is removed, earlier tasks keep their positions and later ones move up one, in order |
| TaskProperties.LocationInjective | src/routes/task.ts:27 | different ids never share a locator |
| TaskProperties.CreatePreservesUniqueIds | src/routes/task.ts:210-218 | when the new id is not in use yet, create leaves no two tasks sharing an id |
| TaskProperties.UpdatePreservesUniqueIds | src/routes/task.ts:271-283 | update never changes an id, so unique ids stay unique, with no assumption about the clock |
| TaskProperties.TogglePreservesUniqueIds | src/routes/task.ts:313-319 | toggle never changes an id, so unique ids stay unique, with no assumption about the clock |
| TaskProperties.DeletePreservesUniqueIds | src/routes/task.ts:349-354 | delete leaves no two remaining tasks sharing an id |
| TaskProperties.CreatePreservesInvariant | src/routes/task.ts:204-218 | when the new id is not in use yet, create keeps the invariant: unique ids, valid titles, type "Task", locator from own id, `created <= lastModified` |
| TaskProperties.ReplacePreservesInvariant | src/routes/task.ts:283 | putting a well-formed task with the same id in place of one task keeps the invariant |
| TaskProperties.UpdatePreservesInvariant | src/routes/task.ts:262-283 | update keeps the invariant provided the clock has not gone backwards |
| TaskProperties.TogglePreservesInvariant | src/routes/task.ts:313-319 | toggle keeps the invariant provided the clock has not gone backwards |
| TaskProperties.DeletePreservesInvariant | src/routes/task.ts:349-354 | delete keeps the invariant |
| TaskProperties.SameIdsSameIndex | src/routes/task.ts:31-33 | the id lookup depends only on the ids at each position |
| TaskProperties.GetByIdFindsStoredTask | src/routes/task.ts:165-173 | with unique ids, reading a stored task's id returns exactly that task |
| TaskProperties.CreateThenGet | src/routes/task.ts:168-173 | a task created under a fresh id is read back unchanged by that id |
| TaskProperties.DeleteIsTerminal | src/routes/task.ts:346-360 | with unique ids, after a delete no task has the id, and reading, updating, toggling or deleting it again all give 404 with no change |
| TaskProperties.DeleteKeepsOtherIds | src/routes/task.ts:349-354 | deleting one id leaves every other id exactly as present as before |
| TaskProperties.RemovalKeepsOtherIds | src/routes/task.ts:354 | cutting out the one position that holds `id` neither adds nor loses any other id |
| TaskProperties.ToggleTwiceRestores | src/routes/task.ts:318-319 | after two toggles at times `first` and `second`, the task's `completed` equals its original value and the collection equals the original with only that task's `lastModified` set to `second` |
| TaskProperties.UpdateIdempotent | src/routes/task.ts:271-283 | repeating an update with the same title and time gives the same collection and answer |
| TaskProperties.PageNonEmptyIffInRange | src/routes/task.ts:105-114 | a page has data exactly when its number is at most `totalPages` |
| TaskProperties.TaskOnItsPage | src/routes/task.ts:105-108 | with `limit` per page, the task at position `i` is entry `i % limit` of page `i / limit + 1` |
| TaskProperties.EntryOfPage | src/routes/task.ts:105-108 | entry `r` of page `page` is the task at position `(page - 1) * limit + r` whenever that position exists |
| TaskProperties.ThreeTasksTwoPerPage | src/routes/task.ts:105-116 | three tasks at two per page: page 1 holds the first two, page 2 the third; total 3, totalPages 2 |
| TaskProperties.LimitIsClamped | src/routes/task.ts:99-103 | a requested limit of 1000 comes back as 100, and the page holds at most 100 tasks |
| TaskProperties.ThreeCharacterTitleAccepted | src/routes/task.ts:204-208 | a 3-character title is accepted; a 2-character or missing title gets 400 with the fixed message |
| TaskProperties.RouteErrorsReachClient | src/middlewares/errorHandler.ts:12-16 | every error a route returns is a 400 or a 404, and the error handler answers it with its own status and message |
| TaskProperties.UnknownIdResponse | src/routes/task.ts:171 | an unknown id reaches the client as status 404 with body `{message: "Tarefa não encontrada", statusCode: 404}` |
| TaskProperties.Lifecycle | src/routes/task.ts:199-360 | create under a fresh id, read back, retitle later, delete: each step succeeds, the retitled task's `lastModified` is strictly after its `created`, and the deleted id then gives 404 |

## Left out

- Express plumbing is not modelled: the router, `req`/`res`/`next`, JSON serialisation, and the success statuses 200, 201 and 204. Each route is a function from (collection, inputs) to (collection, result).
- `src/app.ts` is not part of this model. It holds helmet, CORS, rate limiting, the Swagger setup, the root and `/health` routes and the Content-Type middleware.
- uuid generation is not modelled. `Create` takes the id as a parameter and does not require it to be fresh, because the source does not check this. A fresh id is assumed by `CreatePreservesUniqueIds`, `CreatePreservesInvariant`, `CreateThenGet` and `Lifecycle`; the lookup and invariant lemmas assume `UniqueIds`.
- ISO-8601 timestamps are not modelled. Time is an abstract `nat` supplied by the caller. The source never enforces `created <= lastModified`; the invariant lemmas assume a clock that does not go backwards (`ClockNotBehind`).
- `Number(...)` coercion of query strings is not modelled: no NaN, no fractional page or limit, no floating-point `Math.ceil`. `page` and `limit` are integers, and a value that is not positive (which covers absent and NaN) falls back to the default.
- TaskRoutes.List: with the clamped limit, a huge `page` gives a huge `startIndex`. JavaScript floating point would lose precision there, while the model's unbounded integers do not.
- `console.error` logging in the error handler is I/O.
- Non-string `title` values (numbers, arrays, objects) are not modelled. `title` is `Option<string>`.
- TaskRoutes.ValidTitle counts Unicode scalar values. JavaScript's `length` counts UTF-16 code units, so the two differ for characters outside the Basic Multilingual Plane.
- The toggle route mutates the object that `find` returns, in place. The model replaces the element at `findIndex`'s position; both reach the first task with the id.
- Concurrency is not modelled: the source runs each handler to completion on one thread.
