/**
 The task routes: one ordered in-memory collection of tasks and the six
 operations the HTTP routes perform on it (list, get by id, create, update,
 toggle completed, delete).

 Each route is modelled as a pure function from the current collection and
 the request's inputs to a `Step`: the collection after the request and the
 route's `Result`. A route that throws an `HttpError` leaves the collection
 as it was, as the TypeScript route handlers do (every throw happens before
 the first write). The fresh id and the current time, which the TypeScript
 route handlers obtain from a uuid generator and the system clock, are
 parameters.
 */
module TaskRoutes {
  import opened HttpErrors

  /** A field of the request body that may be missing. */
  datatype Option<+T> = None | Some(value: T)

  /** A clock reading; timestamps are compared, never parsed. */
  type Time = nat

  /** Lifecycle metadata stamped on every task. */
  datatype Meta = Meta(resourceType: string, created: Time, lastModified: Time, location: string)

  datatype Task = Task(id: string, title: string, completed: bool, meta: Meta)

  /** The collection after a route ran, and what the route answered. */
  datatype Step<+T> = Step(tasks: seq<Task>, result: Result<T>)

  /** The envelope of the list route. */
  datatype Page = Page(page: int, limit: int, total: int, totalPages: int, data: seq<Task>)

  const ResourceType: string := "Task"
  const LocationBase: string := "http://localhost:3000/tasks/"

  const DefaultPage: int := 1
  const DefaultLimit: int := 10
  const MaxLimit: int := 100

  /** Titles shorter than this are rejected; a title of exactly this length is accepted. */
  const MinTitleLength: int := 3

  const TitleMessage: string := "O campo Title deve ser preenchido e deve conter mais do que 3 caracteres"
  const NotFoundMessage: string := "Tarefa não encontrada"

  const TitleError: HttpError := HttpError(400, TitleMessage)
  const NotFoundError: HttpError := HttpError(404, NotFoundMessage)

  function Min(a: int, b: int): int { if a <= b then a else b }

  // ---------------------------------------------------------------------------
  // Helpers
  // ---------------------------------------------------------------------------

  /** Some task in the collection has this id. */
  predicate HasId(tasks: seq<Task>, id: string) {
    exists i :: 0 <= i < |tasks| && tasks[i].id == id
  }

  /**
   The check both the create and the update route make, written as the
   negation of their rejection test `!title || title.length < 3`: a missing
   title and the empty string are falsy, and a title shorter than three
   characters is refused. The falsy test adds nothing to the length test, so
   a title passes exactly when it is present and has at least three
   characters; a title of exactly three characters passes.
   */
  function ValidTitle(title: Option<string>): (ok: bool)
    ensures ok <==> title.Some? && |title.value| >= 3
  {
    !(title.None? || title.value == "" || |title.value| < MinTitleLength)
  }

  /** The locator of a task: the base URL followed by the id, from which the id can be read back. */
  function Location(id: string): (loc: string)
    ensures |loc| == |LocationBase| + |id|
    ensures loc[..|LocationBase|] == LocationBase && loc[|LocationBase|..] == id
  {
    LocationBase + id
  }

  /**
   The metadata of a task created at time `now`: resource type "Task",
   created and last modified at `now`, and located under the task's id.
   */
  function BuildMeta(id: string, now: Time): (m: Meta)
    ensures m.resourceType == "Task"
    ensures m.created == now && m.lastModified == now
    ensures m.location == "http://localhost:3000/tasks/" + id
  {
    Meta(ResourceType, now, now, Location(id))
  }

  /**
   The position of the first task with this id, or -1 when there is none,
   as `Array.prototype.findIndex` answers.
   */
  function FindTaskIndex(tasks: seq<Task>, id: string): (r: int)
    ensures -1 <= r < |tasks|
    ensures r == -1 <==> !HasId(tasks, id)
    ensures r >= 0 ==> tasks[r].id == id
    ensures r >= 0 ==> forall j :: 0 <= j < r ==> tasks[j].id != id
  {
    if |tasks| == 0 then -1
    else if tasks[0].id == id then 0
    else
      var k := FindTaskIndex(tasks[1..], id);
      if k == -1 then
        assert forall j :: 1 <= j < |tasks| ==> tasks[j] == tasks[1..][j - 1];
        -1
      else
        assert tasks[1..][k] == tasks[k + 1];
        assert forall j :: 1 <= j <= k ==> tasks[j] == tasks[1..][j - 1];
        k + 1
  }

  /** `after` is `before` with the task at `i` replaced by `t` and every other position kept. */
  predicate ReplacedAt(before: seq<Task>, after: seq<Task>, i: int, t: Task) {
    && 0 <= i < |before|
    && |after| == |before|
    && after[i] == t
    && forall j :: 0 <= j < |before| && j != i ==> after[j] == before[j]
  }

  /**
   `after` is the same task as `before` re-stamped at `now`: same id, and the
   metadata carried over except `lastModified`, which is `now`.
   */
  predicate Restamped(before: Task, after: Task, now: Time) {
    && after.id == before.id
    && after.meta.resourceType == before.meta.resourceType
    && after.meta.created == before.meta.created
    && after.meta.location == before.meta.location
    && after.meta.lastModified == now
  }


  /**
   `data` is the page of `tasks` that starts at `start` and holds at most
   `limit` tasks: the tasks at positions start, start+1, ... in order, as many
   as there are, up to `limit`.
   */
  predicate IsPage(tasks: seq<Task>, data: seq<Task>, start: int, limit: int) {
    && 0 <= start
    && |data| == (if start >= |tasks| then 0 else Min(limit, |tasks| - start))
    && forall i :: 0 <= i < |data| ==> data[i] == tasks[start + i]
  }

  /**
   `Array.prototype.slice(start, end)` for non-negative bounds: both bounds
   are cut to the length, and the result is empty when `end` does not lie
   past `start`. It is the page of `end - start` tasks that starts at `start`.
   */
  function Slice(tasks: seq<Task>, start: nat, end: nat): (r: seq<Task>)
    ensures end <= start ==> r == []
    ensures start <= end ==> IsPage(tasks, r, start, end - start)
  {
    var lo := Min(start, |tasks|);
    var hi := Min(end, |tasks|);
    if hi <= lo then [] else tasks[lo..hi]
  }

  /** Cutting out position `i` keeps the tasks before it, moves up the ones after it, and loses only `tasks[i]`. */
  lemma RemoveAt(tasks: seq<Task>, i: int)
    requires 0 <= i < |tasks|
    ensures var rest := tasks[..i] + tasks[i + 1..];
      && |rest| == |tasks| - 1
      && (forall j :: 0 <= j < i ==> rest[j] == tasks[j])
      && (forall j :: i <= j < |rest| ==> rest[j] == tasks[j + 1])
      && multiset(rest) + multiset{tasks[i]} == multiset(tasks)
  {
    assert tasks == tasks[..i] + [tasks[i]] + tasks[i + 1..];
  }

  /** `pages` is the ceiling of `total / limit`: the fewest pages of `limit` that hold `total` items. */
  predicate IsCeiling(pages: int, total: int, limit: int) {
    && pages * limit >= total
    && (pages == 0 || (pages - 1) * limit < total)
  }

  /** The number of pages needed for `n` items at `d` per page. */
  function CeilDiv(n: nat, d: int): (q: nat)
    requires d > 0
    ensures IsCeiling(q, n, d)
  {
    var q := (n + d - 1) / d;
    var r := (n + d - 1) % d;
    assert n + d - 1 == q * d + r && 0 <= r < d;
    assert (q - 1) * d == q * d - d;
    q
  }

  /** The position of the first task on page `page`. */
  function StartIndex(page: int, limit: int): nat
    requires page >= 1 && limit >= 1
  {
    (page - 1) * limit
  }

  // ---------------------------------------------------------------------------
  // Routes
  // ---------------------------------------------------------------------------

  /**
   GET /tasks. A page or limit that is not positive (missing, not a number,
   zero or negative) falls back to 1 and 10; a limit above 100 is cut to 100.
   The route never fails and never changes the collection.
   */
  function List(tasks: seq<Task>, requestedPage: int, requestedLimit: int): (s: Step<Page>)
    ensures s.tasks == tasks && s.result.Ok?
    ensures s.result.value.page >= 1
    ensures requestedPage > 0 ==> s.result.value.page == requestedPage
    ensures requestedPage <= 0 ==> s.result.value.page == DefaultPage
    ensures 1 <= s.result.value.limit <= MaxLimit
    ensures requestedLimit <= 0 ==> s.result.value.limit == DefaultLimit
    ensures 0 < requestedLimit <= MaxLimit ==> s.result.value.limit == requestedLimit
    ensures requestedLimit > MaxLimit ==> s.result.value.limit == MaxLimit
    ensures s.result.value.total == |tasks|
    ensures IsCeiling(s.result.value.totalPages, |tasks|, s.result.value.limit)
    ensures IsPage(tasks, s.result.value.data, (s.result.value.page - 1) * s.result.value.limit, s.result.value.limit)
  {
    var page := if requestedPage > 0 then requestedPage else DefaultPage;
    var limit := if requestedLimit > 0 then requestedLimit else DefaultLimit;
    var limit := if limit > MaxLimit then MaxLimit else limit;
    var startIndex := StartIndex(page, limit);
    assert startIndex == (page - 1) * limit;
    var endIndex := startIndex + limit;
    var data := Slice(tasks, startIndex, endIndex);
    Step(tasks, Ok(Page(page, limit, |tasks|, CeilDiv(|tasks|, limit), data)))
  }

  /** GET /tasks/:id. Answers the task with that id, or 404. */
  function GetById(tasks: seq<Task>, id: string): (s: Step<Task>)
    ensures s.tasks == tasks
    ensures s.result.Ok? <==> HasId(tasks, id)
    ensures s.result.Ok? ==> s.result.value.id == id && s.result.value in tasks
    ensures s.result.Ok? ==>
      exists k :: 0 <= k < |tasks| && tasks[k] == s.result.value && forall j :: 0 <= j < k ==> tasks[j].id != id
    ensures s.result.Err? ==> s.result.error == NotFoundError
  {
    var i := FindTaskIndex(tasks, id);
    if i == -1 then Step(tasks, Err(NotFoundError))
    else Step(tasks, Ok(tasks[i]))
  }

  /**
   POST /tasks. Validates the title, then appends a new, not completed task
   with fresh metadata under the id supplied for it.
   */
  function Create(tasks: seq<Task>, title: Option<string>, id: string, now: Time): (s: Step<Task>)
    ensures !ValidTitle(title) ==> s == Step(tasks, Err(TitleError))
    ensures ValidTitle(title) ==> s.result.Ok?
    ensures s.result.Ok? ==>
      && |s.tasks| == |tasks| + 1
      && s.tasks[..|tasks|] == tasks
      && s.tasks[|tasks|] == s.result.value
    ensures s.result.Ok? ==>
      && s.result.value.id == id
      && s.result.value.title == title.value
      && !s.result.value.completed
      && s.result.value.meta.resourceType == "Task"
      && s.result.value.meta.created == s.result.value.meta.lastModified == now
      && s.result.value.meta.location == "http://localhost:3000/tasks/" + id
  {
    if !ValidTitle(title) then Step(tasks, Err(TitleError))
    else
      var task := Task(id, title.value, false, BuildMeta(id, now));
      assert (tasks + [task])[..|tasks|] == tasks;
      Step(tasks + [task], Ok(task))
  }

  /**
   PUT /tasks/:id. The id is looked up first, so an unknown id answers 404
   whatever the title; then the title is validated. The stored task is
   replaced by a new record that keeps its id, its completed flag and its
   metadata, takes the new title, and is stamped with the current time.
   */
  function Update(tasks: seq<Task>, id: string, title: Option<string>, now: Time): (s: Step<Task>)
    ensures !HasId(tasks, id) ==> s == Step(tasks, Err(NotFoundError))
    ensures HasId(tasks, id) && !ValidTitle(title) ==> s == Step(tasks, Err(TitleError))
    ensures HasId(tasks, id) && ValidTitle(title) ==> s.result.Ok?
    ensures s.result.Ok? ==>
      var i := FindTaskIndex(tasks, id);
      && 0 <= i
      && ReplacedAt(tasks, s.tasks, i, s.result.value)
      && Restamped(tasks[i], s.result.value, now)
      && s.result.value.completed == tasks[i].completed
      && s.result.value.title == title.value
  {
    var index := FindTaskIndex(tasks, id);
    if index == -1 then Step(tasks, Err(NotFoundError))
    else if !ValidTitle(title) then Step(tasks, Err(TitleError))
    else
      var existing := tasks[index];
      var updated := Task(existing.id, title.value, existing.completed, existing.meta.(lastModified := now));
      Step(tasks[index := updated], Ok(updated))
  }

  /**
   PATCH /tasks/:id/completed. Flips the completed flag of the task with that
   id and stamps it with the current time; nothing else changes.
   */
  function ToggleCompleted(tasks: seq<Task>, id: string, now: Time): (s: Step<Task>)
    ensures !HasId(tasks, id) ==> s == Step(tasks, Err(NotFoundError))
    ensures HasId(tasks, id) ==> s.result.Ok?
    ensures s.result.Ok? ==>
      var i := FindTaskIndex(tasks, id);
      && 0 <= i
      && ReplacedAt(tasks, s.tasks, i, s.result.value)
      && Restamped(tasks[i], s.result.value, now)
      && s.result.value.completed == !tasks[i].completed
      && s.result.value.title == tasks[i].title
  {
    var index := FindTaskIndex(tasks, id);
    if index == -1 then Step(tasks, Err(NotFoundError))
    else
      var task := tasks[index];
      var toggled := task.(completed := !task.completed, meta := task.meta.(lastModified := now));
      Step(tasks[index := toggled], Ok(toggled))
  }

  /**
   DELETE /tasks/:id. Removes the first task with that id; the tasks before
   it keep their positions and the tasks after it move up by one.
   */
  function Delete(tasks: seq<Task>, id: string): (s: Step<()>)
    ensures !HasId(tasks, id) ==> s == Step(tasks, Err(NotFoundError))
    ensures HasId(tasks, id) ==> s.result.Ok?
    ensures s.result.Ok? ==>
      var i := FindTaskIndex(tasks, id);
      && 0 <= i
      && |s.tasks| == |tasks| - 1
      && (forall j :: 0 <= j < i ==> s.tasks[j] == tasks[j])
      && (forall j :: i <= j < |s.tasks| ==> s.tasks[j] == tasks[j + 1])
      && multiset(s.tasks) + multiset{tasks[i]} == multiset(tasks)
  {
    var index := FindTaskIndex(tasks, id);
    if index == -1 then Step(tasks, Err(NotFoundError))
    else
      RemoveAt(tasks, index);
      Step(tasks[..index] + tasks[index + 1..], Ok(()))
  }
}
