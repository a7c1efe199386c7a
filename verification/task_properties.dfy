/**
 Properties that relate several task routes to one another: the invariant
 every route keeps on the collection, what a later lookup sees after a
 create or a delete, the toggle round trip, how pages cover the collection,
 and how route errors reach the client through the error handler.
 */
module TaskProperties {
  import opened HttpErrors
  import opened TaskRoutes
  import opened ErrorHandler

  // ---------------------------------------------------------------------------
  // The collection invariant
  // ---------------------------------------------------------------------------

  /** No two tasks share an id. */
  predicate UniqueIds(tasks: seq<Task>) {
    forall i, j :: 0 <= i < j < |tasks| ==> tasks[i].id != tasks[j].id
  }

  /**
   What the routes guarantee of every stored task: a title that passed the
   title check, the resource type, a locator derived from its own id, and a
   creation time no later than its last modification.
   */
  predicate WellFormed(t: Task) {
    && ValidTitle(Some(t.title))
    && t.meta.resourceType == ResourceType
    && t.meta.location == Location(t.id)
    && t.meta.created <= t.meta.lastModified
  }

  predicate StoreInvariant(tasks: seq<Task>) {
    && UniqueIds(tasks)
    && forall i :: 0 <= i < |tasks| ==> WellFormed(tasks[i])
  }

  /**
   The clock has not gone backwards: no stored task was modified after `now`.
   The TypeScript route handlers read the system clock and do not check
   this; it is the
   assumption under which `created <= lastModified` survives an update.
   */
  predicate ClockNotBehind(tasks: seq<Task>, now: Time) {
    forall i :: 0 <= i < |tasks| ==> tasks[i].meta.lastModified <= now
  }

  /** Two locators are equal only for equal ids, so a locator names one task. */
  lemma LocationInjective(a: string, b: string)
    requires Location(a) == Location(b)
    ensures a == b
  {
    assert a == Location(a)[|LocationBase|..];
  }

  /** Create keeps ids unique when the id it is given is not in use yet. */
  lemma CreatePreservesUniqueIds(tasks: seq<Task>, title: Option<string>, id: string, now: Time)
    requires UniqueIds(tasks) && !HasId(tasks, id)
    ensures UniqueIds(Create(tasks, title, id, now).tasks)
  {
    var s := Create(tasks, title, id, now);
    if s.result.Ok? {
      var n := |tasks|;
      forall i, j | 0 <= i < j < |s.tasks|
        ensures s.tasks[i].id != s.tasks[j].id
      {
        assert s.tasks[i] == s.tasks[..n][i];
        if j < n {
          assert s.tasks[j] == s.tasks[..n][j];
        }
      }
    }
  }

  /** Update never changes an id, so it keeps ids unique whatever the clock says. */
  lemma UpdatePreservesUniqueIds(tasks: seq<Task>, id: string, title: Option<string>, now: Time)
    requires UniqueIds(tasks)
    ensures UniqueIds(Update(tasks, id, title, now).tasks)
  {
    var s := Update(tasks, id, title, now);
    forall j | 0 <= j < |s.tasks|
      ensures s.tasks[j].id == tasks[j].id
    {
    }
  }

  /** Toggle never changes an id, so it keeps ids unique whatever the clock says. */
  lemma TogglePreservesUniqueIds(tasks: seq<Task>, id: string, now: Time)
    requires UniqueIds(tasks)
    ensures UniqueIds(ToggleCompleted(tasks, id, now).tasks)
  {
    var s := ToggleCompleted(tasks, id, now);
    forall j | 0 <= j < |s.tasks|
      ensures s.tasks[j].id == tasks[j].id
    {
    }
  }

  /** Removing one task keeps the remaining ids unique. */
  lemma DeletePreservesUniqueIds(tasks: seq<Task>, id: string)
    requires UniqueIds(tasks)
    ensures UniqueIds(Delete(tasks, id).tasks)
  {
    var s := Delete(tasks, id);
    if s.result.Ok? {
      var k := FindTaskIndex(tasks, id);
      forall i, j | 0 <= i < j < |s.tasks|
        ensures s.tasks[i].id != s.tasks[j].id
      {
        var i' := if i < k then i else i + 1;
        var j' := if j < k then j else j + 1;
        assert s.tasks[i] == tasks[i'] && s.tasks[j] == tasks[j'] && i' < j';
      }
    }
  }

  /** Create keeps the invariant when the id it is given is not in use yet. */
  lemma CreatePreservesInvariant(tasks: seq<Task>, title: Option<string>, id: string, now: Time)
    requires StoreInvariant(tasks)
    requires !HasId(tasks, id)
    ensures StoreInvariant(Create(tasks, title, id, now).tasks)
  {
    CreatePreservesUniqueIds(tasks, title, id, now);
    var s := Create(tasks, title, id, now);
    if s.result.Ok? {
      var n := |tasks|;
      forall i | 0 <= i < |s.tasks|
        ensures WellFormed(s.tasks[i])
      {
        if i < n {
          assert s.tasks[i] == s.tasks[..n][i];
        }
      }
    }
  }

  /** Replacing one task by a well-formed task with the same id keeps the invariant. */
  lemma ReplacePreservesInvariant(tasks: seq<Task>, after: seq<Task>, i: int, t: Task)
    requires StoreInvariant(tasks)
    requires ReplacedAt(tasks, after, i, t)
    requires t.id == tasks[i].id && WellFormed(t)
    ensures StoreInvariant(after)
  {
    forall j | 0 <= j < |after|
      ensures after[j].id == tasks[j].id && WellFormed(after[j])
    {
    }
  }

  /** Update keeps the invariant as long as the clock has not gone backwards. */
  lemma UpdatePreservesInvariant(tasks: seq<Task>, id: string, title: Option<string>, now: Time)
    requires StoreInvariant(tasks) && ClockNotBehind(tasks, now)
    ensures StoreInvariant(Update(tasks, id, title, now).tasks)
  {
    var s := Update(tasks, id, title, now);
    if s.result.Ok? {
      var i := FindTaskIndex(tasks, id);
      assert WellFormed(tasks[i]);
      ReplacePreservesInvariant(tasks, s.tasks, i, s.result.value);
    }
  }

  /** Toggle keeps the invariant as long as the clock has not gone backwards. */
  lemma TogglePreservesInvariant(tasks: seq<Task>, id: string, now: Time)
    requires StoreInvariant(tasks) && ClockNotBehind(tasks, now)
    ensures StoreInvariant(ToggleCompleted(tasks, id, now).tasks)
  {
    var s := ToggleCompleted(tasks, id, now);
    if s.result.Ok? {
      var i := FindTaskIndex(tasks, id);
      assert WellFormed(tasks[i]);
      ReplacePreservesInvariant(tasks, s.tasks, i, s.result.value);
    }
  }

  /** Delete keeps the invariant. */
  lemma DeletePreservesInvariant(tasks: seq<Task>, id: string)
    requires StoreInvariant(tasks)
    ensures StoreInvariant(Delete(tasks, id).tasks)
  {
    DeletePreservesUniqueIds(tasks, id);
    var s := Delete(tasks, id);
    if s.result.Ok? {
      var k := FindTaskIndex(tasks, id);
      forall i | 0 <= i < |s.tasks|
        ensures WellFormed(s.tasks[i])
      {
        assert s.tasks[i] == tasks[if i < k then i else i + 1];
      }
    }
  }

  // ---------------------------------------------------------------------------
  // Lookups
  // ---------------------------------------------------------------------------

  /** The lookup sees only ids: two collections with the same ids in the same places answer alike. */
  lemma SameIdsSameIndex(a: seq<Task>, b: seq<Task>, id: string)
    requires |a| == |b|
    requires forall k :: 0 <= k < |a| ==> a[k].id == b[k].id
    ensures FindTaskIndex(a, id) == FindTaskIndex(b, id)
  {
  }

  /** With unique ids, looking up a stored task's id finds that task. */
  lemma GetByIdFindsStoredTask(tasks: seq<Task>, i: int)
    requires UniqueIds(tasks) && 0 <= i < |tasks|
    ensures GetById(tasks, tasks[i].id).result == Ok(tasks[i])
  {
    var k := FindTaskIndex(tasks, tasks[i].id);
    assert k <= i;
    assert k == i;
  }

  /** A task that was just created can be read back unchanged by its id. */
  lemma CreateThenGet(tasks: seq<Task>, title: Option<string>, id: string, now: Time)
    requires !HasId(tasks, id) && ValidTitle(title)
    ensures var s := Create(tasks, title, id, now);
      GetById(s.tasks, id).result == s.result
  {
  }

  /**
   Deletion is terminal: once the task with `id` is deleted from a collection
   with unique ids, no task has that id, so reading, updating, toggling or
   deleting it again all answer 404 and change nothing.
   */
  lemma DeleteIsTerminal(tasks: seq<Task>, id: string, title: Option<string>, now: Time)
    requires UniqueIds(tasks) && HasId(tasks, id)
    ensures var after := Delete(tasks, id).tasks;
      && !HasId(after, id)
      && GetById(after, id) == Step(after, Err(NotFoundError))
      && Update(after, id, title, now) == Step(after, Err(NotFoundError))
      && ToggleCompleted(after, id, now) == Step(after, Err(NotFoundError))
      && Delete(after, id) == Step(after, Err(NotFoundError))
  {
  }

  /** Deleting one id leaves every other id exactly as present as it was. */
  lemma DeleteKeepsOtherIds(tasks: seq<Task>, id: string, other: string)
    requires other != id
    ensures HasId(Delete(tasks, id).tasks, other) <==> HasId(tasks, other)
  {
    var s := Delete(tasks, id);
    if s.result.Ok? {
      RemovalKeepsOtherIds(tasks, s.tasks, FindTaskIndex(tasks, id), id, other);
    }
  }

  /** Cutting out the one position that holds `id` neither adds nor loses any other id. */
  lemma RemovalKeepsOtherIds(tasks: seq<Task>, rest: seq<Task>, k: int, id: string, other: string)
    requires 0 <= k < |tasks| && tasks[k].id == id && other != id
    requires |rest| == |tasks| - 1
    requires forall j :: 0 <= j < k ==> rest[j] == tasks[j]
    requires forall j :: k <= j < |rest| ==> rest[j] == tasks[j + 1]
    ensures HasId(rest, other) <==> HasId(tasks, other)
  {
    if HasId(tasks, other) {
      var j :| 0 <= j < |tasks| && tasks[j].id == other;
      var j' := if j < k then j else j - 1;
      assert rest[j'] == tasks[j];
    }
    if HasId(rest, other) {
      var j :| 0 <= j < |rest| && rest[j].id == other;
      var j' := if j < k then j else j + 1;
      assert rest[j] == tasks[j'];
    }
  }

  // ---------------------------------------------------------------------------
  // Toggle and update round trips
  // ---------------------------------------------------------------------------

  /**
   Toggling twice gives back the original flag: the collection is the one
   before the first toggle, except that the task carries the time of the
   second toggle as its last modification.
   */
  lemma ToggleTwiceRestores(tasks: seq<Task>, id: string, first: Time, second: Time)
    requires HasId(tasks, id)
    ensures var once := ToggleCompleted(tasks, id, first);
      var twice := ToggleCompleted(once.tasks, id, second);
      var i := FindTaskIndex(tasks, id);
      && twice.result.Ok?
      && twice.result.value.completed == tasks[i].completed
      && twice.tasks == tasks[i := tasks[i].(meta := tasks[i].meta.(lastModified := second))]
  {
    var once := ToggleCompleted(tasks, id, first);
    SameIdsSameIndex(tasks, once.tasks, id);
  }

  /** Repeating an update with the same title at the same time changes nothing more. */
  lemma UpdateIdempotent(tasks: seq<Task>, id: string, title: Option<string>, now: Time)
    ensures var once := Update(tasks, id, title, now);
      Update(once.tasks, id, title, now) == once
  {
    var once := Update(tasks, id, title, now);
    if once.result.Ok? {
      SameIdsSameIndex(tasks, once.tasks, id);
    }
  }

  // ---------------------------------------------------------------------------
  // Pagination
  // ---------------------------------------------------------------------------

  lemma MulMonotone(a: int, b: int, c: int)
    requires a <= b && c >= 0
    ensures a * c <= b * c
  {
    assert b * c - a * c == (b - a) * c;
  }

  /**
   A page has data exactly when its number is at most the page count: pages
   1 to `totalPages` are never empty, and every page after them is.
   */
  lemma PageNonEmptyIffInRange(tasks: seq<Task>, page: int, limit: int)
    ensures var p := List(tasks, page, limit).result.value;
      |p.data| > 0 <==> p.page <= p.totalPages
  {
    var p := List(tasks, page, limit).result.value;
    if p.page <= p.totalPages {
      MulMonotone(p.page - 1, p.totalPages - 1, p.limit);
    } else {
      MulMonotone(p.totalPages, p.page - 1, p.limit);
    }
  }

  /**
   Entry `r` of page `page` is the task at position `(page - 1) * limit + r`,
   whenever that position exists.
   */
  lemma EntryOfPage(tasks: seq<Task>, page: int, limit: int, r: int)
    requires page >= 1 && 0 < limit <= MaxLimit && 0 <= r < limit
    requires (page - 1) * limit + r < |tasks|
    ensures var p := List(tasks, page, limit).result.value;
      r < |p.data| && p.data[r] == tasks[(page - 1) * limit + r]
  {
    var p := List(tasks, page, limit).result.value;
    assert p.page == page && p.limit == limit;
  }

  /**
   Every task is on exactly the page its position says: with `limit` tasks
   per page, the task at position `i` is entry `i % limit` of page
   `i / limit + 1`.
   */
  lemma TaskOnItsPage(tasks: seq<Task>, i: int, limit: int)
    requires 0 <= i < |tasks| && 0 < limit <= MaxLimit
    ensures var p := List(tasks, i / limit + 1, limit).result.value;
      i % limit < |p.data| && p.data[i % limit] == tasks[i]
  {
    var q := i / limit;
    DivModSplit(i, limit);
    assert (q + 1 - 1) * limit == q * limit;
    EntryOfPage(tasks, q + 1, limit, i % limit);
  }

  /** Euclidean division splits `i` into whole pages of `limit` and a remainder. */
  lemma DivModSplit(i: nat, limit: int)
    requires limit > 0
    ensures (i / limit) * limit + i % limit == i && 0 <= i % limit < limit
  {
  }

  /**
   Three tasks at two per page: the first page holds two, the second one,
   and there are two pages in all.
   */
  lemma ThreeTasksTwoPerPage(a: Task, b: Task, c: Task)
    ensures var first := List([a, b, c], 1, 2).result.value;
      && first.total == 3 && first.totalPages == 2 && first.data == [a, b]
    ensures List([a, b, c], 2, 2).result.value.data == [c]
  {
    var first := List([a, b, c], 1, 2).result.value;
    assert |first.data| == 2;
    var second := List([a, b, c], 2, 2).result.value;
    assert |second.data| == 1;
  }

  /** A limit of 1000 is cut to 100, and so is the page it returns. */
  lemma LimitIsClamped(tasks: seq<Task>, page: int)
    ensures var p := List(tasks, page, 1000).result.value;
      p.limit == 100 && |p.data| <= 100
  {
  }

  // ---------------------------------------------------------------------------
  // Title rule and errors at the boundary
  // ---------------------------------------------------------------------------

  /**
   The title check accepts a title of exactly three characters, though its
   message asks for more than three; two characters or a missing title are
   refused with that message.
   */
  lemma ThreeCharacterTitleAccepted(tasks: seq<Task>, id: string, now: Time)
    ensures Create(tasks, Some("abc"), id, now).result.Ok?
    ensures Create(tasks, Some("ab"), id, now).result == Err(HttpError(400, "O campo Title deve ser preenchido e deve conter mais do que 3 caracteres"))
    ensures Create(tasks, None, id, now).result == Err(HttpError(400, "O campo Title deve ser preenchido e deve conter mais do que 3 caracteres"))
  {
  }

  /**
   The routes only ever throw a 400 or a 404, and the error handler passes
   both through to the client unchanged.
   */
  lemma RouteErrorsReachClient(tasks: seq<Task>, id: string, title: Option<string>, now: Time)
    ensures forall e: HttpError ::
      (|| Create(tasks, title, id, now).result == Err(e)
       || GetById(tasks, id).result == Err(e)
       || Update(tasks, id, title, now).result == Err(e)
       || ToggleCompleted(tasks, id, now).result == Err(e)
       || Delete(tasks, id).result == Err(e))
      ==> (e.statusCode == 400 || e.statusCode == 404)
          && HandleError(Http(e)) == Response(e.statusCode, ErrorBody(e.message, e.statusCode))
  {
  }

  /** An unknown id is answered 404 "Tarefa não encontrada" by the error handler. */
  lemma UnknownIdResponse(tasks: seq<Task>, id: string)
    requires !HasId(tasks, id)
    ensures HandleError(Http(GetById(tasks, id).result.error)) == Response(404, ErrorBody("Tarefa não encontrada", 404))
  {
  }

  // ---------------------------------------------------------------------------
  // A whole lifecycle
  // ---------------------------------------------------------------------------

  /**
   Create a task, read it back, retitle it later, delete it: each step
   succeeds with what the previous one left, the retitled task is stamped
   strictly after its creation, and the deleted id is not found any more.
   */
  lemma Lifecycle(tasks: seq<Task>, id: string, created: Time, updated: Time)
    requires UniqueIds(tasks) && !HasId(tasks, id) && created < updated
    ensures var c := Create(tasks, Some("Minha nova task"), id, created);
      var u := Update(c.tasks, id, Some("Atualizada"), updated);
      var d := Delete(u.tasks, id);
      && c.result.Ok? && c.result.value.title == "Minha nova task" && !c.result.value.completed
      && GetById(c.tasks, id).result == c.result
      && u.result.Ok? && u.result.value.title == "Atualizada" && u.result.value.id == id
      && u.result.value.meta.lastModified > u.result.value.meta.created
      && d.result.Ok?
      && GetById(d.tasks, id).result == Err(NotFoundError)
  {
    var c := Create(tasks, Some("Minha nova task"), id, created);
    CreateThenGet(tasks, Some("Minha nova task"), id, created);
    CreatePreservesUniqueIds(tasks, Some("Minha nova task"), id, created);
    var u := Update(c.tasks, id, Some("Atualizada"), updated);
    assert FindTaskIndex(c.tasks, id) == |tasks|;
    UpdatePreservesUniqueIds(c.tasks, id, Some("Atualizada"), updated);
    DeleteIsTerminal(u.tasks, id, None, updated);
  }
}
