/**
 * The server's in-memory task store and its four `/api/tasks` handlers.
 *
 * The handlers are first stated as pure functions from a store value to the
 * store value afterwards and the reply; class `TaskStore` holds the mutable
 * `tasks` list and `taskId` counter and its methods are proved to perform
 * exactly those transitions while keeping the store invariant.
 */
module Server {
  import opened Wrappers
  import opened Tasks
  import JsString

  const TitleRequired := "Task title is required"
  const TaskNotFound := "Task not found"

  /** The store's state: the task list in insertion order and the next id. */
  datatype Store = Store(tasks: seq<Task>, taskId: int)

  /** The state at start-up: no tasks, ids start at 1. */
  const Initial := Store([], 1)

  /** Ids increase strictly along the list; in particular they are unique. */
  predicate IdsIncreasing(ts: seq<Task>) {
    forall i, j | 0 <= i < j < |ts| :: ts[i].id < ts[j].id
  }

  /** A title as stored: non-empty, and neither starting nor ending with whitespace. */
  predicate StoredTitle(title: string) {
    title != [] && JsString.IsTrimmed(title)
  }

  /** A stored title is exactly a non-empty one that trimming leaves alone. */
  lemma StoredTitleIsTrimFixed(title: string)
    ensures StoredTitle(title) <==> title != [] && JsString.Trim(title) == title
  {
    JsString.TrimFixedIff(title);
  }

  /** The store invariant: every id was handed out by the counter (so is below
      it), ids increase along the list, and every title is trimmed and non-empty. */
  predicate WellFormed(s: Store) {
    && 1 <= s.taskId
    && IdsIncreasing(s.tasks)
    && (forall i | 0 <= i < |s.tasks| :: 1 <= s.tasks[i].id < s.taskId)
    && (forall i | 0 <= i < |s.tasks| :: StoredTitle(s.tasks[i].title))
  }

  /** `tasks.findIndex(t => t.id === key)`: the first position holding the key.
      A `None` key (NaN) matches nothing. */
  function FindIndex(ts: seq<Task>, key: Option<int>): (r: Option<nat>)
    ensures r.Some? ==> key.Some? && r.value < |ts| && ts[r.value].id == key.value
    ensures r.Some? ==> forall j | 0 <= j < r.value :: ts[j].id != key.value
    ensures r.None? <==> key.None? || forall j | 0 <= j < |ts| :: ts[j].id != key.value
  {
    if key.None? || ts == [] then None
    else if ts[0].id == key.value then Some(0)
    else match FindIndex(ts[1..], key)
      case None => None
      case Some(k) => Some(k + 1)
  }

  /** `!title || title.trim() === ''`: the create request has no usable title. */
  predicate IsBlank(title: Option<string>) {
    title.None? || JsString.Trim(title.value) == []
  }

  /** The field updates of PUT: `completed` when supplied, `title` when supplied
      and non-blank, and then trimmed. */
  function Patch(t: Task, completed: Option<bool>, title: Option<string>): Task {
    var t' := if completed.Some? then t.(completed := completed.value) else t;
    if title.Some? && JsString.Trim(title.value) != [] then t'.(title := JsString.Trim(title.value)) else t'
  }

  /** The store after a handler ran, and the reply it sent. */
  datatype Handled = Handled(after: Store, reply: Reply)

  /** GET /api/tasks */
  function HandleGet(s: Store): Reply {
    Reply(200, AllTasks(s.tasks))
  }

  /** POST /api/tasks */
  function HandlePost(s: Store, title: Option<string>, now: Timestamp): Handled {
    if IsBlank(title) then Handled(s, Reply(400, Error(TitleRequired)))
    else
      var t := Task(s.taskId, JsString.Trim(title.value), false, now);
      Handled(Store(s.tasks + [t], s.taskId + 1), Reply(201, OneTask(t)))
  }

  /** PUT /api/tasks/:id, once the id is parsed: patch the first task with that id. */
  function UpdateById(s: Store, key: Option<int>, completed: Option<bool>, title: Option<string>): Handled {
    match FindIndex(s.tasks, key)
    case None => Handled(s, Reply(404, Error(TaskNotFound)))
    case Some(i) =>
      var t := Patch(s.tasks[i], completed, title);
      Handled(s.(tasks := s.tasks[i := t]), Reply(200, OneTask(t)))
  }

  /** PUT /api/tasks/:id */
  function HandlePut(s: Store, id: string, completed: Option<bool>, title: Option<string>): Handled {
    UpdateById(s, JsString.ParseInt(id), completed, title)
  }

  /** DELETE /api/tasks/:id, once the id is parsed: splice out the first task with that id. */
  function DeleteById(s: Store, key: Option<int>): Handled {
    match FindIndex(s.tasks, key)
    case None => Handled(s, Reply(404, Error(TaskNotFound)))
    case Some(i) =>
      Handled(s.(tasks := s.tasks[..i] + s.tasks[i + 1..]), Reply(200, OneTask(s.tasks[i])))
  }

  /** DELETE /api/tasks/:id */
  function HandleDelete(s: Store, id: string): Handled {
    DeleteById(s, JsString.ParseInt(id))
  }

  /** The `/api/tasks` routes: each request goes to its handler. */
  function Serve(s: Store, req: Request, now: Timestamp): Handled {
    match req
    case Get => Handled(s, HandleGet(s))
    case Post(title) => HandlePost(s, title, now)
    case Put(id, completed, title) => HandlePut(s, id, completed, title)
    case Delete(id) => HandleDelete(s, id)
  }

  // ---------------------------------------------------------------------------
  // What the handlers promise

  /** The invariant gives unique ids: a key is found at the one position that holds it. */
  lemma FindIndexUnique(ts: seq<Task>, key: int, i: nat)
    requires IdsIncreasing(ts) && i < |ts| && ts[i].id == key
    ensures FindIndex(ts, Some(key)) == Some(i)
  {
  }

  /** Create rejects exactly the blank titles, leaving the store as it was;
      otherwise it appends one task, with the counter's id, the trimmed title and
      `completed = false`, after all stored tasks, and advances the counter. The
      new id exceeds every stored id. */
  lemma PostCreatesOrRejects(s: Store, title: Option<string>, now: Timestamp)
    requires WellFormed(s)
    ensures var h := HandlePost(s, title, now);
      && (h.reply.status == 400 <==> IsBlank(title))
      && (IsBlank(title) ==> h == Handled(s, Reply(400, Error(TitleRequired))))
      && (!IsBlank(title) ==>
            && |h.after.tasks| == |s.tasks| + 1
            && h.after.tasks[..|s.tasks|] == s.tasks
            && h.after.taskId == s.taskId + 1
            && h.reply == Reply(201, OneTask(h.after.tasks[|s.tasks|]))
            && var t := h.after.tasks[|s.tasks|];
               && t.id == s.taskId && t.title == JsString.Trim(title.value)
               && !t.completed && t.createdAt == now
               && forall j | 0 <= j < |s.tasks| :: s.tasks[j].id < t.id)
  {
  }

  /** Create keeps the invariant: the new id is the counter, above every stored
      id, and the stored title is the trimmed one, which trimming leaves alone. */
  lemma PostPreservesWellFormed(s: Store, title: Option<string>, now: Timestamp)
    requires WellFormed(s)
    ensures WellFormed(HandlePost(s, title, now).after)
  {
    if !IsBlank(title) {
      var t := Task(s.taskId, JsString.Trim(title.value), false, now);
      JsString.TrimIsTrimmed(title.value);
      AppendPreservesWellFormed(s, t);
    }
  }

  /** Appending a task that carries the counter's id and a stored title, and
      advancing the counter, keeps the invariant. */
  lemma AppendPreservesWellFormed(s: Store, t: Task)
    requires WellFormed(s) && t.id == s.taskId && StoredTitle(t.title)
    ensures WellFormed(Store(s.tasks + [t], s.taskId + 1))
  {
    var ts := s.tasks + [t];
    assert forall k | 0 <= k < |ts| :: ts[k] == if k < |s.tasks| then s.tasks[k] else t;
  }

  /** Update answers 404 exactly when no task carries the parsed id (an
      unparsable id carries none) and then leaves the store alone. Otherwise it
      changes only the task with that id, in place: `completed` when supplied,
      the title when a non-blank one is supplied (trimmed), never the id or the
      creation time; the reply is the stored record. */
  lemma PutFindsOrFails(s: Store, key: Option<int>, completed: Option<bool>, title: Option<string>)
    requires WellFormed(s)
    ensures var h := UpdateById(s, key, completed, title);
      && (h.reply.status == 404 <==> key.None? || forall j | 0 <= j < |s.tasks| :: s.tasks[j].id != key.value)
      && (h.reply.status == 404 ==> h == Handled(s, Reply(404, Error(TaskNotFound))))
      && (h.reply.status != 404 ==> h.reply.status == 200)
      && h.after.taskId == s.taskId
      && |h.after.tasks| == |s.tasks|
      && forall j | 0 <= j < |s.tasks| ::
           if key.Some? && s.tasks[j].id == key.value then
             var t, t' := s.tasks[j], h.after.tasks[j];
             && t'.id == t.id && t'.createdAt == t.createdAt
             && t'.completed == (if completed.Some? then completed.value else t.completed)
             && t'.title == (if title.Some? && JsString.Trim(title.value) != [] then JsString.Trim(title.value) else t.title)
             && h.reply == Reply(200, OneTask(t'))
           else h.after.tasks[j] == s.tasks[j]
  {
    forall j | 0 <= j < |s.tasks| && key.Some? && s.tasks[j].id == key.value
      ensures FindIndex(s.tasks, key) == Some(j)
    {
      FindIndexUnique(s.tasks, key.value, j);
    }
  }

  /** Update keeps the invariant: ids stay where they were, and a new title is
      a trimmed non-blank one. */
  lemma PutPreservesWellFormed(s: Store, key: Option<int>, completed: Option<bool>, title: Option<string>)
    requires WellFormed(s)
    ensures WellFormed(UpdateById(s, key, completed, title).after)
  {
    var index := FindIndex(s.tasks, key);
    if index.Some? {
      var i := index.value;
      PatchKeepsStoredFields(s.tasks[i], completed, title);
      ReplacePreservesWellFormed(s, i, Patch(s.tasks[i], completed, title));
    }
  }

  /** Overwriting one task with a record of the same id and a stored title
      keeps the invariant. */
  lemma ReplacePreservesWellFormed(s: Store, i: nat, t: Task)
    requires WellFormed(s) && i < |s.tasks| && t.id == s.tasks[i].id && StoredTitle(t.title)
    ensures WellFormed(s.(tasks := s.tasks[i := t]))
  {
    var ts := s.tasks[i := t];
    assert forall k | 0 <= k < |ts| :: ts[k].id == s.tasks[k].id && StoredTitle(ts[k].title);
  }

  /** A patch never touches the id or the creation time, and leaves a stored
      title a stored title. */
  lemma PatchKeepsStoredFields(t: Task, completed: Option<bool>, title: Option<string>)
    requires StoredTitle(t.title)
    ensures var t' := Patch(t, completed, title);
      t'.id == t.id && t'.createdAt == t.createdAt && StoredTitle(t'.title)
  {
    if title.Some? {
      JsString.TrimIsTrimmed(title.value);
    }
  }

  /** Delete answers 404 exactly when no task carries the parsed id, and then
      leaves the store alone. Otherwise it removes just that task, returns it,
      keeps the others in order and leaves the counter alone; no task with the
      id remains. */
  lemma DeleteFindsOrFails(s: Store, key: Option<int>)
    requires WellFormed(s)
    ensures var h := DeleteById(s, key);
      && (h.reply.status == 404 <==> key.None? || forall j | 0 <= j < |s.tasks| :: s.tasks[j].id != key.value)
      && (h.reply.status == 404 ==> h == Handled(s, Reply(404, Error(TaskNotFound))))
      && h.after.taskId == s.taskId
      && (forall j | 0 <= j < |s.tasks| && key.Some? && s.tasks[j].id == key.value ::
            && h.after.tasks == s.tasks[..j] + s.tasks[j + 1..]
            && h.reply == Reply(200, OneTask(s.tasks[j])))
      && (key.Some? ==> forall t | t in h.after.tasks :: t.id != key.value)
  {
    match FindIndex(s.tasks, key)
    case None =>
    case Some(i) =>
      forall j | 0 <= j < |s.tasks| && s.tasks[j].id == key.value
        ensures j == i
      {
        FindIndexUnique(s.tasks, key.value, j);
      }
      var rest := s.tasks[..i] + s.tasks[i + 1..];
      assert DeleteById(s, key) == Handled(s.(tasks := rest), Reply(200, OneTask(s.tasks[i])));
      forall t | t in rest
        ensures t.id != key.value
      {
        var k :| 0 <= k < |rest| && rest[k] == t;
        RemoveAtAt(s.tasks, i, k);
        if k >= i {
          assert s.tasks[i].id < s.tasks[k + 1].id;
        }
      }
  }

  /** Removing one position keeps the order of the rest. */
  lemma RemoveAtAt(ts: seq<Task>, i: nat, k: nat)
    requires i < |ts| && k < |ts| - 1
    ensures (ts[..i] + ts[i + 1..])[k] == ts[if k < i then k else k + 1]
  {
  }

  /** Delete keeps the invariant: what remains is a sub-list of what was. */
  lemma DeletePreservesWellFormed(s: Store, key: Option<int>)
    requires WellFormed(s)
    ensures WellFormed(DeleteById(s, key).after)
  {
    if FindIndex(s.tasks, key).Some? {
      RemovePreservesWellFormed(s, FindIndex(s.tasks, key).value);
    }
  }

  /** Splicing one position out keeps the invariant. */
  lemma RemovePreservesWellFormed(s: Store, i: nat)
    requires WellFormed(s) && i < |s.tasks|
    ensures WellFormed(s.(tasks := s.tasks[..i] + s.tasks[i + 1..]))
  {
    var rest := s.tasks[..i] + s.tasks[i + 1..];
    forall k | 0 <= k < |rest|
      ensures 1 <= rest[k].id < s.taskId && StoredTitle(rest[k].title)
    {
      RemoveAtAt(s.tasks, i, k);
    }
    forall k, l | 0 <= k < l < |rest|
      ensures rest[k].id < rest[l].id
    {
      RemoveAtAt(s.tasks, i, k);
      RemoveAtAt(s.tasks, i, l);
    }
  }

  /** Ids are never reused: once a task is deleted, the next task created gets
      an id different from it and from every task still stored. */
  lemma DeletedIdNeverReissued(s: Store, key: Option<int>, title: Option<string>, now: Timestamp)
    requires WellFormed(s)
    ensures var d := DeleteById(s, key);
      var p := HandlePost(d.after, title, now);
      d.reply.status == 200 && p.reply.status == 201 ==>
        && d.reply.body.task.id != p.reply.body.task.id
        && forall t | t in d.after.tasks :: t.id != p.reply.body.task.id
  {
    DeleteKeepsIdsBelowCounter(s, key);
  }

  /** After a delete, the counter is unchanged, and the removed task and every
      remaining one carry ids below it. */
  lemma DeleteKeepsIdsBelowCounter(s: Store, key: Option<int>)
    requires WellFormed(s)
    ensures var d := DeleteById(s, key);
      && d.after.taskId == s.taskId
      && (d.reply.status == 200 ==> d.reply.body.OneTask? && d.reply.body.task.id < s.taskId)
      && forall t | t in d.after.tasks :: t.id < s.taskId
  {
    match FindIndex(s.tasks, key)
    case None =>
    case Some(i) =>
      var rest := s.tasks[..i] + s.tasks[i + 1..];
      assert DeleteById(s, key) == Handled(s.(tasks := rest), Reply(200, OneTask(s.tasks[i])));
      RemovePreservesWellFormed(s, i);
      forall t | t in rest
        ensures t.id < s.taskId
      {
        var k :| 0 <= k < |rest| && rest[k] == t;
      }
  }

  /** An id `parseInt` reads as NaN matches no task: update and delete both
      answer 404 and change nothing. */
  lemma UnparsableIdNotFound(s: Store, id: string, completed: Option<bool>, title: Option<string>)
    requires JsString.ParseInt(id).None?
    ensures HandlePut(s, id, completed, title) == Handled(s, Reply(404, Error(TaskNotFound)))
    ensures HandleDelete(s, id) == Handled(s, Reply(404, Error(TaskNotFound)))
  {
  }

  /** Only a create moves the counter: a 201 reply carries the counter's id and
      the counter goes up by one; every other reply leaves it where it was. */
  lemma ServeAdvancesCounter(s: Store, req: Request, now: Timestamp)
    ensures var h := Serve(s, req, now);
      && (h.reply.status == 201 ==>
            h.reply.body.OneTask? && h.reply.body.task.id == s.taskId && h.after.taskId == s.taskId + 1)
      && (h.reply.status != 201 ==> h.after.taskId == s.taskId)
      && s.taskId <= h.after.taskId
  {
    match req
    case Get =>
    case Post(title) =>
    case Put(id, _, _) =>
      match FindIndex(s.tasks, JsString.ParseInt(id)) {
        case None =>
        case Some(_) =>
      }
    case Delete(id) =>
      match FindIndex(s.tasks, JsString.ParseInt(id)) {
        case None =>
        case Some(_) =>
      }
  }

  /** The store and the replies after serving requests one after another;
      `clock[k]` is what `new Date()` returns while the k-th is handled. */
  function ServeAll(s: Store, reqs: seq<Request>, clock: seq<Timestamp>): (Store, seq<Reply>)
    requires |clock| == |reqs|
    decreases |reqs|
  {
    if reqs == [] then (s, [])
    else
      var h := Serve(s, reqs[0], clock[0]);
      var (after, replies) := ServeAll(h.after, reqs[1..], clock[1..]);
      (after, [h.reply] + replies)
  }

  /** The ids of the tasks the 201 replies created, in order. */
  function CreatedIds(replies: seq<Reply>): seq<int> {
    if replies == [] then []
    else
      var r := replies[0];
      (if r.status == 201 && r.body.OneTask? then [r.body.task.id] else []) + CreatedIds(replies[1..])
  }

  /** Over any sequence of requests the creates hand out the consecutive ids
      `taskId, taskId + 1, ...`, and the counter ends just past the last one:
      every id handed out is fresh, and they strictly increase. */
  lemma {:induction false} ServeAllIssuesFreshIds(s: Store, reqs: seq<Request>, clock: seq<Timestamp>)
    requires |clock| == |reqs|
    ensures var (after, replies) := ServeAll(s, reqs, clock);
      && |replies| == |reqs|
      && after.taskId == s.taskId + |CreatedIds(replies)|
      && forall k | 0 <= k < |CreatedIds(replies)| :: CreatedIds(replies)[k] == s.taskId + k
    decreases |reqs|
  {
    if reqs != [] {
      var h := Serve(s, reqs[0], clock[0]);
      ServeAdvancesCounter(s, reqs[0], clock[0]);
      ServeAllIssuesFreshIds(h.after, reqs[1..], clock[1..]);
      var (after, rest) := ServeAll(h.after, reqs[1..], clock[1..]);
      var replies := [h.reply] + rest;
      assert ServeAll(s, reqs, clock) == (after, replies);
      assert replies[1..] == rest;
      var ids, later := CreatedIds(replies), CreatedIds(rest);
      if h.reply.status == 201 {
        assert ids == [s.taskId] + later;
        assert forall k | 1 <= k < |ids| :: ids[k] == later[k - 1];
      } else {
        assert ids == later;
      }
    }
  }

  /** Ids are never reused: no create in any later sequence of requests hands
      out the id of a deleted task or of a task still stored, because both lie
      below the counter, which never goes back. */
  lemma DeletedIdNeverReissuedLater(s: Store, key: Option<int>, reqs: seq<Request>, clock: seq<Timestamp>)
    requires WellFormed(s) && |clock| == |reqs|
    ensures var d := DeleteById(s, key);
      var ids := ServeAll(d.after, reqs, clock).1;
      forall id | id in CreatedIds(ids) ::
        && (d.reply.status == 200 ==> d.reply.body.task.id != id)
        && forall t | t in d.after.tasks :: t.id != id
  {
    var d := DeleteById(s, key);
    DeleteKeepsIdsBelowCounter(s, key);
    ServeAllIssuesFreshIds(d.after, reqs, clock);
  }

  // ---------------------------------------------------------------------------
  // The store as the server holds it: module-level `tasks` and `taskId`

  class TaskStore {
    var tasks: seq<Task>
    var taskId: int

    function State(): Store
      reads this
    {
      Store(tasks, taskId)
    }

    ghost predicate Valid()
      reads this
    {
      WellFormed(State())
    }

    /** `let tasks = []; let taskId = 1;` */
    constructor ()
      ensures Valid() && State() == Initial
    {
      tasks := [];
      taskId := 1;
    }

    /** GET /api/tasks */
    method List() returns (reply: Reply)
      ensures reply == Reply(200, AllTasks(tasks))
    {
      reply := Reply(200, AllTasks(tasks));
    }

    /** POST /api/tasks */
    method Create(title: Option<string>, now: Timestamp) returns (reply: Reply)
      requires Valid()
      modifies this
      ensures Valid()
      ensures Handled(State(), reply) == HandlePost(old(State()), title, now)
    {
      if title.None? || JsString.Trim(title.value) == [] {
        return Reply(400, Error(TitleRequired));
      }
      var newTask := Task(taskId, JsString.Trim(title.value), false, now);
      JsString.TrimIsTrimmed(title.value);
      Append(newTask);
      reply := Reply(201, OneTask(newTask));
    }

    /** `taskId++` and `tasks.push(newTask)` for a task that carries the
        counter's id and a stored title. */
    method Append(newTask: Task)
      requires Valid() && newTask.id == taskId && StoredTitle(newTask.title)
      modifies this
      ensures Valid()
      ensures State() == Store(old(tasks) + [newTask], old(taskId) + 1)
    {
      AppendPreservesWellFormed(State(), newTask);
      taskId := taskId + 1;
      tasks := tasks + [newTask];
    }

    /** PUT /api/tasks/:id */
    method Update(id: string, completed: Option<bool>, title: Option<string>) returns (reply: Reply)
      requires Valid()
      modifies this
      ensures Valid()
      ensures Handled(State(), reply) == HandlePut(old(State()), id, completed, title)
    {
      var index := FindIndex(tasks, JsString.ParseInt(id));
      if index.None? {
        return Reply(404, Error(TaskNotFound));
      }
      var task := tasks[index.value];
      PatchKeepsStoredFields(task, completed, title);
      if completed.Some? {
        task := task.(completed := completed.value);
      }
      if title.Some? && JsString.Trim(title.value) != [] {
        task := task.(title := JsString.Trim(title.value));
      }
      Overwrite(index.value, task);
      reply := Reply(200, OneTask(task));
    }

    /** Writes the patched record back at its position (the source mutates the
        found object, which the list holds). */
    method Overwrite(i: nat, task: Task)
      requires Valid() && i < |tasks| && task.id == tasks[i].id && StoredTitle(task.title)
      modifies this
      ensures Valid()
      ensures State() == Store(old(tasks)[i := task], old(taskId))
    {
      ReplacePreservesWellFormed(State(), i, task);
      tasks := tasks[i := task];
    }

    /** DELETE /api/tasks/:id */
    method Delete(id: string) returns (reply: Reply)
      requires Valid()
      modifies this
      ensures Valid()
      ensures Handled(State(), reply) == HandleDelete(old(State()), id)
    {
      var index := FindIndex(tasks, JsString.ParseInt(id));
      if index.None? {
        return Reply(404, Error(TaskNotFound));
      }
      var deletedTask := tasks[index.value];
      Splice(index.value);
      reply := Reply(200, OneTask(deletedTask));
    }

    /** `tasks.splice(i, 1)`. */
    method Splice(i: nat)
      requires Valid() && i < |tasks|
      modifies this
      ensures Valid()
      ensures State() == Store(old(tasks)[..i] + old(tasks)[i + 1..], old(taskId))
    {
      RemovePreservesWellFormed(State(), i);
      tasks := tasks[..i] + tasks[i + 1..];
    }
  }

  /** The handler steps of the walk-through below, one lemma each. */
  lemma ScenarioCreate(now: Timestamp)
    ensures var milk := Task(1, "buy milk", false, now);
      HandlePost(Initial, Some("buy milk"), now) == Handled(Store([milk], 2), Reply(201, OneTask(milk)))
  {
    var title := "buy milk";
    assert !JsString.IsWhitespace(title[0]) && !JsString.IsWhitespace(title[|title| - 1]);
    assert JsString.TrimStart(title) == title;
    assert JsString.TrimEnd(title) == title;
    assert JsString.Trim(title) == title;
    assert !IsBlank(Some(title));
    assert Initial.tasks + [Task(1, title, false, now)] == [Task(1, title, false, now)];
  }

  lemma ParseOne()
    ensures JsString.ParseInt("1") == Some(1)
  {
    assert JsString.IntToString(1) == "1";
    JsString.ParseIntRoundTrip(1);
  }

  lemma ScenarioUpdate(now: Timestamp, id: string)
    requires JsString.ParseInt(id) == Some(1)
    ensures var milk := Task(1, "buy milk", false, now);
      var done := milk.(completed := true);
      HandlePut(Store([milk], 2), id, Some(true), None) == Handled(Store([done], 2), Reply(200, OneTask(done)))
  {
  }

  lemma ScenarioDelete(now: Timestamp, id: string)
    requires JsString.ParseInt(id) == Some(1)
    ensures var done := Task(1, "buy milk", true, now);
      HandleDelete(Store([done], 2), id) == Handled(Store([], 2), Reply(200, OneTask(done)))
  {
    var done := Task(1, "buy milk", true, now);
    var ts := [done];
    assert FindIndex(ts, Some(1)) == Some(0);
    assert ts[..0] + ts[1..] == [];
    assert DeleteById(Store(ts, 2), Some(1)) == Handled(Store([], 2), Reply(200, OneTask(done)));
  }

  /** The walk-through of the API: create "buy milk", list it, complete it,
      delete it, and list nothing. */
  method Scenario(now: Timestamp) returns (created: Reply, listed: Reply, updated: Reply, deleted: Reply, final: Reply)
    ensures created == Reply(201, OneTask(Task(1, "buy milk", false, now)))
    ensures listed == Reply(200, AllTasks([Task(1, "buy milk", false, now)]))
    ensures updated == Reply(200, OneTask(Task(1, "buy milk", true, now)))
    ensures deleted == Reply(200, OneTask(Task(1, "buy milk", true, now)))
    ensures final == Reply(200, AllTasks([]))
  {
    var store := new TaskStore();
    ScenarioCreate(now);
    ParseOne();
    ScenarioUpdate(now, "1");
    ScenarioDelete(now, "1");
    created := store.Create(Some("buy milk"), now);
    listed := store.List();
    updated := store.Update("1", Some(true), None);
    deleted := store.Delete("1");
    final := store.List();
  }
}
