/**
 * The browser client's task list: the state behind `useState`, the handlers
 * that reconcile it with the server's replies, and the progress figures derived
 * from it. Each handler is one atomic transition, given the outcome of its HTTP
 * request.
 */
module App {
  import opened Wrappers
  import opened Tasks
  import JsString

  /** What an awaited request gives the handler: the response data, or a thrown error. */
  datatype Outcome<T> = Ok(data: T) | Failed

  /** The component's state: `tasks` and `loading`. */
  datatype AppState = AppState(tasks: seq<Task>, loading: bool)

  /** `useState([])` and `useState(false)`. */
  const Mounted := AppState([], false)

  // ---------------------------------------------------------------------------
  // List reconciliation

  /** `tasks.map(t => t.id === id ? task : t)`: every task with the id is
      replaced by `task`, every other one stays where it is. */
  function ReplaceById(ts: seq<Task>, id: int, task: Task): (r: seq<Task>)
    ensures |r| == |ts|
    ensures forall i | 0 <= i < |ts| :: r[i] == if ts[i].id == id then task else ts[i]
  {
    if ts == [] then []
    else [if ts[0].id == id then task else ts[0]] + ReplaceById(ts[1..], id, task)
  }

  /** `tasks.filter(t => t.id !== id)`: exactly the tasks without the id remain. */
  function RemoveById(ts: seq<Task>, id: int): (r: seq<Task>)
    ensures |r| <= |ts|
  {
    if ts == [] then []
    else if ts[0].id != id then [ts[0]] + RemoveById(ts[1..], id)
    else RemoveById(ts[1..], id)
  }

  /** Exactly the tasks without the id survive the filter. */
  lemma {:induction false} RemoveByIdMembers(ts: seq<Task>, id: int, t: Task)
    ensures t in RemoveById(ts, id) <==> t in ts && t.id != id
  {
    if ts != [] {
      RemoveByIdMembers(ts[1..], id, t);
      assert ts == [ts[0]] + ts[1..];
    }
  }

  /** Filtering keeps order: filtering a concatenation filters both parts. */
  lemma {:induction false} RemoveByIdAppend(a: seq<Task>, b: seq<Task>, id: int)
    ensures RemoveById(a + b, id) == RemoveById(a, id) + RemoveById(b, id)
  {
    if a == [] {
      assert a + b == b;
    } else {
      assert (a + b)[1..] == a[1..] + b;
      RemoveByIdAppend(a[1..], b, id);
    }
  }

  /** Without the id in the list, filtering changes nothing. */
  lemma {:induction false} RemoveByIdAbsent(ts: seq<Task>, id: int)
    requires forall j | 0 <= j < |ts| :: ts[j].id != id
    ensures RemoveById(ts, id) == ts
  {
    if ts != [] {
      RemoveByIdAbsent(ts[1..], id);
    }
  }

  /** With the id held at position `i` only, filtering is removing position `i`,
      so the length drops by one. */
  lemma RemoveByIdSplice(ts: seq<Task>, id: int, i: nat)
    requires i < |ts| && ts[i].id == id
    requires forall j | 0 <= j < |ts| && j != i :: ts[j].id != id
    ensures RemoveById(ts, id) == ts[..i] + ts[i + 1..]
    ensures |RemoveById(ts, id)| == |ts| - 1
  {
    var before, after := ts[..i], ts[i + 1..];
    assert ts == (before + [ts[i]]) + after;
    assert forall j | 0 <= j < |before| :: before[j] == ts[j];
    assert forall j | 0 <= j < |after| :: after[j] == ts[i + 1 + j];
    RemoveByIdAbsent(before, id);
    RemoveByIdAbsent(after, id);
    assert RemoveById([ts[i]], id) == [];
    RemoveByIdAppend(before, [ts[i]], id);
    RemoveByIdAppend(before + [ts[i]], after, id);
  }

  // ---------------------------------------------------------------------------
  // Handlers

  /** `fetchTasks`, up to the await: `setLoading(true)`. */
  function FetchStart(s: AppState): AppState {
    s.(loading := true)
  }

  /** `fetchTasks`, after the await: on success the list becomes the response;
      the `finally` clears `loading` whatever happened. */
  function FetchDone(s: AppState, response: Outcome<seq<Task>>): AppState {
    var tasks := if response.Ok? then response.data else s.tasks;
    AppState(tasks, false)
  }

  /** A whole `fetchTasks`: the list is the response on success and the previous
      list on failure, and loading is over either way. */
  lemma FetchTasksEffect(s: AppState, response: Outcome<seq<Task>>)
    ensures var s' := FetchDone(FetchStart(s), response);
      && FetchStart(s).loading && FetchStart(s).tasks == s.tasks
      && !s'.loading
      && s'.tasks == (if response.Ok? then response.data else s.tasks)
  {
  }

  /** The request `addTask` sends: `POST /api/tasks` with `{ title }`. */
  function AddRequest(title: string): Request {
    Post(Some(title))
  }

  /** `addTask`: on success the returned record is appended after the current
      list; on failure nothing changes. */
  function AddTask(s: AppState, response: Outcome<Task>): (r: AppState)
    ensures r.loading == s.loading
    ensures response.Failed? ==> r == s
    ensures response.Ok? ==>
      |r.tasks| == |s.tasks| + 1 && r.tasks[..|s.tasks|] == s.tasks && r.tasks[|s.tasks|] == response.data
  {
    if response.Ok? then s.(tasks := s.tasks + [response.data]) else s
  }

  /** The request `toggleTask(id, completed)` sends: `PUT /api/tasks/${id}`
      with `{ completed: !completed }`. */
  function ToggleRequest(id: int, completed: bool): Request {
    Put(JsString.IntToString(id), Some(!completed), None)
  }

  /** `toggleTask`: on success every task with the id is replaced by the
      returned record; on failure nothing changes. */
  function ToggleTask(s: AppState, id: int, response: Outcome<Task>): AppState {
    if response.Ok? then s.(tasks := ReplaceById(s.tasks, id, response.data)) else s
  }

  /** The request `deleteTask(id)` sends: `DELETE /api/tasks/${id}`. */
  function DeleteRequest(id: int): Request {
    Delete(JsString.IntToString(id))
  }

  /** `deleteTask`: on success the tasks with the id are dropped (the response
      body is not looked at); on failure nothing changes. */
  function DeleteTask(s: AppState, id: int, response: Outcome<Task>): AppState {
    if response.Ok? then s.(tasks := RemoveById(s.tasks, id)) else s
  }

  /** `toggleTask` and its request: the PUT sends the negated flag; on success
      every task with the id becomes the returned record and every other task
      keeps its place; on failure nothing changes. */
  lemma ToggleTaskEffect(s: AppState, id: int, completed: bool, response: Outcome<Task>)
    ensures ToggleRequest(id, completed).completed == Some(!completed)
    ensures response.Failed? ==> ToggleTask(s, id, response) == s
    ensures response.Ok? ==> var r := ToggleTask(s, id, response);
      && r.loading == s.loading
      && |r.tasks| == |s.tasks|
      && forall i | 0 <= i < |s.tasks| ::
           r.tasks[i] == if s.tasks[i].id == id then response.data else s.tasks[i]
  {
  }

  /** `deleteTask`: on success exactly the tasks without the id remain, and
      when ids are unique the list shrinks by at most one; on failure nothing
      changes. */
  lemma DeleteTaskEffect(s: AppState, id: int, response: Outcome<Task>)
    ensures response.Failed? ==> DeleteTask(s, id, response) == s
    ensures response.Ok? ==> var r := DeleteTask(s, id, response);
      && r.loading == s.loading
      && (forall t :: t in r.tasks <==> t in s.tasks && t.id != id)
      && ((forall i, j | 0 <= i < j < |s.tasks| :: s.tasks[i].id != s.tasks[j].id) ==>
            |s.tasks| - 1 <= |r.tasks|)
  {
    if response.Ok? {
      var ts := s.tasks;
      forall t ensures t in RemoveById(ts, id) <==> t in ts && t.id != id {
        RemoveByIdMembers(ts, id, t);
      }
      if i :| 0 <= i < |ts| && ts[i].id == id {
        if forall k, l | 0 <= k < l < |ts| :: ts[k].id != ts[l].id {
          RemoveByIdSplice(ts, id, i);
        }
      } else {
        RemoveByIdAbsent(ts, id);
      }
    }
  }

  // ---------------------------------------------------------------------------
  // Progress

  /** `tasks.filter(t => t.completed).length` */
  function CompletedCount(ts: seq<Task>): (n: nat)
    ensures n <= |ts|
  {
    if ts == [] then 0 else (if ts[0].completed then 1 else 0) + CompletedCount(ts[1..])
  }

  /** The count reaches the length exactly when every task is completed. */
  lemma {:induction false} CompletedCountAll(ts: seq<Task>)
    ensures CompletedCount(ts) == |ts| <==> forall i | 0 <= i < |ts| :: ts[i].completed
  {
    if ts != [] {
      CompletedCountAll(ts[1..]);
      assert forall i | 1 <= i < |ts| :: ts[i] == ts[1..][i - 1];
    }
  }

  /** The count is zero exactly when no task is completed. */
  lemma {:induction false} CompletedCountNone(ts: seq<Task>)
    ensures CompletedCount(ts) == 0 <==> forall i | 0 <= i < |ts| :: !ts[i].completed
  {
    if ts != [] {
      CompletedCountNone(ts[1..]);
      assert forall i | 1 <= i < |ts| :: ts[i] == ts[1..][i - 1];
    }
  }

  /** `Math.round((completed / total) * 100)` on exact rationals: for `x >= 0`,
      `Math.round(x)` is `floor(x + 1/2)`, and `100c/t + 1/2 = (200c + t) / 2t`. */
  function RoundedPercent(completed: nat, total: nat): int
    requires 0 < total
  {
    (200 * completed + total) / (2 * total)
  }

  /** Division by a positive number is monotone in the dividend. */
  lemma DivBelow(n: int, d: int, k: int)
    requires 0 < d && 0 <= n < d * k
    ensures n / d < k
  {
    var q, r := n / d, n % d;
    assert n == d * q + r && 0 <= r;
  }

  lemma DivAtLeast(n: int, d: int, k: int)
    requires 0 < d && d * k <= n
    ensures k <= n / d
  {
    var q, r := n / d, n % d;
    assert n == d * q + r && r < d;
    assert d * (q + 1 - k) > 0 by {
      assert d * (q + 1 - k) == d * q + d - d * k;
    }
  }

  /** The rounded percentage lies in [0, 100]; it is 100 exactly when at most
      one task in two hundred is incomplete, and 0 exactly when fewer than one
      in two hundred is completed. */
  lemma RoundedPercentRange(c: nat, t: nat)
    requires 0 < t && c <= t
    ensures 0 <= RoundedPercent(c, t) <= 100
    ensures RoundedPercent(c, t) == 100 <==> 200 * (t - c) <= t
    ensures RoundedPercent(c, t) == 0 <==> 200 * c < t
  {
    var n, d := 200 * c + t, 2 * t;
    DivBelow(n, d, 101);
    if 200 * (t - c) <= t {
      DivAtLeast(n, d, 100);
    } else {
      DivBelow(n, d, 100);
    }
    if 200 * c < t {
      DivBelow(n, d, 1);
    } else {
      DivAtLeast(n, d, 1);
    }
  }

  /** `tasks.length > 0 ? Math.round(...) : 0` */
  function Progress(ts: seq<Task>): (p: int)
    ensures 0 <= p <= 100
  {
    if |ts| > 0 then
      RoundedPercentRange(CompletedCount(ts), |ts|);
      RoundedPercent(CompletedCount(ts), |ts|)
    else 0
  }

  /** The bar shows 100 exactly when the incomplete tasks are at most one in
      two hundred; so with every task completed it shows 100, and with fewer
      than 200 tasks it shows 100 only then. */
  lemma ProgressFull(ts: seq<Task>)
    requires ts != []
    ensures var c, t := CompletedCount(ts), |ts|;
      && (Progress(ts) == 100 <==> 200 * (t - c) <= t)
      && ((forall i | 0 <= i < t :: ts[i].completed) ==> Progress(ts) == 100)
      && (t < 200 ==> (Progress(ts) == 100 <==> forall i | 0 <= i < t :: ts[i].completed))
  {
    RoundedPercentRange(CompletedCount(ts), |ts|);
    CompletedCountAll(ts);
  }

  /** The bar shows 0 exactly when the completed tasks are under one in two
      hundred; so with none completed it shows 0, and with at most 200 tasks it
      shows 0 only then. An empty list shows 0. */
  lemma ProgressZero(ts: seq<Task>)
    ensures ts == [] ==> Progress(ts) == 0
    ensures ts != [] ==> var c, t := CompletedCount(ts), |ts|;
      && (Progress(ts) == 0 <==> 200 * c < t)
      && ((forall i | 0 <= i < t :: !ts[i].completed) ==> Progress(ts) == 0)
      && (t <= 200 ==> (Progress(ts) == 0 <==> forall i | 0 <= i < t :: !ts[i].completed))
  {
    if ts != [] {
      RoundedPercentRange(CompletedCount(ts), |ts|);
      CompletedCountNone(ts);
    }
  }

  /** One of two tasks done shows 50, one of three 33, two of three 67. */
  lemma ProgressExamples()
    ensures RoundedPercent(1, 2) == 50
    ensures RoundedPercent(1, 3) == 33
    ensures RoundedPercent(2, 3) == 67
  {
  }
}
