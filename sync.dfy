/**
 * Client and server together: the client's list is reconciled from the
 * server's replies, so after any sequence of round trips, each finished before
 * the next starts, it equals the server's store.
 */
module Sync {
  import opened Wrappers
  import opened Tasks
  import JsString
  import Server
  import App

  /** What axios makes of a reply: its body when the status is 2xx; otherwise
      the awaited call throws. */
  function ReceiveTask(r: Reply): App.Outcome<Task> {
    if r.IsSuccess() && r.body.OneTask? then App.Ok(r.body.task) else App.Failed
  }

  function ReceiveTasks(r: Reply): App.Outcome<seq<Task>> {
    if r.IsSuccess() && r.body.AllTasks? then App.Ok(r.body.tasks) else App.Failed
  }

  /** The client shows the server's list. */
  predicate Mirrors(app: App.AppState, store: Server.Store) {
    app.tasks == store.tasks
  }

  /** One user action in the client. */
  datatype Action =
    | Refresh                         // fetchTasks()
    | Add(title: string)              // addTask(title)
    | Toggle(id: int, completed: bool) // toggleTask(id, completed)
    | Remove(id: int)                 // deleteTask(id)

  /** The request the action sends. */
  function RequestFor(a: Action): Request {
    match a
    case Refresh => Get
    case Add(title) => App.AddRequest(title)
    case Toggle(id, completed) => App.ToggleRequest(id, completed)
    case Remove(id) => App.DeleteRequest(id)
  }

  /** The client's state once the action has seen the reply. */
  function Receive(app: App.AppState, a: Action, reply: Reply): App.AppState {
    match a
    case Refresh => App.FetchDone(App.FetchStart(app), ReceiveTasks(reply))
    case Add(_) => App.AddTask(app, ReceiveTask(reply))
    case Toggle(id, _) => App.ToggleTask(app, id, ReceiveTask(reply))
    case Remove(id) => App.DeleteTask(app, id, ReceiveTask(reply))
  }

  /** Fetching shows the store's list, changes nothing on the server and ends
      with loading over. */
  lemma FetchMirrors(store: Server.Store, app: App.AppState, now: Timestamp)
    ensures var h := Server.Serve(store, Get, now);
      var app' := Receive(app, Refresh, h.reply);
      h.after == store && Mirrors(app', store) && !app'.loading
  {
  }

  /** Adding keeps the mirror: the appended record is the one the server
      appended, and a rejected title changes neither side. */
  lemma AddMirrors(store: Server.Store, app: App.AppState, title: string, now: Timestamp)
    requires Server.WellFormed(store) && Mirrors(app, store)
    ensures var h := Server.Serve(store, App.AddRequest(title), now);
      Mirrors(Receive(app, Add(title), h.reply), h.after)
  {
  }

  /** Toggling keeps the mirror: the id in the URL parses back to the task's
      id, the server patches that one task, and the client's `map` puts the
      patched record at the same place, the only one holding the id. */
  lemma ToggleMirrors(store: Server.Store, app: App.AppState, id: int, completed: bool, now: Timestamp)
    requires Server.WellFormed(store) && Mirrors(app, store)
    ensures var h := Server.Serve(store, App.ToggleRequest(id, completed), now);
      Mirrors(Receive(app, Toggle(id, completed), h.reply), h.after)
  {
    ToggleReadsId(store, id, completed, now);
    UpdateByIdMirrors(store, app, id, Some(!completed));
  }

  lemma UpdateByIdMirrors(store: Server.Store, app: App.AppState, id: int, completed: Option<bool>)
    requires Server.WellFormed(store) && Mirrors(app, store)
    ensures var h := Server.UpdateById(store, Some(id), completed, None);
      Mirrors(App.ToggleTask(app, id, ReceiveTask(h.reply)), h.after)
  {
    var ts := store.tasks;
    var h := Server.UpdateById(store, Some(id), completed, None);
    match Server.FindIndex(ts, Some(id))
    case None =>
      assert h.reply.status == 404;
    case Some(i) =>
      var t := Server.Patch(ts[i], completed, None);
      assert h == Server.Handled(store.(tasks := ts[i := t]), Reply(200, OneTask(t)));
      var mapped := App.ReplaceById(ts, id, t);
      forall j | 0 <= j < |ts|
        ensures mapped[j] == ts[i := t][j]
      {
        if j != i {
          OtherIdsDiffer(ts, i, j);
        }
      }
      assert mapped == ts[i := t];
  }

  /** The server reads back the id the client wrote into the URL. */
  lemma ToggleReadsId(store: Server.Store, id: int, completed: bool, now: Timestamp)
    ensures Server.Serve(store, App.ToggleRequest(id, completed), now)
         == Server.UpdateById(store, Some(id), Some(!completed), None)
  {
    var path := JsString.IntToString(id);
    assert Server.Serve(store, App.ToggleRequest(id, completed), now)
        == Server.HandlePut(store, path, Some(!completed), None);
    JsString.ParseIntRoundTrip(id);
  }

  lemma DeleteReadsId(store: Server.Store, id: int, now: Timestamp)
    ensures Server.Serve(store, App.DeleteRequest(id), now) == Server.DeleteById(store, Some(id))
  {
    var path := JsString.IntToString(id);
    assert Server.Serve(store, App.DeleteRequest(id), now) == Server.HandleDelete(store, path);
    JsString.ParseIntRoundTrip(id);
  }

  /** In a list with increasing ids, no other position holds the same id. */
  lemma OtherIdsDiffer(ts: seq<Task>, i: nat, j: nat)
    requires Server.IdsIncreasing(ts) && i < |ts| && j < |ts| && i != j
    ensures ts[i].id != ts[j].id
  {
    if j < i { assert ts[j].id < ts[i].id; } else { assert ts[i].id < ts[j].id; }
  }

  /** Toggling a task whose flag the client shows correctly flips that flag on
      the server and changes nothing else. */
  lemma ToggleFlipsOnlyThatFlag(store: Server.Store, i: nat, now: Timestamp)
    requires Server.WellFormed(store) && i < |store.tasks|
    ensures var t := store.tasks[i];
      var h := Server.Serve(store, App.ToggleRequest(t.id, t.completed), now);
      && h.reply == Reply(200, OneTask(t.(completed := !t.completed)))
      && h.after == store.(tasks := store.tasks[i := t.(completed := !t.completed)])
  {
    var t := store.tasks[i];
    ToggleReadsId(store, t.id, t.completed, now);
    Server.FindIndexUnique(store.tasks, t.id, i);
    assert Server.Patch(t, Some(!t.completed), None) == t.(completed := !t.completed);
  }

  /** Deleting keeps the mirror: the client's `filter` removes the one position
      the server's `splice` removed. */
  lemma DeleteMirrors(store: Server.Store, app: App.AppState, id: int, now: Timestamp)
    requires Server.WellFormed(store) && Mirrors(app, store)
    ensures var h := Server.Serve(store, App.DeleteRequest(id), now);
      Mirrors(Receive(app, Remove(id), h.reply), h.after)
  {
    DeleteReadsId(store, id, now);
    DeleteByIdMirrors(store, app, id);
  }

  lemma DeleteByIdMirrors(store: Server.Store, app: App.AppState, id: int)
    requires Server.WellFormed(store) && Mirrors(app, store)
    ensures var h := Server.DeleteById(store, Some(id));
      Mirrors(App.DeleteTask(app, id, ReceiveTask(h.reply)), h.after)
  {
    var ts := store.tasks;
    var h := Server.DeleteById(store, Some(id));
    match Server.FindIndex(ts, Some(id))
    case None =>
      assert h.reply.status == 404;
    case Some(i) =>
      assert h == Server.Handled(store.(tasks := ts[..i] + ts[i + 1..]), Reply(200, OneTask(ts[i])));
      forall j | 0 <= j < |ts| && j != i
        ensures ts[j].id != id
      {
        OtherIdsDiffer(ts, i, j);
      }
      App.RemoveByIdSplice(ts, id, i);
  }

  /** One round trip keeps the mirror and the store invariant. */
  lemma RoundTripMirrors(store: Server.Store, app: App.AppState, a: Action, now: Timestamp)
    requires Server.WellFormed(store) && Mirrors(app, store)
    ensures var h := Server.Serve(store, RequestFor(a), now);
      Server.WellFormed(h.after) && Mirrors(Receive(app, a, h.reply), h.after)
  {
    match a
    case Refresh =>
      FetchMirrors(store, app, now);
    case Add(title) =>
      AddMirrors(store, app, title, now);
      Server.PostPreservesWellFormed(store, Some(title), now);
    case Toggle(id, completed) =>
      ToggleMirrors(store, app, id, completed, now);
      ToggleReadsId(store, id, completed, now);
      Server.PutPreservesWellFormed(store, Some(id), Some(!completed), None);
    case Remove(id) =>
      DeleteMirrors(store, app, id, now);
      DeleteReadsId(store, id, now);
      Server.DeletePreservesWellFormed(store, Some(id));
  }

  /** The server's and the client's states after a run of actions, each
      request answered before the next one is sent; `clock[k]` is what
      `new Date()` returns while the k-th request is handled. */
  function Run(store: Server.Store, app: App.AppState, actions: seq<Action>, clock: seq<Timestamp>)
    : (Server.Store, App.AppState)
    requires |clock| == |actions|
    decreases |actions|
  {
    if actions == [] then (store, app)
    else
      var h := Server.Serve(store, RequestFor(actions[0]), clock[0]);
      Run(h.after, Receive(app, actions[0], h.reply), actions[1..], clock[1..])
  }

  /** From start-up, or from any state where the client shows a well-formed
      store, every sequential run of actions ends with the client showing the
      store, and the store still well-formed. */
  lemma {:induction false} RunMirrors(store: Server.Store, app: App.AppState, actions: seq<Action>, clock: seq<Timestamp>)
    requires |clock| == |actions|
    requires Server.WellFormed(store) && Mirrors(app, store)
    ensures var (store', app') := Run(store, app, actions, clock);
      Server.WellFormed(store') && Mirrors(app', store')
    decreases |actions|
  {
    if actions != [] {
      var h := Server.Serve(store, RequestFor(actions[0]), clock[0]);
      RoundTripMirrors(store, app, actions[0], clock[0]);
      RunMirrors(h.after, Receive(app, actions[0], h.reply), actions[1..], clock[1..]);
    }
  }

  /** The requests a run of actions sends, in order. */
  function Requests(actions: seq<Action>): (reqs: seq<Request>)
    ensures |reqs| == |actions|
  {
    if actions == [] then [] else [RequestFor(actions[0])] + Requests(actions[1..])
  }

  /** The server side of a client run is the server serving the requests the
      actions send, one after another; so the fresh-id guarantee of
      `Server.ServeAllIssuesFreshIds` holds along every run. */
  lemma {:induction false} RunServesRequests(store: Server.Store, app: App.AppState, actions: seq<Action>, clock: seq<Timestamp>)
    requires |clock| == |actions|
    ensures Run(store, app, actions, clock).0 == Server.ServeAll(store, Requests(actions), clock).0
    decreases |actions|
  {
    if actions != [] {
      var h := Server.Serve(store, RequestFor(actions[0]), clock[0]);
      var reqs := Requests(actions);
      assert reqs[0] == RequestFor(actions[0]) && reqs[1..] == Requests(actions[1..]);
      RunServesRequests(h.after, Receive(app, actions[0], h.reply), actions[1..], clock[1..]);
    }
  }

  /** The server's counter never goes back along a run, so no id stored or
      deleted before the run is handed out during it. */
  lemma RunCounterNeverGoesBack(store: Server.Store, app: App.AppState, actions: seq<Action>, clock: seq<Timestamp>)
    requires |clock| == |actions|
    ensures store.taskId <= Run(store, app, actions, clock).0.taskId
  {
    RunServesRequests(store, app, actions, clock);
    Server.ServeAllIssuesFreshIds(store, Requests(actions), clock);
  }

  /** Start-up satisfies the premise of RunMirrors. */
  lemma StartMirrors()
    ensures Server.WellFormed(Server.Initial) && Mirrors(App.Mounted, Server.Initial)
  {
  }
}
