# Task Board: a verified model of the task store and its client

Task Board is a small to-do application. An Express server keeps the tasks
in memory: a list `tasks` in insertion order and a counter `taskId` that
hands out ids starting at 1. It serves four JSON routes:

- `GET /api/tasks` lists the tasks.
- `POST /api/tasks` creates a task from a title. The title is trimmed, and a
  blank one is rejected with 400.
- `PUT /api/tasks/:id` patches `completed` and/or `title`, or answers 404.
- `DELETE /api/tasks/:id` splices the task out and returns it, or answers 404.

A React client mirrors the list. It fetches it on mount, and it reconciles
each add, toggle and delete with the server's reply. From the `completed`
flags it derives a completed count and a rounded percentage.

The project is organised in six modules:

- `Wrappers` (`wrappers.dfy`): the `Option` type, for an absent JSON field or a NaN parse.
- `Tasks` (`tasks.dfy`): the task record, plus the requests and replies as
  they travel over HTTP.
- `JsString` (`js_string.dfy`): the two JavaScript built-ins the handlers
  rely on.
  - `String.prototype.trim`, with its whitespace set: the Unicode space
    separators, the line terminators, TAB, VT, FF and U+FEFF.
  - `parseInt`: leading whitespace, an optional sign, a `0x` prefix for hex,
    the longest run of digits, and NaN when there are none.
  - Decimal rendering of an id into a URL, with the proof that `parseInt`
    reads it back.
- `Server` (`server.dfy`): the four handlers as pure functions over a `Store`
  value, and the store invariant `WellFormed`:
  - ids strictly increase along the list;
  - every id is at least 1 and below the counter;
  - every title is non-empty and trimmed.

  The lemmas state what each handler does in its error and success cases,
  and that each handler preserves the invariant. Class `TaskStore` holds the
  mutable `tasks` and `taskId` fields. Each of its methods is proved to
  perform exactly the transition of the matching handler function while
  keeping `Valid()`.
- `App` (`app.dfy`): the client's `(tasks, loading)` state, and the four
  handlers as transitions given the outcome of their request. It also holds
  the `map`/`filter` reconciliation and the progress figures.
- `Sync` (`sync.dfy`): client and server together. Start from start-up
  (`StartMirrors`), or from any state where the client already shows a
  well-formed store, for example right after a refresh (`FetchMirrors`). Then
  after any run of actions, each round trip finished before the next starts,
  the client's list equals the server's store, and the store stays
  well-formed. Without that premise the claim fails: a client still showing
  an empty list against a store holding one task ends an add showing one task
  out of two.

Progress is modelled on exact rationals. `Math.round((c / t) * 100)` becomes
`(200c + t) div 2t`. With that rounding:

- the bar shows 100 exactly when at most one task in two hundred is
  incomplete;
- it shows 0 exactly when fewer than one in two hundred is completed.

So "100 only when all tasks are completed" holds only for lists of fewer
than 200 tasks, and `ProgressFull` states both facts. This is how
rounding behaves, not an error in the code.

## Model

| member | source | states |
|---|---|---|
| JsString.LeadingSpace | server/server.js:29 | the length of the whitespace run that `trim` strips from the front: at most the length, and followed by a non-whitespace character when it is shorter |
| JsString.TrailingSpace | server/server.js:29 | the same for the whitespace run at the end of the string |
| JsString.LeadingSpaceIsWhitespace | server/server.js:29 | every character of the leading run is whitespace |
| JsString.TrailingSpaceIsWhitespace | server/server.js:29 | every character of the trailing run is whitespace |
| JsString.TrimStart | server/server.js:43 | what `parseInt` skips first: the result is empty or starts with a non-whitespace character |
| JsString.TrimEnd | server/server.js:29 | the result is empty or ends with a non-whitespace character |
| JsString.Trim | server/server.js:29 | `title.trim()` is never longer than the title |
| JsString.TrimIsSlice | server/server.js:29 | the trimmed title is a contiguous slice of the title; everything cut off on either side is whitespace; both ends of the result are non-whitespace |
| JsString.TrimSlice | server/server.js:29 | the trimmed title is the slice starting after the leading whitespace |
| JsString.TrimEmptyIff | server/server.js:23 | `title.trim() === ''` holds exactly when every character of the title is whitespace |
| JsString.TrimIsTrimmed | server/server.js:53 | a trimmed title neither starts nor ends with whitespace |
| JsString.TrimFixedIff | server/server.js:29 | trimming leaves a string unchanged exactly when it neither starts nor ends with whitespace |
| JsString.TrimIdempotent | server/server.js:53 | trimming twice is trimming once |
| JsString.DigitCount | server/server.js:43 | the length of the digit run `parseInt` reads: at most the length, and followed by a non-digit when shorter |
| JsString.DigitCountIsDigits | server/server.js:43 | every character of that run is a digit of the radix |
| JsString.AllDigitsCount | server/server.js:43 | a string made only of digits is read to its end |
| JsString.DigitChar | client/src/App.jsx:42 | the character written for a decimal digit is a digit with that value |
| JsString.NatToString | client/src/App.jsx:42 | the decimal form of an id in `${id}` is non-empty, all digits, and has no leading zero except for 0 itself |
| JsString.NatToStringValue | client/src/App.jsx:42 | the decimal digits denote the number they were written from |
| JsString.NatToStringParses | server/server.js:43 | reading the decimal form of a number, with or without a sign before it, gives the number back |
| JsString.ParseIntRoundTrip | server/server.js:43 | `parseInt` of the `${id}` the client writes is the id, for every integer |
| JsString.ParseIntStopsAtGarbage | server/server.js:43 | `parseInt("12abc")` is 12: reading stops at the first non-digit |
| JsString.ParseIntSignedAfterSpace | server/server.js:43 | `parseInt(" -7")` is -7: leading whitespace is skipped and the sign applies |
| JsString.ParseIntHex | server/server.js:43 | `parseInt("0x1A")` is 26: a `0x` prefix switches to hexadecimal |
| JsString.ParseIntNaN | server/server.js:63 | an id that, after leading whitespace, starts with neither a sign nor a digit is NaN |
| JsString.ParseInt | server/server.js:43 | `parseInt(id)`: skip leading whitespace, then read a signed number; no contract of its own, and ParseIntRoundTrip, ParseIntNaN and the worked cases state what it computes |
| JsString.ParseSigned | server/server.js:43 | an optional `-` or `+` before the magnitude, where `-` negates it; no contract of its own, and NatToStringParses states what it computes on rendered digits |
| JsString.ParseMagnitude | server/server.js:43 | a `0x`/`0X` prefix selects radix 16, otherwise radix 10; no contract of its own, and ParseIntHex and NatToStringParses state what it computes |
| JsString.ParseDigits | server/server.js:63 | the longest digit prefix read as a number, NaN when it is empty; no contract of its own, and DigitCount and DigitCountIsDigits state where it stops |
| JsString.IntToString | client/src/App.jsx:42 | `${id}` for an integer id: a minus sign for negatives, then the decimal digits; no contract of its own, and ParseIntRoundTrip states that `parseInt` reads it back |
| Server.StoredTitleIsTrimFixed | server/server.js:29 | a title satisfies the stored-title invariant exactly when it is non-empty and trimming leaves it unchanged |
| Server.FindIndex | server/server.js:63 | `findIndex`: a found position holds the key and no earlier one does; nothing is found exactly when the key is NaN or no task holds it |
| Server.FindIndexUnique | server/server.js:43 | with increasing ids, `find` by a key yields the one task that holds it |
| Server.WellFormed | server/server.js:11-12 | the store invariant: the counter is at least 1, ids strictly increase, every id is at least 1 and below the counter, every title is non-empty and trimmed; no contract of its own, and the *PreservesWellFormed lemmas and StartMirrors state that it holds from start-up on |
| Server.IsBlank | server/server.js:23 | `!title` or `title.trim() === ''`; no contract of its own, and TrimEmptyIff states that it holds exactly for a missing or all-whitespace title |
| Server.HandleGet | server/server.js:15-17 | GET replies 200 with the whole list; no contract of its own, and FetchMirrors and TaskStore.List state its effect |
| Server.HandlePost | server/server.js:20-36 | the create handler; no contract of its own, and PostCreatesOrRejects and PostPreservesWellFormed state what it computes |
| Server.Patch | server/server.js:49-54 | the field updates of PUT; no contract of its own, and PatchKeepsStoredFields and PutFindsOrFails state what it computes |
| Server.UpdateById | server/server.js:43-56 | the update handler once the id is parsed; no contract of its own, and PutFindsOrFails and PutPreservesWellFormed state what it computes |
| Server.HandlePut | server/server.js:39-57 | the update handler on the raw id; no contract of its own, and UnparsableIdNotFound, ToggleReadsId and TaskStore.Update state what it computes |
| Server.DeleteById | server/server.js:63-70 | the delete handler once the id is parsed; no contract of its own, and DeleteFindsOrFails and DeletePreservesWellFormed state what it computes |
| Server.HandleDelete | server/server.js:60-71 | the delete handler on the raw id; no contract of its own, and UnparsableIdNotFound, DeleteReadsId and TaskStore.Delete state what it computes |
| Server.Serve | server/server.js:15-71 | sends each request to its handler; no contract of its own, and ServeAdvancesCounter and RoundTripMirrors state what it computes |
| Server.PostCreatesOrRejects | server/server.js:20-36 | 400 exactly for a missing or blank title, with store unchanged; otherwise exactly one task appended after all stored ones, with the counter's id, the trimmed title, `completed = false` and the given time, above every stored id; counter advanced by one; reply 201 with that record |
| Server.PostPreservesWellFormed | server/server.js:20-36 | create keeps the store invariant |
| Server.AppendPreservesWellFormed | server/server.js:27-34 | pushing a task with the counter's id and a trimmed non-empty title, then advancing the counter, keeps the invariant |
| Server.PutFindsOrFails | server/server.js:39-57 | 404 exactly when the id is NaN or held by no task, with store unchanged; otherwise 200 and only the task with the id changes: `completed` when supplied, the title when a non-blank one is supplied (trimmed), never id or creation time; length, order and counter preserved; the reply is the stored record |
| Server.PutPreservesWellFormed | server/server.js:49-54 | update keeps the store invariant |
| Server.ReplacePreservesWellFormed | server/server.js:49-54 | overwriting one task with a record of the same id and a stored title keeps the invariant |
| Server.PatchKeepsStoredFields | server/server.js:49-54 | the field updates never touch id or creation time, and a stored title stays non-empty and trimmed |
| Server.DeleteFindsOrFails | server/server.js:60-71 | 404 exactly when the id is NaN or held by no task, with store unchanged; otherwise exactly that task is spliced out and returned, the rest keep their order, the counter is unchanged and no task with the id remains |
| Server.RemoveAtAt | server/server.js:69 | after splicing out one position, the others keep their relative order |
| Server.DeletePreservesWellFormed | server/server.js:63-70 | delete keeps the store invariant |
| Server.RemovePreservesWellFormed | server/server.js:69 | splicing out any one position keeps the invariant |
| Server.DeleteKeepsIdsBelowCounter | server/server.js:63-70 | after a delete, the counter is unchanged and the removed and remaining ids are all below it |
| Server.DeletedIdNeverReissued | server/server.js:28-70 | the next task created right after a delete gets an id different from the deleted one and from every remaining task |
| Server.ServeAdvancesCounter | server/server.js:28 | only a create moves the counter: a 201 reply carries the old counter as its id and the counter goes up by one; every other reply leaves it unchanged |
| Server.ServeAllIssuesFreshIds | server/server.js:28-34 | over any sequence of requests the creates hand out exactly the consecutive ids starting at the counter, and the counter ends just past the last: ids are fresh and strictly increasing |
| Server.DeletedIdNeverReissuedLater | server/server.js:28-70 | after a delete, no create in any later sequence of requests, whatever comes in between, hands out the deleted id or the id of a remaining task: ids are never reused |
| Server.UnparsableIdNotFound | server/server.js:43-47 | a NaN id makes both update and delete answer 404 with the store unchanged |
| Server.TaskStore.constructor | server/server.js:11-12 | the store starts empty with counter 1, and satisfies the invariant |
| Server.TaskStore.List | server/server.js:15-17 | GET replies 200 with the stored list |
| Server.TaskStore.Create | server/server.js:20-36 | the new state and reply are exactly those of the create handler, and the invariant is kept |
| Server.TaskStore.Append | server/server.js:28-34 | `taskId++` and `tasks.push`: the list gains the task at its end, the counter goes up by one, the invariant is kept |
| Server.TaskStore.Update | server/server.js:39-57 | the new state and reply are exactly those of the update handler, and the invariant is kept |
| Server.TaskStore.Overwrite | server/server.js:49-54 | the patched record replaces the found one at its position, nothing else changes, the invariant is kept |
| Server.TaskStore.Delete | server/server.js:60-71 | the new state and reply are exactly those of the delete handler, and the invariant is kept |
| Server.TaskStore.Splice | server/server.js:69 | `splice(i, 1)`: position i is removed, the counter is unchanged, the invariant is kept |
| Server.ScenarioCreate | server/server.js:20-36 | creating "buy milk" in the empty store gives task 1 with counter 2 |
| Server.ParseOne | server/server.js:43 | `parseInt("1")` is 1 |
| Server.ScenarioUpdate | server/server.js:39-57 | completing task 1 through PUT sets its flag and nothing else |
| Server.ScenarioDelete | server/server.js:60-71 | deleting task 1 empties the list and keeps counter 2 |
| Server.Scenario | server/server.js:11-71 | on one live store, create, list, complete, delete and list give the expected replies in turn |
| App.ReplaceById | client/src/App.jsx:43 | `map`: same length; every task with the id becomes the record, every other task stays at its position |
| App.RemoveById | client/src/App.jsx:52 | `filter` never lengthens the list |
| App.RemoveByIdMembers | client/src/App.jsx:52 | a task survives the filter exactly when it was in the list and does not carry the id |
| App.RemoveByIdAppend | client/src/App.jsx:52 | the filter keeps order: filtering a concatenation is concatenating the filtered parts |
| App.RemoveByIdAbsent | client/src/App.jsx:52 | without the id in the list, the filter changes nothing |
| App.RemoveByIdSplice | client/src/App.jsx:52 | when only position i holds the id, the filter removes exactly position i, so the length drops by one |
| App.FetchTasksEffect | client/src/App.jsx:19-29 | loading is set while the request is out; afterwards the list is the response on success and the old list on failure, and loading is cleared either way |
| App.FetchStart | client/src/App.jsx:21 | `setLoading(true)`; no contract of its own, and FetchTasksEffect states its effect |
| App.FetchDone | client/src/App.jsx:22-28 | `setTasks(response.data)` on success, then `setLoading(false)` in the `finally`; no contract of its own, and FetchTasksEffect states its effect |
| App.AddRequest | client/src/App.jsx:33 | the POST with `{ title }`; no contract of its own, and AddMirrors states what the server makes of it |
| App.AddTask | client/src/App.jsx:31-38 | on success the returned record is appended after the unchanged old list; on failure nothing changes |
| App.ToggleRequest | client/src/App.jsx:42 | the PUT with `{ completed: !completed }` to `/tasks/${id}`; no contract of its own, and ToggleTaskEffect and ToggleReadsId state what it sends |
| App.ToggleTask | client/src/App.jsx:40-47 | the toggle transition; no contract of its own, and ToggleTaskEffect states it on success and failure |
| App.DeleteRequest | client/src/App.jsx:51 | the DELETE to `/tasks/${id}`; no contract of its own, and DeleteReadsId states what the server makes of it |
| App.DeleteTask | client/src/App.jsx:49-56 | the delete transition; no contract of its own, and DeleteTaskEffect states it on success and failure |
| App.ToggleTaskEffect | client/src/App.jsx:40-47 | the request sends the negated flag; on success every task with the id becomes the response and the others keep their positions and the length; on failure nothing changes |
| App.DeleteTaskEffect | client/src/App.jsx:49-56 | on success exactly the tasks without the id remain, and with unique ids the length drops by at most one; on failure nothing changes |
| App.CompletedCount | client/src/App.jsx:58 | the completed count lies between 0 and the length |
| App.CompletedCountAll | client/src/App.jsx:58 | the count equals the length exactly when every task is completed |
| App.CompletedCountNone | client/src/App.jsx:58 | the count is 0 exactly when no task is completed |
| App.RoundedPercent | client/src/App.jsx:59 | `Math.round((c / t) * 100)` on exact rationals as `(200c + t) div 2t`; no contract of its own, and RoundedPercentRange and ProgressExamples state what it computes |
| App.RoundedPercentRange | client/src/App.jsx:59 | the rounded percentage lies in [0, 100]; it is 100 exactly when at most one task in 200 is incomplete, and 0 exactly when fewer than one in 200 is completed |
| App.Progress | client/src/App.jsx:59 | progress always lies in [0, 100] |
| App.ProgressFull | client/src/App.jsx:59 | the exact condition for 100; all completed gives 100; with fewer than 200 tasks, 100 exactly when all are completed |
| App.ProgressZero | client/src/App.jsx:59 | an empty list shows 0; the exact condition for 0; none completed gives 0; with at most 200 tasks, 0 exactly when none is completed |
| App.ProgressExamples | client/src/App.jsx:59 | 1 of 2 gives 50, 1 of 3 gives 33, 2 of 3 gives 67 |
| Sync.FetchMirrors | client/src/App.jsx:19-29 | a fetch leaves the server unchanged, ends with the client showing the server's list and loading cleared |
| Sync.AddMirrors | client/src/App.jsx:31-38 | after an add round trip the client shows the server's list, whether the title was accepted or rejected |
| Sync.ToggleMirrors | client/src/App.jsx:40-47 | after a toggle round trip the client shows the server's list |
| Sync.UpdateByIdMirrors | client/src/App.jsx:43 | the client's `map` with the server's reply puts the patched record where the server did, or changes nothing on 404 |
| Sync.ToggleReadsId | client/src/App.jsx:42 | the PUT the client sends is handled as an update of exactly that id with the negated flag |
| Sync.DeleteReadsId | client/src/App.jsx:51 | the DELETE the client sends is handled as a delete of exactly that id |
| Sync.ToggleFlipsOnlyThatFlag | client/src/App.jsx:42 | toggling a stored task with its shown flag flips that flag on the server, and nothing else changes |
| Sync.DeleteMirrors | client/src/App.jsx:49-56 | after a delete round trip the client shows the server's list |
| Sync.DeleteByIdMirrors | client/src/App.jsx:52 | the client's `filter` removes the one position the server spliced out, or nothing on 404 |
| Sync.RoundTripMirrors | client/src/App.jsx:19-56 | any one round trip keeps the client showing the server's list and keeps the store invariant |
| Sync.RunMirrors | client/src/App.jsx:19-56 | any run of sequential round trips keeps the client showing the server's list and keeps the store invariant |
| Sync.RunServesRequests | client/src/App.jsx:19-56 | the server's state after a client run is the server serving the requests the actions send, in order |
| Sync.RunCounterNeverGoesBack | server/server.js:28 | along any client run the server's counter never decreases |
| Sync.StartMirrors | client/src/App.jsx:11-12 | at start-up the empty client list shows the empty store, which is well-formed |

## Left out

- Express wiring is not modelled. This covers `express.json`, static files, the `/health` route, the SPA fallback route, `PORT` and `app.listen` (server/server.js:1-8, 73-87). It is framework and I/O plumbing. Requests appear as the `Request` datatype and replies as status and body.
- `new Date()` (server/server.js:31) is a `Timestamp` parameter, because the clock is outside the model. The model only stores it and passes it on. In a run of actions, the clock readings are a given sequence.
- JavaScript type confusion is not modelled. A title is modelled as an optional string and `completed` as an optional boolean. So a non-string title, which would make `.trim()` throw, and a non-boolean `completed`, which would be stored verbatim, are outside the model.
- App.Progress: computed on exact rationals, not on IEEE doubles as `Math.round(c / t * 100)` is. When the exact value of `100c / t` is some k + 1/2 but the double product falls just below it, the browser rounds down where the model rounds up. For example, 23 of 40 tasks gives 58 here and 57 in a browser, because `23 / 40 * 100` evaluates to 57.49999999999999.
- Server.TaskStore.Append, Server.ServeAdvancesCounter, Server.ServeAllIssuesFreshIds, Server.DeletedIdNeverReissuedLater: the `taskId` counter is treated as an unbounded integer. In the source it is a JavaScript number. Once it reaches 2^53, `taskId++` (server/server.js:28) hands out 2^53 and leaves the counter at 2^53, because 2^53 + 1 rounds back to it. Every later create would then reuse that id. So the id guarantees, freshness and strict increase included, hold only while `taskId` is below 2^53.
- JsString.ParseInt: integers are unbounded. JavaScript numbers lose precision beyond 2^53, and large numbers print in exponent form, so the round trip between `${id}` and `parseInt` is proved only for the idealised unbounded case.
- axios throws for a non-2xx status, and the model treats any such reply as a failure. A 2xx reply whose body is not the expected record is also treated as a failure. The server never sends one on these routes.
- axios concurrency is not modelled. Each client handler is one atomic transition. Overlapping requests, and the stale `tasks` closure they would read (client/src/App.jsx:34, 43, 52), are outside the model. Only sequential round trips are composed.
- JSON serialisation is taken as the identity on `Task`. The server holds a `Date` in `createdAt`, and `res.json` sends the client an ISO string. `Sync.Mirrors` compares the two as one value, so the model treats them as the same.
- `console.error` and the rendering are not modelled. This covers the JSX markup, TaskList, TaskItem, TaskForm and ProgressBar. They only display state. Their one guard, the blank-input check in the form, duplicates the server's validation.
- Server.TaskStore.Update: the source mutates the object returned by `find`. The list holds a reference to that object, so the change appears in the list. The model writes the patched record back at its position. That has the same effect, because no other holder of that object exists in the server.
