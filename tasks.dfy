/** The task record and the requests and replies of the `/api/tasks` routes,
    as they travel between the browser client and the server. */
module Tasks {
  import opened Wrappers

  /** The moment `new Date()` returned when a task was created; it comes from a
      clock outside the model and is only ever stored and passed on. */
  type Timestamp = int

  datatype Task = Task(id: int, title: string, completed: bool, createdAt: Timestamp)

  /** A request, with only the parts the handlers read: the JSON body fields
      (absent ones as `None`) and the `:id` path segment as Express decodes it
      into `req.params`. */
  datatype Request =
    | Get                                                   // GET /api/tasks
    | Post(title: Option<string>)                           // POST /api/tasks
    | Put(id: string, completed: Option<bool>, title: Option<string>) // PUT /api/tasks/:id
    | Delete(id: string)                                    // DELETE /api/tasks/:id

  datatype Body = OneTask(task: Task) | AllTasks(tasks: seq<Task>) | Error(error: string)

  /** An HTTP status code with its JSON body. */
  datatype Reply = Reply(status: int, body: Body) {
    predicate IsSuccess() { 200 <= status < 300 }
  }
}
