/**
 The task-manager commands as transitions of the store: each takes the
 current `Db` and the command's inputs and returns the new `Db` with an
 `Outcome` standing in for the message the command prints.
 */
module Commands {
  import opened Store
  import opened PendingStatus

  datatype Outcome =
    | Initialized
    | Registered
    | UsernameExists
    | LoggedIn(pending: nat)
    | InvalidCredentials
    | LoggedOut
    | TaskList(views: set<TaskView>)
    | NoTasksFound
    | TaskCreated(id: int)
    | AssigneeNotFound
      /** `create_task` on an empty task collection: the id lookup indexes an
          empty cursor and the command aborts with an IndexError. */
    | NoTaskToNumberFrom
    | TaskUpdated
    | TaskDeleted
    | TaskNotFound

  datatype Reply = Reply(db: Db, outcome: Outcome)

  /** `register`: rejects a username that is already taken, otherwise appends
      the new record. `newId` is the `_id` the store generates for it. */
  function Register(db: Db, username: string, password: string, newId: UserId): (r: Reply)
    ensures HasUsername(db.users, username) ==> r == Reply(db, UsernameExists)
    ensures !HasUsername(db.users, username) ==>
      r == Reply(db.(users := db.users + [User(newId, username, password)]), Registered)
  {
    if UsernameIndex(db.users, username) < |db.users| then Reply(db, UsernameExists)
    else Reply(Db(db.users + [User(newId, username, password)], db.tasks), Registered)
  }

  /** A task counted by the login notification for user `uid`. */
  predicate PendingFor(t: Task, uid: UserId)
  {
    t.userId == Some(uid) && IsPending(t.status)
  }

  function PendingIds(tasks: map<int, Task>, uid: UserId): set<int>
  {
    set k | k in tasks && PendingFor(tasks[k], uid)
  }

  /** `login`: succeeds exactly when some record matches both username and
      password, and then reports how many of that user's tasks are pending.
      It never changes the store. */
  function Login(db: Db, username: string, password: string): (r: Reply)
    ensures r.db == db
    ensures r.outcome.LoggedIn? <==> HasCredentials(db.users, username, password)
    ensures !r.outcome.LoggedIn? ==> r.outcome == InvalidCredentials
    ensures r.outcome.LoggedIn? ==>
      exists i :: 0 <= i < |db.users| && db.users[i].username == username && db.users[i].password == password
        && r.outcome.pending == |PendingIds(db.tasks, db.users[i].id)|
  {
    var i := CredentialsIndex(db.users, username, password);
    if i < |db.users| then Reply(db, LoggedIn(|PendingIds(db.tasks, db.users[i].id)|))
    else Reply(db, InvalidCredentials)
  }

  function TaskViews(tasks: map<int, Task>): set<TaskView>
  {
    set k | k in tasks :: ViewOf(k, tasks[k])
  }

  /** `get_tasks`: shows every task, or says there are none; read-only. */
  function GetTasks(db: Db): (r: Reply)
    ensures r.db == db
    ensures r.outcome == NoTasksFound <==> db.tasks == map[]
    ensures db.tasks != map[] ==> r.outcome.TaskList?
    ensures r.outcome.TaskList? ==>
      forall v :: v in r.outcome.views <==> v.id in db.tasks && v == ViewOf(v.id, db.tasks[v.id])
  {
    if exists k :: k in db.tasks then Reply(db, TaskList(TaskViews(db.tasks)))
    else Reply(db, NoTasksFound)
  }

  /** `create_task`: looks the assignee up by username, then inserts the task
      under the largest existing id plus one, owned by the assignee's `_id`. */
  function CreateTask(db: Db, title: string, description: string, status: string, assignee: string): (r: Reply)
    ensures !HasUsername(db.users, assignee) ==> r == Reply(db, AssigneeNotFound)
    ensures HasUsername(db.users, assignee) && db.tasks == map[] ==> r == Reply(db, NoTaskToNumberFrom)
    ensures HasUsername(db.users, assignee) && db.tasks != map[] ==>
      && r.outcome.TaskCreated?
      && r.outcome.id !in db.tasks
      && r.outcome.id - 1 in db.tasks
      && (forall k :: k in db.tasks ==> k < r.outcome.id)
      && r.db.users == db.users
      && r.db.tasks == db.tasks[r.outcome.id :=
           Task(title, description, status, Some(db.users[UsernameIndex(db.users, assignee)].id))]
  {
    var u := UsernameIndex(db.users, assignee);
    if u == |db.users| then Reply(db, AssigneeNotFound)
    else if !exists k :: k in db.tasks then Reply(db, NoTaskToNumberFrom)
    else
      var id := MaxId(db.tasks.Keys) + 1;
      Reply(db.(tasks := db.tasks[id := Task(title, description, status, Some(db.users[u].id))]), TaskCreated(id))
  }

  /** A supplied field overwrites only when it is a non-empty string. */
  function Overwrite(current: string, supplied: string): string
  {
    if supplied != "" then supplied else current
  }

  /** `update_task`: partial update of an existing task. */
  function UpdateTask(db: Db, id: int, title: string, description: string, status: string): (r: Reply)
    ensures id !in db.tasks ==> r == Reply(db, TaskNotFound)
    ensures id in db.tasks ==>
      && r.outcome == TaskUpdated
      && r.db.users == db.users
      && r.db.tasks.Keys == db.tasks.Keys
      && (forall k :: k in db.tasks && k != id ==> r.db.tasks[k] == db.tasks[k])
      && (title != "" ==> r.db.tasks[id].title == title)
      && (title == "" ==> r.db.tasks[id].title == db.tasks[id].title)
      && (description != "" ==> r.db.tasks[id].description == description)
      && (description == "" ==> r.db.tasks[id].description == db.tasks[id].description)
      && (status != "" ==> r.db.tasks[id].status == status)
      && (status == "" ==> r.db.tasks[id].status == db.tasks[id].status)
      && r.db.tasks[id].userId == db.tasks[id].userId
  {
    if id !in db.tasks then Reply(db, TaskNotFound)
    else
      var t := db.tasks[id];
      var t' := t.(title := Overwrite(t.title, title),
                   description := Overwrite(t.description, description),
                   status := Overwrite(t.status, status));
      Reply(db.(tasks := db.tasks[id := t']), TaskUpdated)
  }

  /** `delete_task`: removes an existing task. */
  function DeleteTask(db: Db, id: int): (r: Reply)
    ensures id !in db.tasks ==> r == Reply(db, TaskNotFound)
    ensures id in db.tasks ==>
      && r.outcome == TaskDeleted
      && r.db.users == db.users
      && r.db.tasks.Keys == db.tasks.Keys - {id}
      && (forall k :: k in r.db.tasks ==> r.db.tasks[k] == db.tasks[k])
  {
    if id !in db.tasks then Reply(db, TaskNotFound)
    else Reply(db.(tasks := db.tasks - {id}), TaskDeleted)
  }
}
