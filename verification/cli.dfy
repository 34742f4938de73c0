/**
 The command group: one transition per command name, dispatching to the
 command functions. `init_db` replaces the whole store by the sample data,
 and `logout` only prints, so it leaves the store as it is.
 */
module Cli {
  import opened Store
  import Commands

  datatype Command =
    | InitDb
    | Register(username: string, password: string)
    | Login(username: string, password: string)
    | Logout
    | GetTasks
    | CreateTask(title: string, description: string, status: string, assignee: string)
    | UpdateTask(id: int, title: string, description: string, status: string)
    | DeleteTask(id: int)

  /** One command against the store. `newId` is the `_id` the store would
      generate if the command inserts a user. */
  function Step(db: Db, cmd: Command, newId: UserId): (r: Commands.Reply)
    ensures cmd.Login? || cmd.Logout? || cmd.GetTasks? ==> r.db == db
    ensures !cmd.InitDb? ==> db.users <= r.db.users
    ensures !cmd.InitDb? && !cmd.Register? ==> r.db.users == db.users
    ensures cmd.Register? ==> r.db.tasks == db.tasks
    ensures cmd.InitDb? ==> r.db == Sample
  {
    match cmd
    case InitDb => Commands.Reply(Sample, Commands.Initialized)
    case Register(u, p) => Commands.Register(db, u, p, newId)
    case Login(u, p) => Commands.Login(db, u, p)
    case Logout => Commands.Reply(db, Commands.LoggedOut)
    case GetTasks => Commands.GetTasks(db)
    case CreateTask(t, d, s, a) => Commands.CreateTask(db, t, d, s, a)
    case UpdateTask(id, t, d, s) => Commands.UpdateTask(db, id, t, d, s)
    case DeleteTask(id) => Commands.DeleteTask(db, id)
  }
}
