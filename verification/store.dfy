/**
 The two collections the command-line task manager reads and writes.

 `users` holds `{username, password}` records in list order, the model's
 stand-in for the store's natural order (each record also gets a
 store-generated `_id`), and `tasks` maps
 an integer `_id` to `{title, description, status, user_id}`. The store
 itself is replaced by this immutable value; each command is a pure
 function over it.
 */
module Store {

  datatype Option<T> = None | Some(value: T)

  /** A store-generated user `_id`: opaque, compared only for equality. */
  datatype UserId = UserId(oid: nat)

  datatype User = User(id: UserId, username: string, password: string)

  /** `userId` is absent for tasks inserted without an assignee (the sample
      tasks of `init_db`). */
  datatype Task = Task(title: string, description: string, status: string, userId: Option<UserId>)

  datatype Db = Db(users: seq<User>, tasks: map<int, Task>)

  /** What `get_tasks` shows of one task. */
  datatype TaskView = TaskView(id: int, title: string, description: string, status: string)

  function ViewOf(id: int, t: Task): TaskView
  {
    TaskView(id, t.title, t.description, t.status)
  }

  predicate HasUsername(users: seq<User>, name: string)
  {
    exists i :: 0 <= i < |users| && users[i].username == name
  }

  predicate HasCredentials(users: seq<User>, name: string, password: string)
  {
    exists i :: 0 <= i < |users| && users[i].username == name && users[i].password == password
  }

  predicate HasUserId(users: seq<User>, id: UserId)
  {
    exists i :: 0 <= i < |users| && users[i].id == id
  }

  /** Position of the record a `find_one({'username': name})` returns: the
      first one with that username, or `|users|` when there is none. */
  function UsernameIndex(users: seq<User>, name: string): (i: nat)
    ensures i <= |users|
    ensures i < |users| ==> users[i].username == name
    ensures forall j :: 0 <= j < i ==> users[j].username != name
  {
    if users == [] then 0
    else if users[0].username == name then 0
    else 1 + UsernameIndex(users[1..], name)
  }

  /** Position of the record a `find_one({'username': name, 'password':
      password})` returns, or `|users|` when there is none. */
  function CredentialsIndex(users: seq<User>, name: string, password: string): (i: nat)
    ensures i <= |users|
    ensures i < |users| ==> users[i].username == name && users[i].password == password
    ensures forall j :: 0 <= j < i ==> !(users[j].username == name && users[j].password == password)
  {
    if users == [] then 0
    else if users[0].username == name && users[0].password == password then 0
    else 1 + CredentialsIndex(users[1..], name, password)
  }

  /** The largest task id: what sorting the tasks by `_id` descending and
      taking the first yields. */
  function MaxId(ids: set<int>): (m: int)
    requires exists k :: k in ids
    ensures m in ids
    ensures forall k :: k in ids ==> k <= m
  {
    MaxExists(ids);
    var m :| m in ids && forall k :: k in ids ==> k <= m;
    m
  }

  /** A finite non-empty set of ids has a largest element. */
  lemma {:induction false} MaxExists(ids: set<int>)
    requires exists k :: k in ids
    ensures exists m :: m in ids && forall k :: k in ids ==> k <= m
    decreases |ids|
  {
    var x :| x in ids;
    var rest := ids - {x};
    if exists k :: k in rest {
      MaxExists(rest);
      var m :| m in rest && forall k :: k in rest ==> k <= m;
      var top := if x > m then x else m;
      forall k | k in ids
        ensures k <= top
      {
        if k != x {
          assert k in rest;
        }
      }
    } else {
      assert forall k :: k in ids ==> k == x;
    }
  }

  /** What the commands keep true of the store: usernames and user ids are
      unique, and every task's `user_id` names a registered user. */
  ghost predicate Valid(db: Db)
  {
    && (forall i, j :: 0 <= i < j < |db.users| ==> db.users[i].username != db.users[j].username)
    && (forall i, j :: 0 <= i < j < |db.users| ==> db.users[i].id != db.users[j].id)
    && (forall k :: k in db.tasks && db.tasks[k].userId.Some? ==> HasUserId(db.users, db.tasks[k].userId.value))
  }

  /** The sample data `init_db` loads: two users and two tasks without an
      assignee. */
  const Sample: Db := Db(
    [User(UserId(0), "admin", "adminpass"), User(UserId(1), "user1", "user1pass")],
    map[1 := Task("Task 1", "Description 1", "Pending", None),
        2 := Task("Task 2", "Description 2", "Completed", None)])

  lemma SampleValid()
    ensures Valid(Sample)
  {
  }
}
