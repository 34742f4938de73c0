/**
 Properties that relate several commands: rejection of a second
 registration, what login reports after the other commands, create and
 delete as inverses (and the id reuse that follows), update idempotence,
 and the store invariant every command keeps.
 */
module Properties {
  import opened Store
  import opened PendingStatus
  import opened Commands
  import Cli

  /** Registering a taken username again is rejected and changes nothing,
      whatever the password. */
  lemma RegisterTwiceRejected(db: Db, username: string, p1: string, p2: string, id1: UserId, id2: UserId)
    ensures var once := Register(db, username, p1, id1);
      Register(once.db, username, p2, id2) == Reply(once.db, UsernameExists)
  {
    var once := Register(db, username, p1, id1);
    if !HasUsername(db.users, username) {
      assert once.db.users[|db.users|].username == username;
    }
  }

  /** In a valid store, the login of a registered user succeeds exactly with
      that user's password and reports that user's pending tasks. */
  lemma LoginOfRegisteredUser(db: Db, i: int, password: string)
    requires Valid(db)
    requires 0 <= i < |db.users|
    ensures password == db.users[i].password ==>
      Login(db, db.users[i].username, password) == Reply(db, LoggedIn(|PendingIds(db.tasks, db.users[i].id)|))
    ensures password != db.users[i].password ==>
      Login(db, db.users[i].username, password) == Reply(db, InvalidCredentials)
  {
  }

  /** A newly registered user logs in at once with no pending tasks: no task
      can name an `_id` that no user had. */
  lemma RegisterThenLogin(db: Db, username: string, password: string, newId: UserId)
    requires Valid(db)
    requires !HasUsername(db.users, username)
    requires !HasUserId(db.users, newId)
    ensures Login(Register(db, username, password, newId).db, username, password).outcome == LoggedIn(0)
  {
    var db' := Register(db, username, password, newId).db;
    assert Valid(db') by { RegisterKeepsValid(db, username, password, newId); }
    LoginOfRegisteredUser(db', |db.users|, password);
    assert PendingIds(db'.tasks, newId) == {} by {
      forall k | k in db'.tasks && PendingFor(db'.tasks[k], newId)
        ensures false
      {
      }
    }
  }

  /** With the sample data, the admin logs in with no pending tasks: the
      sample task marked "Pending" has no `user_id`. */
  lemma SampleAdminHasNoPendingTasks()
    ensures Login(Sample, "admin", "adminpass") == Reply(Sample, LoggedIn(0))
  {
    SampleValid();
    LoginOfRegisteredUser(Sample, 0, "adminpass");
    assert PendingIds(Sample.tasks, UserId(0)) == {} by {
      forall k | k in Sample.tasks && PendingFor(Sample.tasks[k], UserId(0))
        ensures false
      {
      }
    }
  }

  /** Deleting the task just created gives back the store as it was. */
  lemma DeleteUndoesCreate(db: Db, title: string, description: string, status: string, assignee: string)
    requires CreateTask(db, title, description, status, assignee).outcome.TaskCreated?
    ensures var c := CreateTask(db, title, description, status, assignee);
      DeleteTask(c.db, c.outcome.id) == Reply(db, TaskDeleted)
  {
    var c := CreateTask(db, title, description, status, assignee);
    var d := DeleteTask(c.db, c.outcome.id);
    assert d.db.tasks == db.tasks;
  }

  /** Task ids are reused: after the task just created is deleted, the next
      creation hands out the same id again. */
  lemma DeletedIdIsReused(db: Db, title: string, description: string, status: string, assignee: string,
                          title2: string, description2: string, status2: string, assignee2: string)
    requires CreateTask(db, title, description, status, assignee).outcome.TaskCreated?
    requires HasUsername(db.users, assignee2)
    ensures var c := CreateTask(db, title, description, status, assignee);
      var again := CreateTask(DeleteTask(c.db, c.outcome.id).db, title2, description2, status2, assignee2);
      again.outcome == TaskCreated(c.outcome.id)
  {
    DeleteUndoesCreate(db, title, description, status, assignee);
    var c := CreateTask(db, title, description, status, assignee);
    var again := CreateTask(db, title2, description2, status2, assignee2);
    assert db.tasks != map[] by { assert c.outcome.id - 1 in db.tasks; }
    assert again.outcome.id == c.outcome.id by {
      assert again.outcome.id - 1 in db.tasks && c.outcome.id - 1 in db.tasks;
    }
  }

  /** The next id is the largest remaining id plus one, so a gap below the
      deleted id is refilled: with tasks 1 and 3, deleting 3 makes the next
      creation return 2. */
  lemma DeletingLargestRefillsGap(db: Db, title: string, description: string, status: string, assignee: string)
    requires db.tasks.Keys == {1, 3}
    requires HasUsername(db.users, assignee)
    ensures CreateTask(DeleteTask(db, 3).db, title, description, status, assignee).outcome == TaskCreated(2)
  {
    var d := DeleteTask(db, 3).db;
    assert d.tasks.Keys == {1};
    var c := CreateTask(d, title, description, status, assignee);
    assert 1 in d.tasks && c.outcome.id - 1 in d.tasks;
  }

  /** Creating a task whose status reads as pending raises the assignee's
      login count by one; other users' counts do not move. */
  lemma CreatePendingTaskCountsAtLogin(db: Db, title: string, description: string, status: string, assignee: string, other: UserId)
    requires IsPending(status)
    requires CreateTask(db, title, description, status, assignee).outcome.TaskCreated?
    ensures var c := CreateTask(db, title, description, status, assignee);
      var owner := db.users[UsernameIndex(db.users, assignee)].id;
      && PendingIds(c.db.tasks, owner) == PendingIds(db.tasks, owner) + {c.outcome.id}
      && |PendingIds(c.db.tasks, owner)| == |PendingIds(db.tasks, owner)| + 1
      && (other != owner ==> PendingIds(c.db.tasks, other) == PendingIds(db.tasks, other))
  {
    var c := CreateTask(db, title, description, status, assignee);
    var owner := db.users[UsernameIndex(db.users, assignee)].id;
    assert PendingIds(c.db.tasks, owner) == PendingIds(db.tasks, owner) + {c.outcome.id};
    assert c.outcome.id !in PendingIds(db.tasks, owner);
    if other != owner {
      assert PendingIds(c.db.tasks, other) == PendingIds(db.tasks, other);
    }
  }

  /** An update with every field empty leaves the store exactly as it was. */
  lemma UpdateWithNothingIsNoOp(db: Db, id: int)
    ensures UpdateTask(db, id, "", "", "").db == db
  {
    if id in db.tasks {
      var r := UpdateTask(db, id, "", "", "");
      assert r.db.tasks[id] == db.tasks[id];
      assert r.db.tasks == db.tasks;
    }
  }

  /** Applying the same update twice is the same as applying it once. */
  lemma UpdateIdempotent(db: Db, id: int, title: string, description: string, status: string)
    ensures var once := UpdateTask(db, id, title, description, status);
      UpdateTask(once.db, id, title, description, status).db == once.db
  {
    var once := UpdateTask(db, id, title, description, status);
    if id in db.tasks {
      var twice := UpdateTask(once.db, id, title, description, status);
      assert twice.db.tasks[id] == once.db.tasks[id];
      assert twice.db.tasks == once.db.tasks;
    }
  }

  /** A second delete of the same id finds nothing and changes nothing. */
  lemma DeleteTwiceNotFound(db: Db, id: int)
    ensures var once := DeleteTask(db, id);
      DeleteTask(once.db, id) == Reply(once.db, TaskNotFound)
  {
  }

  lemma RegisterKeepsValid(db: Db, username: string, password: string, newId: UserId)
    requires Valid(db)
    requires !HasUserId(db.users, newId)
    ensures Valid(Register(db, username, password, newId).db)
  {
    var db' := Register(db, username, password, newId).db;
    forall k | k in db'.tasks && db'.tasks[k].userId.Some?
      ensures HasUserId(db'.users, db'.tasks[k].userId.value)
    {
      var i :| 0 <= i < |db.users| && db.users[i].id == db.tasks[k].userId.value;
      assert db'.users[i] == db.users[i];
    }
  }

  /** Every command keeps the store valid, given a never-used `_id` for a
      registration. */
  lemma StepKeepsValid(db: Db, cmd: Cli.Command, newId: UserId)
    requires Valid(db)
    requires cmd.Register? ==> !HasUserId(db.users, newId)
    ensures Valid(Cli.Step(db, cmd, newId).db)
  {
    match cmd
    case InitDb => SampleValid();
    case Register(u, p) => RegisterKeepsValid(db, u, p, newId);
    case CreateTask(t, d, s, a) =>
      var r := Cli.Step(db, cmd, newId);
      if r.outcome.TaskCreated? {
        var i := UsernameIndex(db.users, a);
        assert HasUserId(db.users, db.users[i].id);
      }
    case UpdateTask(id, t, d, s) =>
    case DeleteTask(id) =>
    case Login(u, p) =>
    case Logout =>
    case GetTasks =>
  }

  /* A session over the sample data: a new user "alice" is assigned a
     "Pending" task, which gets the next id, 3, and shows up at her login
     until its status is changed to "Completed". */

  const Alice := User(UserId(2), "alice", "pw1")
  const AliceTask := Task("T1", "", "Pending", Some(UserId(2)))
  const Registered1 := Db(Sample.users + [Alice], Sample.tasks)
  const Assigned2 := Db(Registered1.users, Registered1.tasks[3 := AliceTask])
  const Completed3 := Db(Registered1.users, Registered1.tasks[3 := AliceTask.(status := "Completed")])

  lemma SessionRegister()
    ensures Register(Sample, "alice", "pw1", UserId(2)) == Reply(Registered1, Registered)
    ensures Valid(Registered1)
  {
    assert !HasUsername(Sample.users, "alice");
    SampleValid();
    RegisterKeepsValid(Sample, "alice", "pw1", UserId(2));
  }

  lemma SessionCreate()
    ensures CreateTask(Registered1, "T1", "", "Pending", "alice") == Reply(Assigned2, TaskCreated(3))
  {
    var c := CreateTask(Registered1, "T1", "", "Pending", "alice");
    assert Registered1.users[2].username == "alice";
    assert UsernameIndex(Registered1.users, "alice") == 2;
    assert Registered1.tasks.Keys == {1, 2};
    assert 2 in Registered1.tasks && c.outcome.id - 1 in Registered1.tasks;
  }

  lemma SessionStoresValid()
    ensures Valid(Assigned2) && Valid(Completed3)
  {
    SessionRegister();
    SessionCreate();
    SessionUpdate();
    StepKeepsValid(Registered1, Cli.CreateTask("T1", "", "Pending", "alice"), UserId(2));
    StepKeepsValid(Assigned2, Cli.UpdateTask(3, "", "", "Completed"), UserId(2));
  }

  lemma SessionPendingSets()
    ensures PendingIds(Assigned2.tasks, UserId(2)) == {3}
    ensures PendingIds(Completed3.tasks, UserId(2)) == {}
  {
    PendingExamples();
    assert Assigned2.tasks.Keys == {1, 2, 3};
    assert Completed3.tasks.Keys == {1, 2, 3};
    assert PendingFor(Assigned2.tasks[3], UserId(2));
  }

  lemma SessionLoginSeesTask()
    ensures Login(Assigned2, "alice", "pw1") == Reply(Assigned2, LoggedIn(1))
  {
    SessionStoresValid();
    SessionPendingSets();
    assert Assigned2.users[2] == Alice;
    LoginOfRegisteredUser(Assigned2, 2, "pw1");
  }

  lemma SessionUpdate()
    ensures UpdateTask(Assigned2, 3, "", "", "Completed") == Reply(Completed3, TaskUpdated)
  {
    var r := UpdateTask(Assigned2, 3, "", "", "Completed");
    assert r.db.tasks == Completed3.tasks;
  }

  lemma SessionLoginAfterUpdate()
    ensures Login(Completed3, "alice", "pw1") == Reply(Completed3, LoggedIn(0))
  {
    SessionStoresValid();
    SessionPendingSets();
    assert Completed3.users[2] == Alice;
    LoginOfRegisteredUser(Completed3, 2, "pw1");
  }
}
