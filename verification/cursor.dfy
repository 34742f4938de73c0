/**
 The two places where the commands walk a query cursor one document at a
 time: login builds the list of pending tasks and takes its length, and
 `get_tasks` copies every task into a list. The cursor's order is the
 store's natural order, which the model leaves open: each loop takes the
 remaining ids in any order.
 */
module Cursor {
  import opened Store
  import opened Commands

  /** The login notification count, one pending task at a time; it agrees
      with the set of the user's pending tasks. */
  method CountPending(tasks: map<int, Task>, uid: UserId) returns (n: nat)
    ensures n == |PendingIds(tasks, uid)|
  {
    n := 0;
    var remaining := tasks.Keys;
    while exists k :: k in remaining
      invariant remaining <= tasks.Keys
      invariant n == |PendingIds(tasks, uid) - remaining|
      decreases remaining
    {
      var k :| k in remaining;
      var before := PendingIds(tasks, uid) - remaining;
      var after := PendingIds(tasks, uid) - (remaining - {k});
      if PendingFor(tasks[k], uid) {
        assert after == before + {k};
        n := n + 1;
      } else {
        assert after == before;
      }
      remaining := remaining - {k};
    }
    assert PendingIds(tasks, uid) - remaining == PendingIds(tasks, uid);
  }

  /** `get_tasks`' listing: every task exactly once, each shown with its own
      id, title, description and status. */
  method ListTasks(tasks: map<int, Task>) returns (views: seq<TaskView>)
    ensures |views| == |tasks|
    ensures forall i :: 0 <= i < |views| ==> views[i].id in tasks && views[i] == ViewOf(views[i].id, tasks[views[i].id])
    ensures forall i, j :: 0 <= i < j < |views| ==> views[i].id != views[j].id
    ensures forall k :: k in tasks ==> exists i :: 0 <= i < |views| && views[i].id == k
    ensures forall v :: v in views <==> v in TaskViews(tasks)
  {
    views := [];
    var remaining := tasks.Keys;
    while exists k :: k in remaining
      invariant remaining <= tasks.Keys
      invariant |views| + |remaining| == |tasks.Keys|
      invariant forall i :: 0 <= i < |views| ==> views[i].id in tasks.Keys - remaining && views[i] == ViewOf(views[i].id, tasks[views[i].id])
      invariant forall i, j :: 0 <= i < j < |views| ==> views[i].id != views[j].id
      invariant forall k :: k in tasks.Keys - remaining ==> exists i :: 0 <= i < |views| && views[i].id == k
      decreases remaining
    {
      var k :| k in remaining;
      ghost var prev := views;
      views := views + [ViewOf(k, tasks[k])];
      forall k' | k' in tasks.Keys - (remaining - {k})
        ensures exists i :: 0 <= i < |views| && views[i].id == k'
      {
        if k' == k {
          assert views[|prev|].id == k;
        } else {
          assert k' in tasks.Keys - remaining;
          var i :| 0 <= i < |prev| && prev[i].id == k';
          assert views[i].id == k';
        }
      }
      remaining := remaining - {k};
    }
    assert forall k :: k in tasks ==> k in tasks.Keys - remaining;
  }
}
