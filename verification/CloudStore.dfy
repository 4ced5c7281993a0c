/** The server's command and task tables, changed statement by statement. */
module CloudStore {
  import opened Bytes
  import opened Queue
  import Commands
  import PatrolTasks

  class Store {
    var commands: seq<Commands.Command>
    var tasks: seq<PatrolTasks.Task>

    ghost predicate Ok()
      reads this
    {
      UniqueIds(commands) && UniqueIds(tasks)
    }

    constructor ()
      ensures Ok() && commands == [] && tasks == []
    {
      commands, tasks := [], [];
    }

    /** The primary key refuses a second row with the same id. */
    method CreateCommand(id: string, station: string, now: nat) returns (ok: bool)
      requires Ok()
      modifies this`commands
      ensures Ok() && commands == Commands.Step(old(commands), Commands.Create(id, station, now)).0
      ensures ok <==> Find(old(commands), id) == |old(commands)|
    {
      if Find(commands, id) < |commands| {
        return false;
      }
      commands := commands + [Row(id, station, now, Commands.Pending, None, Commands.Columns(None, None, None))];
      return true;
    }

    method PendingCommands(station: string, now: nat) returns (rows: seq<Commands.Command>)
      requires Ok()
      modifies this`commands
      ensures Ok()
      ensures var (t, s) := Commands.Step(old(commands), Commands.Pull(station, now));
        commands == t && |rows| == |s| && forall k :: 0 <= k < |s| ==> rows[k] == t[s[k]]
    {
      commands, rows := PullRows(commands, station, Commands.Pending, Commands.Pulled, now);
      StillUnique(old(commands), commands);
    }

    /** No condition but the id: whatever the status was, it becomes the reported one. */
    method AcknowledgeCommand(id: string, reply: Commands.Reply, error: Option<string>, now: nat)
      requires Ok()
      modifies this`commands
      ensures Ok() && commands == Commands.Step(old(commands), Commands.Acknowledge(id, reply, error, now)).0
    {
      ghost var at := Find(commands, id);
      for i := 0 to |commands|
        invariant |commands| == |old(commands)|
        invariant commands ==
                  if at < i then old(commands)[at := Commands.Acknowledged(old(commands)[at], reply, error, now)]
                  else old(commands)
      {
        if commands[i].id == id {
          FindIs(old(commands), i);
          var columns := commands[i].extra.(acknowledgedAt := Some(now), error := error);
          commands := commands[i := commands[i].(status := Commands.ReplyStatus(reply), extra := columns)];
        }
      }
      StillUnique(old(commands), commands);
    }

    method CancelCommand(id: string, now: nat)
      requires Ok()
      modifies this`commands
      ensures Ok() && commands == Commands.Step(old(commands), Commands.Cancel(id, now)).0
    {
      ghost var at := Find(commands, id);
      for i := 0 to |commands|
        invariant |commands| == |old(commands)|
        invariant commands == if at < i then old(commands)[at := Commands.Withdrawn(old(commands)[at], now)]
                              else old(commands)
      {
        if commands[i].id == id {
          FindIs(old(commands), i);
          if commands[i].status == Commands.Pending || commands[i].status == Commands.Pulled {
            commands := commands[i := commands[i].(status := Commands.Cancelled,
                                                   extra := commands[i].extra.(cancelledAt := Some(now)))];
          }
        }
      }
      StillUnique(old(commands), commands);
    }

    method CreatePatrolTask(id: string, station: string, now: nat) returns (ok: bool)
      requires Ok()
      modifies this`tasks
      ensures Ok() && tasks == PatrolTasks.Step(old(tasks), PatrolTasks.Create(id, station, now)).0
      ensures ok <==> Find(old(tasks), id) == |old(tasks)|
    {
      if Find(tasks, id) < |tasks| {
        return false;
      }
      tasks := tasks + [Row(id, station, now, PatrolTasks.Pending, None, PatrolTasks.Columns(None, None, None))];
      return true;
    }

    method PendingPatrolTasks(station: string, now: nat) returns (rows: seq<PatrolTasks.Task>)
      requires Ok()
      modifies this`tasks
      ensures Ok()
      ensures var (t, s) := PatrolTasks.Step(old(tasks), PatrolTasks.Pull(station, now));
        tasks == t && |rows| == |s| && forall k :: 0 <= k < |s| ==> rows[k] == t[s[k]]
    {
      tasks, rows := PullRows(tasks, station, PatrolTasks.Pending, PatrolTasks.Pulled, now);
      StillUnique(old(tasks), tasks);
    }

    /** False is where the source throws: the transition is not allowed. An unknown task changes nothing. */
    method UpdatePatrolTaskStatus(id: string, status: PatrolTasks.Status, error: Option<string>, now: nat)
      returns (ok: bool)
      requires Ok()
      modifies this`tasks
      ensures Ok() && tasks == PatrolTasks.Step(old(tasks), PatrolTasks.Update(id, status, error, now)).0
      ensures var i := Find(old(tasks), id);
        ok <==> i == |old(tasks)| || PatrolTasks.Allowed(old(tasks)[i].status, status)
    {
      var i := Find(tasks, id);
      if i == |tasks| {
        return true;
      }
      var current := tasks[i];
      if !PatrolTasks.Allowed(current.status, status) {
        return false;
      }
      var startedAt := current.extra.startedAt;
      if status == PatrolTasks.Running && startedAt.None? {
        startedAt := Some(now);
      }
      var finishedAt := current.extra.finishedAt;
      if status == PatrolTasks.Completed || status == PatrolTasks.Failed {
        finishedAt := Some(now);
      }
      var message := if error.Some? then error else current.extra.error;
      tasks := tasks[i := current.(status := status, extra := PatrolTasks.Columns(startedAt, finishedAt, message))];
      StillUnique(old(tasks), tasks);
      return true;
    }
  }

  lemma StillUnique<S, E>(t: seq<Row<S, E>>, u: seq<Row<S, E>>)
    requires UniqueIds(t) && |u| == |t| && forall i :: 0 <= i < |t| ==> u[i].id == t[i].id
    ensures UniqueIds(u)
  {
    forall i, j | 0 <= i < j < |u|
      ensures u[i].id != u[j].id
    {
      assert t[i].id != t[j].id;
    }
  }
}
