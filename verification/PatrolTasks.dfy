/** Patrol tasks: handed out like commands, then moved through a fixed set of transitions. */
module PatrolTasks {
  import opened Bytes
  import opened Queue

  datatype Status = Pending | Pulled | Running | Completed | Failed | Cancelled

  datatype Columns = Columns(startedAt: Option<nat>, finishedAt: Option<nat>, error: Option<string>)

  type Task = Row<Status, Columns>

  predicate Allowed(from: Status, to: Status) {
    match from
    case Pending => to == Pulled || to == Running || to == Cancelled
    case Pulled => to == Running || to == Failed || to == Cancelled
    case Running => to == Completed || to == Failed
    case _ => false
  }

  datatype Call =
    | Create(id: string, station: string, now: nat)
    | Pull(station: string, now: nat)
    | Update(id: string, status: Status, error: Option<string>, now: nat)

  function Created(id: string, station: string, now: nat): Task {
    Row(id, station, now, Pending, None, Columns(None, None, None))
  }

  function Moved(t: Task, status: Status, error: Option<string>, now: nat): Task {
    t.(status := status,
       extra := Columns(
         if status == Running && t.extra.startedAt.None? then Some(now) else t.extra.startedAt,
         if status == Completed || status == Failed then Some(now) else t.extra.finishedAt,
         if error.Some? then error else t.extra.error))
  }

  /** The table after a call, and the rows handed out by it. A transition that is not allowed is refused. */
  function Step(t: seq<Task>, call: Call): (r: (seq<Task>, seq<nat>))
    ensures Indices(r.0, r.1)
  {
    match call
    case Create(id, station, now) =>
      (if Find(t, id) < |t| then t else t + [Created(id, station, now)], [])
    case Pull(station, now) =>
      var s := PullOrder(t, station, Pending);
      (Marked(t, s, Pulled, now), s)
    case Update(id, status, error, now) =>
      var i := Find(t, id);
      (if i < |t| && Allowed(t[i].status, status) then t[i := Moved(t[i], status, error, now)] else t, [])
  }

  datatype State = State(table: seq<Task>, log: seq<nat>)

  function After(s: State, call: Call): State {
    var (t, handed) := Step(s.table, call);
    State(t, s.log + handed)
  }

  function Run(s: State, calls: seq<Call>): State
    decreases |calls|
  {
    if calls == [] then s else After(Run(s, calls[..|calls| - 1]), calls[|calls| - 1])
  }

  /** Calls take effect one after the other; what each hands out follows what those before it have. */
  lemma {:induction false} RunInTurn(s: State, first: Call, rest: seq<Call>)
    ensures Run(s, []) == s
    ensures var (table, handed) := Step(s.table, first);
      Run(s, [first] + rest) == Run(State(table, s.log + handed), rest)
    decreases |rest|
  {
    hide Step;
    var all := [first] + rest;
    if rest == [] {
      assert all[..|all| - 1] == [];
    } else {
      var front := rest[..|rest| - 1];
      assert all[..|all| - 1] == [first] + front;
      RunInTurn(s, first, front);
    }
  }

  const EMPTY := State([], [])

  // Handing out ---------------------------------------------------------------------------------

  lemma StepFollows(t: seq<Task>, call: Call)
    requires !call.Create?
    ensures Follows(t, Step(t, call).0, Pending)
  {
    match call
    case Pull(station, now) => PullFollows(t, station, Pending, Pulled, now);
    case _ =>
  }

  lemma AfterFair(s: State, call: Call)
    requires Fair(s.table, s.log, Pending)
    ensures Fair(After(s, call).table, After(s, call).log, Pending)
  {
    hide Fair;
    assert s.log + [] == s.log;
    match call
    case Create(id, station, now) =>
      if Find(s.table, id) == |s.table| {
        FairEnter(s.table, s.log, Pending, Created(id, station, now));
      }
    case Pull(station, now) => FairPull(s.table, s.log, station, Pending, Pulled, now);
    case _ =>
      StepFollows(s.table, call);
      FairFollows(s.table, Step(s.table, call).0, s.log, Pending);
  }

  lemma {:induction false} RunFair(s: State, calls: seq<Call>)
    requires Fair(s.table, s.log, Pending)
    ensures Fair(Run(s, calls).table, Run(s, calls).log, Pending)
    decreases |calls|
  {
    hide After, Fair;
    if calls != [] {
      RunFair(s, calls[..|calls| - 1]);
      AfterFair(Run(s, calls[..|calls| - 1]), calls[|calls| - 1]);
    }
  }

  /** No task is handed out twice; a pull hands out exactly the waiting tasks of its station, oldest first. */
  lemma HandedOutOnce(calls: seq<Call>, station: string, now: nat)
    ensures var s := Run(EMPTY, calls);
      var handed := Step(s.table, Pull(station, now)).1;
      && UniqueIds(s.table) && NoRepeats(s.log) && NoRepeats(s.log + handed) && Ordered(s.table, handed)
      && forall i :: i in handed <==>
           0 <= i < |s.table| && s.table[i].station == station && s.table[i].status == Pending
  {
    hide PullOrder, Marked;
    RunFair(EMPTY, calls);
    var s := Run(EMPTY, calls);
    FairPull(s.table, s.log, station, Pending, Pulled, now);
    PullSelects(s.table, station, Pending);
  }

  /** A task that no longer waits and was not handed out never will be. */
  lemma {:induction false} NeverAgain(s: State, i: nat, calls: seq<Call>)
    requires Fair(s.table, s.log, Pending) && i < |s.table| && s.table[i].status != Pending && i !in s.log
    ensures var u := Run(s, calls); i < |u.table| && u.table[i].status != Pending && i !in u.log
    decreases |calls|
  {
    hide PullOrder, Marked, Step, After, Fair;
    if calls != [] {
      var front, last := calls[..|calls| - 1], calls[|calls| - 1];
      NeverAgain(s, i, front);
      NotThisTime(Run(s, front), i, last);
    }
  }

  lemma NotThisTime(s: State, i: nat, call: Call)
    requires i < |s.table| && s.table[i].status != Pending && i !in s.log
    ensures var u := After(s, call); i < |u.table| && u.table[i].status != Pending && i !in u.log
  {
    hide PullOrder, Marked;
    match call
    case Create(id, station, now) =>
    case Pull(station, now) => PullSelects(s.table, station, Pending);
    case _ => StepFollows(s.table, call);
  }

  /** A task that an update takes out of the queue, in particular one cancelled while it waits, is never
      handed out, before or after. */
  lemma CancelledIsNeverHandedOut(
    before: seq<Call>, id: string, status: Status, error: Option<string>, now: nat, after: seq<Call>)
    requires var t := Run(EMPTY, before).table; Find(t, id) < |t| && t[Find(t, id)].status == Pending
    requires Allowed(Pending, status)
    ensures var i := Find(Run(EMPTY, before).table, id);
      i !in Run(After(Run(EMPTY, before), Update(id, status, error, now)), after).log
  {
    hide After, Fair, Run;
    EmptyFair();
    RunFair(EMPTY, before);
    var s := Run(EMPTY, before);
    var i, u := Find(s.table, id), After(s, Update(id, status, error, now));
    AfterFair(s, Update(id, status, error, now));
    WaitingNotLogged(s, i);
    UpdateEffect(s, id, status, error, now);
    NeverAgain(u, i, after);
  }

  lemma EmptyFair()
    ensures Fair(EMPTY.table, EMPTY.log, Pending)
  {
  }

  lemma WaitingNotLogged(s: State, i: nat)
    requires Fair(s.table, s.log, Pending) && i < |s.table| && s.table[i].status == Pending
    ensures i !in s.log
  {
  }

  lemma UpdateEffect(s: State, id: string, status: Status, error: Option<string>, now: nat)
    requires Find(s.table, id) < |s.table| && s.table[Find(s.table, id)].status == Pending
    requires Allowed(Pending, status)
    ensures var u, i := After(s, Update(id, status, error, now)), Find(s.table, id);
      |u.table| == |s.table| && u.table[i].status == status != Pending && u.log == s.log
  {
  }

  // Creation order ------------------------------------------------------------------------------

  /** The clock did not go backwards between the calls. */
  predicate ClockRuns(calls: seq<Call>) {
    forall i, j :: 0 <= i < j < |calls| ==> calls[i].now <= calls[j].now
  }

  /** Rows are in order of age, and none is from the future. */
  ghost predicate Aged(s: State, now: nat) {
    && Aging(s.table) && (forall i :: 0 <= i < |s.table| ==> s.table[i].createdAt <= now)
    && Indices(s.table, s.log) && InTurn(s.table, s.log, Pending)
  }

  lemma AfterAged(s: State, call: Call, now: nat)
    requires Aged(s, now) && now <= call.now
    ensures Aged(After(s, call), call.now)
  {
    hide InTurn, PullOrder, Marked;
    assert s.log + [] == s.log;
    match call
    case Create(id, station, now) => InTurnEnter(s.table, s.log, Pending, Created(id, station, now));
    case Pull(station, now) =>
      PullFollows(s.table, station, Pending, Pulled, now);
      InTurnPull(s.table, s.log, station, Pending, Pulled, now);
    case _ =>
      StepFollows(s.table, call);
      InTurnFollows(s.table, Step(s.table, call).0, s.log, Pending);
  }

  lemma {:induction false} RunAged(calls: seq<Call>)
    requires ClockRuns(calls)
    ensures Aged(Run(EMPTY, calls), if calls == [] then 0 else calls[|calls| - 1].now)
    decreases |calls|
  {
    hide InTurn, After;
    if calls == [] {
      EmptyAged();
    } else {
      RunAged(calls[..|calls| - 1]);
      var n := |calls| - 1;
      AfterAged(Run(EMPTY, calls[..n]), calls[n], if n == 0 then 0 else calls[n - 1].now);
    }
  }

  lemma EmptyAged()
    ensures Aged(EMPTY, 0)
  {
  }

  /** While the clock runs forwards, every station gets its tasks in the order of their creation, over all
      its pulls, whatever updates come in between. */
  lemma InCreationOrder(calls: seq<Call>)
    requires ClockRuns(calls)
    ensures var s := Run(EMPTY, calls);
      && Indices(s.table, s.log)
      && forall j, k :: 0 <= j < k < |s.log| && s.table[s.log[j]].station == s.table[s.log[k]].station ==>
           s.log[j] < s.log[k] && s.table[s.log[j]].createdAt <= s.table[s.log[k]].createdAt
  {
    RunAged(calls);
  }

  // Row by row ----------------------------------------------------------------------------------

  /** The transitions an update may make. */
  predicate May(from: Status, to: Status) {
    (from, to) in {
      (Pending, Pulled), (Pending, Running), (Pending, Cancelled), (Pulled, Running), (Pulled, Failed),
      (Pulled, Cancelled), (Running, Completed), (Running, Failed)}
  }

  /** What each call does to each row, column by column. */
  lemma RowByRow(t: seq<Task>, call: Call)
    requires UniqueIds(t)
    ensures var u := Step(t, call).0;
      match call
      case Create(id, station, now) =>
        u == if exists i :: 0 <= i < |t| && t[i].id == id then t
             else t + [Row(id, station, now, Pending, None, Columns(None, None, None))]
      case Pull(station, now) =>
        |u| == |t| && forall i :: 0 <= i < |t| ==>
          u[i] == if t[i].station == station && t[i].status == Pending then
                    Row(t[i].id, station, t[i].createdAt, Pulled, Some(now), t[i].extra)
                  else t[i]
      case Update(id, status, error, now) =>
        |u| == |t| && forall i :: 0 <= i < |t| ==>
          u[i] == if t[i].id == id && May(t[i].status, status) then
                    t[i].(status := status,
                          extra := Columns(
                            if status == Running && t[i].extra.startedAt == None then Some(now)
                            else t[i].extra.startedAt,
                            if status == Completed || status == Failed then Some(now) else t[i].extra.finishedAt,
                            if error == None then t[i].extra.error else error))
                  else t[i]
  {
    hide PullOrder;
    match call
    case Create(_, _, _) =>
    case Pull(station, now) => PullSelects(t, station, Pending);
    case Update(id, _, _, _) => OnlyOne(t, id);
  }

  // Lives of tasks ------------------------------------------------------------------------------

  predicate Terminal(s: Status) {
    s == Completed || s == Failed || s == Cancelled
  }

  function Rank(s: Status): nat {
    match s
    case Pending => 0
    case Pulled => 1
    case Running => 2
    case _ => 3
  }

  /** Stamps fit the status: a task has a start time from the moment it runs, and a finish time exactly
      when it has completed or failed. */
  predicate Sane(t: Task) {
    && (t.status == Running || t.status == Completed ==> t.extra.startedAt.Some?)
    && (t.status == Pending || t.status == Pulled || t.status == Cancelled ==> t.extra.startedAt.None?)
    && (t.extra.finishedAt.Some? <==> t.status == Completed || t.status == Failed)
  }

  /** A task as it was and as it is: either nothing has happened, or its status has advanced; stamps stay. */
  predicate Advanced(before: Task, after: Task) {
    && after.id == before.id && after.station == before.station && after.createdAt == before.createdAt
    && (after == before || Rank(before.status) < Rank(after.status))
    && (before.extra.startedAt.Some? ==> after.extra.startedAt == before.extra.startedAt)
    && (Terminal(before.status) ==> after == before)
  }

  predicate AllSane(t: seq<Task>) {
    forall i :: 0 <= i < |t| ==> Sane(t[i])
  }

  predicate AllAdvanced(t: seq<Task>, u: seq<Task>) {
    |t| <= |u| && forall i :: 0 <= i < |t| ==> Advanced(t[i], u[i])
  }

  lemma StepAdvances(t: seq<Task>, call: Call)
    requires AllSane(t)
    ensures AllSane(Step(t, call).0) && AllAdvanced(t, Step(t, call).0)
  {
    hide PullOrder;
    match call
    case Pull(station, now) => PullSelects(t, station, Pending);
    case _ =>
  }

  lemma AdvancedTransitive(t: seq<Task>, u: seq<Task>, v: seq<Task>)
    requires AllAdvanced(t, u) && AllAdvanced(u, v)
    ensures AllAdvanced(t, v)
  {
    forall i | 0 <= i < |t|
      ensures Advanced(t[i], v[i])
    {
      assert Advanced(t[i], u[i]) && Advanced(u[i], v[i]);
    }
  }

  /** Over any run from a sane table: every task's status only ever advances, terminal states are final,
      start times stay, and the stamps always fit the status. */
  lemma {:induction false} RunAdvances(s: State, calls: seq<Call>)
    requires AllSane(s.table)
    ensures AllSane(Run(s, calls).table) && AllAdvanced(s.table, Run(s, calls).table)
    decreases |calls|
  {
    hide Step, AllSane, Advanced;
    if calls == [] {
      Reflexive(s.table);
    } else {
      var front := Run(s, calls[..|calls| - 1]);
      RunAdvances(s, calls[..|calls| - 1]);
      StepAdvances(front.table, calls[|calls| - 1]);
      AdvancedTransitive(s.table, front.table, Run(s, calls).table);
    }
  }

  lemma Reflexive(t: seq<Task>)
    ensures AllAdvanced(t, t)
  {
  }

  /** In every run of the server: a completed task has been started, and a task has a finish time exactly
      when it has completed or failed. */
  lemma StampsFit(calls: seq<Call>, i: nat)
    requires i < |Run(EMPTY, calls).table|
    ensures var t := Run(EMPTY, calls).table[i];
      && (t.status == Completed ==> t.extra.startedAt.Some?)
      && (t.extra.finishedAt.Some? <==> t.status == Completed || t.status == Failed)
  {
    RunAdvances(EMPTY, calls);
  }

  /** `to` comes after `from` by at most `steps` allowed transitions, and by at least one. */
  predicate Reaches(from: Status, to: Status, steps: nat)
    decreases steps
  {
    steps > 0 && (Allowed(from, to) || exists via: Status :: Allowed(from, via) && Reaches(via, to, steps - 1))
  }

  /** A status can be reached from another, in one or two transitions, exactly when it ranks higher, except
      that a running task can no longer be cancelled. */
  lemma ReachesExactly(from: Status, to: Status)
    ensures Reaches(from, to, 2) <==> Rank(from) < Rank(to) && !(from == Running && to == Cancelled)
  {
    forall via: Status
      ensures Reaches(via, to, 1) <==> Allowed(via, to)
    {
    }
    if to == Completed || to == Failed {
      assert Reaches(Running, to, 1);
      if from == Pending || from == Pulled {
        assert Allowed(from, Running);
        assert Reaches(from, to, 2);
      }
    }
  }
}
