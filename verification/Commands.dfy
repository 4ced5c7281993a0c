/** Control commands: created for a station, pulled by it, acknowledged or cancelled. */
module Commands {
  import opened Bytes
  import opened Queue

  datatype Status = Pending | Pulled | Sent | Executed | Failed | Cancelled

  datatype Columns = Columns(acknowledgedAt: Option<nat>, cancelledAt: Option<nat>, error: Option<string>)

  type Command = Row<Status, Columns>

  datatype Reply = WasSent | WasExecuted | HasFailed

  function ReplyStatus(reply: Reply): (s: Status)
    ensures s != Pending && s != Pulled && s != Cancelled
  {
    match reply
    case WasSent => Sent
    case WasExecuted => Executed
    case HasFailed => Failed
  }

  /** One request to the server; `now` is the time it is served. */
  datatype Call =
    | Create(id: string, station: string, now: nat)
    | Pull(station: string, now: nat)
    | Acknowledge(id: string, reply: Reply, error: Option<string>, now: nat)
    | Cancel(id: string, now: nat)

  function Created(id: string, station: string, now: nat): Command {
    Row(id, station, now, Pending, None, Columns(None, None, None))
  }

  function Acknowledged(c: Command, reply: Reply, error: Option<string>, now: nat): Command {
    c.(status := ReplyStatus(reply), extra := c.extra.(acknowledgedAt := Some(now), error := error))
  }

  function Withdrawn(c: Command, now: nat): Command {
    if c.status == Pending || c.status == Pulled then
      c.(status := Cancelled, extra := c.extra.(cancelledAt := Some(now)))
    else c
  }

  /** The table after a call, and the rows handed out by it. A second row with an id is refused by the
      primary key. */
  function Step(t: seq<Command>, call: Call): (r: (seq<Command>, seq<nat>))
    ensures Indices(r.0, r.1)
  {
    match call
    case Create(id, station, now) =>
      (if Find(t, id) < |t| then t else t + [Created(id, station, now)], [])
    case Pull(station, now) =>
      var s := PullOrder(t, station, Pending);
      (Marked(t, s, Pulled, now), s)
    case Acknowledge(id, reply, error, now) =>
      var i := Find(t, id);
      (if i < |t| then t[i := Acknowledged(t[i], reply, error, now)] else t, [])
    case Cancel(id, now) =>
      var i := Find(t, id);
      (if i < |t| then t[i := Withdrawn(t[i], now)] else t, [])
  }

  /** The table, and the rows handed out so far, oldest hand-out first. */
  datatype State = State(table: seq<Command>, log: seq<nat>)

  function After(s: State, call: Call): State {
    var (t, handed) := Step(s.table, call);
    State(t, s.log + handed)
  }

  function Run(s: State, calls: seq<Call>): State
    decreases |calls|
  {
    if calls == [] then s else After(Run(s, calls[..|calls| - 1]), calls[|calls| - 1])
  }

  /** Calls take effect one after the other; what each hands out follows what those before it have. */
  lemma {:induction false} RunInTurn(s: State, first: Call, rest: seq<Call>)
    ensures Run(s, []) == s
    ensures var (table, handed) := Step(s.table, first);
      Run(s, [first] + rest) == Run(State(table, s.log + handed), rest)
    decreases |rest|
  {
    hide Step;
    var all := [first] + rest;
    if rest == [] {
      assert all[..|all| - 1] == [];
    } else {
      var front := rest[..|rest| - 1];
      assert all[..|all| - 1] == [first] + front;
      RunInTurn(s, first, front);
    }
  }

  const EMPTY := State([], [])

  ghost predicate Sound(s: State) {
    Fair(s.table, s.log, Pending)
  }

  lemma StepFollows(t: seq<Command>, call: Call)
    requires !call.Create?
    ensures Follows(t, Step(t, call).0, Pending)
  {
    match call
    case Pull(station, now) => PullFollows(t, station, Pending, Pulled, now);
    case _ =>
  }

  lemma AfterSound(s: State, call: Call)
    requires Sound(s)
    ensures Sound(After(s, call))
  {
    hide Fair;
    var t := Step(s.table, call).0;
    assert s.log + [] == s.log;
    match call
    case Create(id, station, now) =>
      if Find(s.table, id) == |s.table| {
        FairEnter(s.table, s.log, Pending, Created(id, station, now));
      }
    case Pull(station, now) => FairPull(s.table, s.log, station, Pending, Pulled, now);
    case _ =>
      StepFollows(s.table, call);
      FairFollows(s.table, t, s.log, Pending);
  }

  lemma {:induction false} RunSound(s: State, calls: seq<Call>)
    requires Sound(s)
    ensures Sound(Run(s, calls))
    decreases |calls|
  {
    hide After, Fair;
    if calls != [] {
      RunSound(s, calls[..|calls| - 1]);
      AfterSound(Run(s, calls[..|calls| - 1]), calls[|calls| - 1]);
    }
  }

  /** In every interleaving of calls no command is handed out twice, and a pull hands out exactly the
      commands of its own station that still wait, none of which was handed out before, oldest first. */
  lemma HandedOutOnce(calls: seq<Call>, station: string, now: nat)
    ensures var s := Run(EMPTY, calls);
      var handed := Step(s.table, Pull(station, now)).1;
      && UniqueIds(s.table) && NoRepeats(s.log) && NoRepeats(s.log + handed) && Ordered(s.table, handed)
      && forall i :: i in handed <==>
           0 <= i < |s.table| && s.table[i].station == station && s.table[i].status == Pending
  {
    hide PullOrder, Marked;
    assert Sound(EMPTY);
    RunSound(EMPTY, calls);
    var s := Run(EMPTY, calls);
    FairPull(s.table, s.log, station, Pending, Pulled, now);
    PullSelects(s.table, station, Pending);
  }

  /** A command that no longer waits and was not handed out never will be. */
  lemma {:induction false} NeverAgain(s: State, i: nat, calls: seq<Call>)
    requires Sound(s) && i < |s.table| && s.table[i].status != Pending && i !in s.log
    ensures var u := Run(s, calls); i < |u.table| && u.table[i].status != Pending && i !in u.log
    decreases |calls|
  {
    hide PullOrder, Marked, Step, After, Fair;
    if calls != [] {
      var front, last := calls[..|calls| - 1], calls[|calls| - 1];
      NeverAgain(s, i, front);
      NotThisTime(Run(s, front), i, last);
    }
  }

  lemma NotThisTime(s: State, i: nat, call: Call)
    requires i < |s.table| && s.table[i].status != Pending && i !in s.log
    ensures var u := After(s, call); i < |u.table| && u.table[i].status != Pending && i !in u.log
  {
    hide PullOrder, Marked;
    match call
    case Create(id, station, now) =>
    case Pull(station, now) => PullSelects(s.table, station, Pending);
    case _ => StepFollows(s.table, call);
  }

  /** A command cancelled while it waits is never handed out, before or after. */
  lemma CancelledIsNeverHandedOut(before: seq<Call>, id: string, now: nat, after: seq<Call>)
    requires var t := Run(EMPTY, before).table; Find(t, id) < |t| && t[Find(t, id)].status == Pending
    ensures var i := Find(Run(EMPTY, before).table, id);
      i !in Run(After(Run(EMPTY, before), Cancel(id, now)), after).log
  {
    hide After, Fair;
    assert Sound(EMPTY) by {
      EmptySound();
    }
    RunSound(EMPTY, before);
    var s := Run(EMPTY, before);
    var i, u := Find(s.table, id), After(s, Cancel(id, now));
    AfterSound(s, Cancel(id, now));
    WaitingNotLogged(s, i);
    CancelEffect(s, id, now);
    NeverAgain(u, i, after);
  }

  lemma EmptySound()
    ensures Sound(EMPTY)
  {
  }

  lemma WaitingNotLogged(s: State, i: nat)
    requires Sound(s) && i < |s.table| && s.table[i].status == Pending
    ensures i !in s.log
  {
  }

  lemma CancelEffect(s: State, id: string, now: nat)
    requires Find(s.table, id) < |s.table| && s.table[Find(s.table, id)].status == Pending
    ensures var u, i := After(s, Cancel(id, now)), Find(s.table, id);
      |u.table| == |s.table| && u.table[i].status == Cancelled && u.log == s.log
  {
  }

  // Creation order ------------------------------------------------------------------------------

  /** The clock did not go backwards between the calls. */
  predicate ClockRuns(calls: seq<Call>) {
    forall i, j :: 0 <= i < j < |calls| ==> calls[i].now <= calls[j].now
  }

  /** Rows are in order of age, and none is from the future. */
  ghost predicate Aged(s: State, now: nat) {
    && Aging(s.table) && (forall i :: 0 <= i < |s.table| ==> s.table[i].createdAt <= now)
    && Indices(s.table, s.log) && InTurn(s.table, s.log, Pending)
  }

  lemma AfterAged(s: State, call: Call, now: nat)
    requires Aged(s, now) && now <= call.now
    ensures Aged(After(s, call), call.now)
  {
    hide InTurn, PullOrder, Marked;
    assert s.log + [] == s.log;
    match call
    case Create(id, station, now) => InTurnEnter(s.table, s.log, Pending, Created(id, station, now));
    case Pull(station, now) =>
      PullFollows(s.table, station, Pending, Pulled, now);
      InTurnPull(s.table, s.log, station, Pending, Pulled, now);
    case _ =>
      StepFollows(s.table, call);
      InTurnFollows(s.table, Step(s.table, call).0, s.log, Pending);
  }

  lemma {:induction false} RunAged(calls: seq<Call>)
    requires ClockRuns(calls)
    ensures Aged(Run(EMPTY, calls), if calls == [] then 0 else calls[|calls| - 1].now)
    decreases |calls|
  {
    hide InTurn, After;
    if calls == [] {
      EmptyAged();
    } else {
      RunAged(calls[..|calls| - 1]);
      var n := |calls| - 1;
      AfterAged(Run(EMPTY, calls[..n]), calls[n], if n == 0 then 0 else calls[n - 1].now);
    }
  }

  lemma EmptyAged()
    ensures Aged(EMPTY, 0)
  {
  }

  /** While the clock runs forwards, every station gets its commands in the order of their creation, over
      all its pulls. */
  lemma InCreationOrder(calls: seq<Call>)
    requires ClockRuns(calls)
    ensures var s := Run(EMPTY, calls);
      && Indices(s.table, s.log)
      && forall j, k :: 0 <= j < k < |s.log| && s.table[s.log[j]].station == s.table[s.log[k]].station ==>
           s.log[j] < s.log[k] && s.table[s.log[j]].createdAt <= s.table[s.log[k]].createdAt
  {
    RunAged(calls);
  }

  // Row by row ----------------------------------------------------------------------------------

  /** What each call does to each row, column by column. */
  lemma RowByRow(t: seq<Command>, call: Call)
    requires UniqueIds(t)
    ensures var u := Step(t, call).0;
      match call
      case Create(id, station, now) =>
        u == if exists i :: 0 <= i < |t| && t[i].id == id then t
             else t + [Row(id, station, now, Pending, None, Columns(None, None, None))]
      case Pull(station, now) =>
        |u| == |t| && forall i :: 0 <= i < |t| ==>
          u[i] == if t[i].station == station && t[i].status == Pending then
                    Row(t[i].id, station, t[i].createdAt, Pulled, Some(now), t[i].extra)
                  else t[i]
      case Acknowledge(id, reply, error, now) =>
        |u| == |t| && forall i :: 0 <= i < |t| ==>
          u[i] == if t[i].id == id then
                    t[i].(status :=
                            if reply == WasSent then Sent else if reply == WasExecuted then Executed else Failed,
                          extra := Columns(Some(now), t[i].extra.cancelledAt, error))
                  else t[i]
      case Cancel(id, now) =>
        |u| == |t| && forall i :: 0 <= i < |t| ==>
          u[i] == if t[i].id == id && (t[i].status == Pending || t[i].status == Pulled) then
                    t[i].(status := Cancelled,
                          extra := Columns(t[i].extra.acknowledgedAt, Some(now), t[i].extra.error))
                  else t[i]
  {
    hide PullOrder;
    match call
    case Create(id, _, _) =>
    case Pull(station, now) => PullSelects(t, station, Pending);
    case Acknowledge(id, _, _, _) => OnlyOne(t, id);
    case Cancel(id, _) => OnlyOne(t, id);
  }

  // Acknowledging -------------------------------------------------------------------------------

  predicate Acknowledges(calls: seq<Call>, id: string) {
    exists i :: 0 <= i < |calls| && calls[i].Acknowledge? && calls[i].id == id
  }

  lemma AckOneMore(calls: seq<Call>, call: Call, id: string)
    ensures Acknowledges(calls + [call], id) <==> Acknowledges(calls, id) || (call.Acknowledge? && call.id == id)
  {
    var more := calls + [call];
    assert more[|calls|] == call;
    if Acknowledges(calls, id) {
      var i :| 0 <= i < |calls| && calls[i].Acknowledge? && calls[i].id == id;
      assert more[i] == calls[i];
    }
  }

  /** What a call does to the row of one command that is out of the queue for good. */
  lemma SettledStep(t: seq<Command>, i: nat, call: Call)
    requires UniqueIds(t) && i < |t| && t[i].status != Pending && t[i].status != Pulled
    ensures var u := Step(t, call).0;
      && i < |u| && u[i].id == t[i].id
      && u[i].status == if call.Acknowledge? && call.id == t[i].id then ReplyStatus(call.reply) else t[i].status
  {
    hide PullOrder, Marked;
    FindIs(t, i);
    match call
    case Pull(station, now) => PullSelects(t, station, Pending);
    case _ =>
  }

  /** `acknowledgeCommand` does not look at the status: a cancelled command stays cancelled if and only if
      nothing acknowledges it afterwards. */
  lemma {:induction false} CancelledStaysExactly(s: State, i: nat, calls: seq<Call>)
    requires Sound(s) && i < |s.table| && s.table[i].status == Cancelled
    ensures var u := Run(s, calls);
      && i < |u.table| && u.table[i].id == s.table[i].id
      && u.table[i].status != Pending && u.table[i].status != Pulled
      && (u.table[i].status == Cancelled <==> !Acknowledges(calls, s.table[i].id))
    decreases |calls|
  {
    hide Step, Acknowledges, NoRepeats, Indices;
    if calls == [] {
      NoAcks(s.table[i].id);
    } else {
      var front, last := calls[..|calls| - 1], calls[|calls| - 1];
      CancelledStaysExactly(s, i, front);
      RunSound(s, front);
      SettledStep(Run(s, front).table, i, last);
      AckOneMore(front, last, s.table[i].id);
      assert calls == front + [last];
    }
  }

  lemma NoAcks(id: string)
    ensures !Acknowledges([], id)
  {
  }
}
