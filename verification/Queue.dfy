/** Tables whose rows wait for their station: rows are added, pulled, and changed by id. Commands and
    patrol tasks both work this way. */
module Queue {
  import opened Bytes

  /** `extra` holds the columns that only one of the two tables has. */
  datatype Row<S, E> = Row(id: string, station: string, createdAt: nat, status: S, pulledAt: Option<nat>, extra: E)

  // The statements ------------------------------------------------------------------------------

  /** The first `n` rows of the table that wait for `station`. */
  function Waiting<S(==), E>(t: seq<Row<S, E>>, station: string, pending: S, n: nat): (s: seq<nat>)
    requires n <= |t|
    ensures forall k :: 0 <= k < |s| ==> s[k] < n && t[s[k]].station == station && t[s[k]].status == pending
    ensures forall j, k :: 0 <= j < k < |s| ==> s[j] < s[k]
    ensures forall i :: 0 <= i < n && t[i].station == station && t[i].status == pending ==> i in s
  {
    if n == 0 then []
    else
      var front := Waiting(t, station, pending, n - 1);
      if t[n - 1].station == station && t[n - 1].status == pending then front + [n - 1] else front
  }

  predicate Indices<S, E>(t: seq<Row<S, E>>, s: seq<nat>) {
    forall k :: 0 <= k < |s| ==> s[k] < |t|
  }

  predicate Ordered<S, E>(t: seq<Row<S, E>>, s: seq<nat>)
    requires Indices(t, s)
  {
    forall j, k :: 0 <= j < k < |s| ==> t[s[j]].createdAt <= t[s[k]].createdAt
  }

  /** Behind every row that is not younger. */
  function Insert<S, E>(t: seq<Row<S, E>>, s: seq<nat>, i: nat): (r: seq<nat>)
    requires i < |t| && Indices(t, s)
    ensures Indices(t, r) && |r| == |s| + 1
  {
    if s == [] || t[s[|s| - 1]].createdAt <= t[i].createdAt then s + [i]
    else Insert(t, s[..|s| - 1], i) + [s[|s| - 1]]
  }

  /** `ORDER BY created_at ASC`. */
  function OrderBy<S, E>(t: seq<Row<S, E>>, s: seq<nat>): (r: seq<nat>)
    requires Indices(t, s)
    ensures Indices(t, r)
    decreases |s|
  {
    if s == [] then [] else Insert(t, OrderBy(t, s[..|s| - 1]), s[|s| - 1])
  }

  /** The rows a pull hands out, in order. */
  function PullOrder<S(==), E>(t: seq<Row<S, E>>, station: string, pending: S): (r: seq<nat>)
    ensures Indices(t, r)
  {
    OrderBy(t, Waiting(t, station, pending, |t|))
  }

  /** The table after all rows of `s` are marked as pulled. */
  function Marked<S, E>(t: seq<Row<S, E>>, s: seq<nat>, pulled: S, now: nat): (r: seq<Row<S, E>>)
    ensures |r| == |t|
    ensures forall i :: 0 <= i < |t| ==> r[i] == if i in s then t[i].(status := pulled, pulledAt := Some(now)) else t[i]
  {
    seq(|t|, i requires 0 <= i < |t| => if i in s then t[i].(status := pulled, pulledAt := Some(now)) else t[i])
  }

  predicate UniqueIds<S, E>(t: seq<Row<S, E>>) {
    forall i, j :: 0 <= i < j < |t| ==> t[i].id != t[j].id
  }

  /** The row with this id, or the number of rows. */
  function Find<S, E>(t: seq<Row<S, E>>, id: string): (i: nat)
    ensures i <= |t|
    ensures i < |t| ==> t[i].id == id
    ensures forall j :: 0 <= j < i ==> t[j].id != id
  {
    if t == [] || t[0].id == id then 0 else 1 + Find(t[1..], id)
  }

  lemma FindIs<S, E>(t: seq<Row<S, E>>, i: nat)
    requires UniqueIds(t) && i < |t|
    ensures Find(t, t[i].id) == i
  {
    var k := Find(t, t[i].id);
  }

  /** No other row has the id. */
  lemma OnlyOne<S, E>(t: seq<Row<S, E>>, id: string)
    requires UniqueIds(t)
    ensures forall i :: 0 <= i < |t| ==> (t[i].id == id <==> i == Find(t, id))
  {
  }

  // Ordering ------------------------------------------------------------------------------------

  lemma {:induction false} InsertOrders<S, E>(t: seq<Row<S, E>>, s: seq<nat>, i: nat)
    requires i < |t| && Indices(t, s) && Ordered(t, s)
    ensures Ordered(t, Insert(t, s, i)) && multiset(Insert(t, s, i)) == multiset(s) + multiset{i}
    decreases |s|
  {
    hide Ordered;
    if s == [] || t[s[|s| - 1]].createdAt <= t[i].createdAt {
      LastIsYoungest(t, s);
      OrderedAppend(t, s, i);
    } else {
      var front, last := s[..|s| - 1], s[|s| - 1];
      LastIsYoungest(t, s);
      InsertOrders(t, front, i);
      assert s == front + [last];
      NoneYounger(t, front, Insert(t, front, i), i, last);
      OrderedAppend(t, Insert(t, front, i), last);
    }
  }

  lemma LastIsYoungest<S, E>(t: seq<Row<S, E>>, s: seq<nat>)
    requires Indices(t, s) && Ordered(t, s)
    ensures s != [] ==> Ordered(t, s[..|s| - 1])
    ensures forall k :: 0 <= k < |s| ==> t[s[k]].createdAt <= t[s[|s| - 1]].createdAt
  {
  }

  lemma NoneYounger<S, E>(t: seq<Row<S, E>>, front: seq<nat>, r: seq<nat>, i: nat, last: nat)
    requires Indices(t, front) && Indices(t, r) && i < |t| && last < |t|
    requires multiset(r) == multiset(front) + multiset{i} && t[i].createdAt <= t[last].createdAt
    requires forall k :: 0 <= k < |front| ==> t[front[k]].createdAt <= t[last].createdAt
    ensures forall k :: 0 <= k < |r| ==> t[r[k]].createdAt <= t[last].createdAt
  {
    forall k | 0 <= k < |r|
      ensures t[r[k]].createdAt <= t[last].createdAt
    {
      assert r[k] in multiset(r);
      assert r[k] == i || r[k] in front;
    }
  }

  lemma OrderedAppend<S, E>(t: seq<Row<S, E>>, s: seq<nat>, i: nat)
    requires Indices(t, s) && i < |t| && Ordered(t, s)
    requires forall k :: 0 <= k < |s| ==> t[s[k]].createdAt <= t[i].createdAt
    ensures Indices(t, s + [i]) && Ordered(t, s + [i])
  {
  }

  /** `ORDER BY` gives the same rows, each as often as before, sorted. */
  lemma {:induction false} OrderByOrders<S, E>(t: seq<Row<S, E>>, s: seq<nat>)
    requires Indices(t, s)
    ensures Ordered(t, OrderBy(t, s)) && multiset(OrderBy(t, s)) == multiset(s)
    decreases |s|
  {
    if s != [] {
      OrderByOrders(t, s[..|s| - 1]);
      InsertOrders(t, OrderBy(t, s[..|s| - 1]), s[|s| - 1]);
      assert s == s[..|s| - 1] + [s[|s| - 1]];
    }
  }

  /** Rows that are in order already stay as they are. */
  lemma {:induction false} OrderByStable<S, E>(t: seq<Row<S, E>>, s: seq<nat>)
    requires Indices(t, s) && Ordered(t, s)
    ensures OrderBy(t, s) == s
    decreases |s|
  {
    hide Ordered, Insert;
    if s != [] {
      var front, last := s[..|s| - 1], s[|s| - 1];
      LastIsYoungest(t, s);
      OrderByStable(t, front);
      InsertLast(t, front, last);
      assert s == front + [last];
    }
  }

  lemma InsertLast<S, E>(t: seq<Row<S, E>>, s: seq<nat>, i: nat)
    requires Indices(t, s) && i < |t| && forall k :: 0 <= k < |s| ==> t[s[k]].createdAt <= t[i].createdAt
    ensures Insert(t, s, i) == s + [i]
  {
  }

  // Handing out ---------------------------------------------------------------------------------

  predicate NoRepeats(s: seq<nat>) {
    forall j, k :: 0 <= j < k < |s| ==> s[j] != s[k]
  }

  /** `log` lists the rows handed out so far: none twice, and none that still waits. */
  ghost predicate Fair<S, E>(t: seq<Row<S, E>>, log: seq<nat>, pending: S) {
    && UniqueIds(t) && Indices(t, log) && NoRepeats(log)
    && forall k :: 0 <= k < |log| ==> t[log[k]].status != pending
  }

  /** The columns that never change, and a status that never becomes pending again. */
  predicate Follows<S(==), E>(t: seq<Row<S, E>>, u: seq<Row<S, E>>, pending: S) {
    && |t| == |u|
    && forall i :: 0 <= i < |t| ==>
         && u[i].id == t[i].id && u[i].station == t[i].station && u[i].createdAt == t[i].createdAt
         && (u[i].status == pending ==> t[i].status == pending)
  }

  lemma FairFollows<S, E>(t: seq<Row<S, E>>, u: seq<Row<S, E>>, log: seq<nat>, pending: S)
    requires Fair(t, log, pending) && Follows(t, u, pending)
    ensures Fair(u, log, pending)
  {
    forall i, j | 0 <= i < j < |u|
      ensures u[i].id != u[j].id
    {
      assert t[i].id != t[j].id;
    }
  }

  lemma FairEnter<S, E>(t: seq<Row<S, E>>, log: seq<nat>, pending: S, row: Row<S, E>)
    requires Fair(t, log, pending) && Find(t, row.id) == |t|
    ensures Fair(t + [row], log, pending)
  {
  }

  /** What a pull hands out: exactly the rows that wait for this station, each once, oldest first. */
  lemma PullSelects<S, E>(t: seq<Row<S, E>>, station: string, pending: S)
    ensures var s := PullOrder(t, station, pending);
      && NoRepeats(s) && Ordered(t, s)
      && forall i :: i in s <==> 0 <= i < |t| && t[i].station == station && t[i].status == pending
  {
    var w, s := Waiting(t, station, pending, |t|), PullOrder(t, station, pending);
    OrderByOrders(t, w);
    forall i
      ensures i in s <==> i in w
    {
      assert i in s <==> i in multiset(s);
      assert i in w <==> i in multiset(w);
    }
    NoRepeatsMultiset(w, s);
  }

  lemma NoRepeatsMultiset(w: seq<nat>, s: seq<nat>)
    requires NoRepeats(w) && multiset(w) == multiset(s)
    ensures NoRepeats(s)
  {
    forall j, k | 0 <= j < k < |s|
      ensures s[j] != s[k]
    {
      if s[j] == s[k] {
        CountTwice(s, j, k);
        CountOnce(w, s[j]);
      }
    }
  }

  lemma CountTwice(s: seq<nat>, j: nat, k: nat)
    requires j < k < |s| && s[j] == s[k]
    ensures multiset(s)[s[j]] >= 2
  {
    assert s == s[..k] + s[k..];
    assert s[..k][j] == s[j] && s[k..][0] == s[j];
  }

  lemma {:induction false} CountOnce(w: seq<nat>, x: nat)
    requires NoRepeats(w)
    ensures multiset(w)[x] <= 1
    decreases |w|
  {
    if w != [] {
      var front, last := w[..|w| - 1], w[|w| - 1];
      CountOnce(front, x);
      assert w == front + [last];
      if x == last {
        forall k | 0 <= k < |front|
          ensures front[k] != x
        {
          assert w[k] != w[|w| - 1];
        }
        assert x !in front;
      }
    }
  }

  lemma PullFollows<S, E>(t: seq<Row<S, E>>, station: string, pending: S, pulled: S, now: nat)
    requires pending != pulled
    ensures Follows(t, Marked(t, PullOrder(t, station, pending), pulled, now), pending)
  {
  }

  /** A pull never hands out a row again. */
  lemma FairPull<S, E>(t: seq<Row<S, E>>, log: seq<nat>, station: string, pending: S, pulled: S, now: nat)
    requires Fair(t, log, pending) && pending != pulled
    ensures var s := PullOrder(t, station, pending);
      Fair(Marked(t, s, pulled, now), log + s, pending)
  {
    var s := PullOrder(t, station, pending);
    var u := Marked(t, s, pulled, now);
    PullSelects(t, station, pending);
    PullFollows(t, station, pending, pulled, now);
    FairFollows(t, u, log, pending);
    var more := log + s;
    forall j, k | 0 <= j < k < |more|
      ensures more[j] != more[k]
    {
      if j < |log| <= k {
        assert t[log[j]].status != pending;
        assert s[k - |log|] in s;
      }
    }
    forall k | 0 <= k < |more|
      ensures u[more[k]].status != pending
    {
      if k >= |log| {
        assert s[k - |log|] in s;
      }
    }
  }

  // Creation order ------------------------------------------------------------------------------

  predicate Aging<S, E>(t: seq<Row<S, E>>) {
    forall i, j :: 0 <= i < j < |t| ==> t[i].createdAt <= t[j].createdAt
  }

  /** For every station, rows have been handed out in the order in which they were created, and none of
      those that still wait is older than one that was handed out. */
  ghost predicate InTurn<S, E>(t: seq<Row<S, E>>, log: seq<nat>, pending: S)
    requires Indices(t, log)
  {
    && (forall j, k :: 0 <= j < k < |log| && t[log[j]].station == t[log[k]].station ==> log[j] < log[k])
    && (forall k, i :: 0 <= k < |log| && 0 <= i < |t| && t[i].status == pending && t[i].station == t[log[k]].station
          ==> log[k] < i)
  }

  lemma InTurnFollows<S, E>(t: seq<Row<S, E>>, u: seq<Row<S, E>>, log: seq<nat>, pending: S)
    requires Indices(t, log) && InTurn(t, log, pending) && Follows(t, u, pending)
    ensures Indices(u, log) && InTurn(u, log, pending)
  {
  }

  lemma InTurnEnter<S, E>(t: seq<Row<S, E>>, log: seq<nat>, pending: S, row: Row<S, E>)
    requires Indices(t, log) && InTurn(t, log, pending)
    ensures Indices(t + [row], log) && InTurn(t + [row], log, pending)
  {
  }

  lemma InTurnPull<S, E>(t: seq<Row<S, E>>, log: seq<nat>, station: string, pending: S, pulled: S, now: nat)
    requires Indices(t, log) && InTurn(t, log, pending) && Aging(t) && pending != pulled
    ensures var s := PullOrder(t, station, pending);
      var u := Marked(t, s, pulled, now);
      Indices(u, log + s) && InTurn(u, log + s, pending)
  {
    hide InTurn, PullOrder, Marked;
    var s := PullOrder(t, station, pending);
    InOrderAlready(t, station, pending);
    var u := Marked(t, s, pulled, now);
    PullFollows(t, station, pending, pulled, now);
    InTurnFollows(t, u, log, pending);
    PullSelects(t, station, pending);
    NoneLeft(t, station, pending, pulled, now);
    LogInTurn(t, u, log, s, station, pending);
  }

  /** When rows are in order of age, a pull hands them out in the order of the table. */
  lemma InOrderAlready<S, E>(t: seq<Row<S, E>>, station: string, pending: S)
    requires Aging(t)
    ensures forall j, k :: 0 <= j < k < |PullOrder(t, station, pending)| ==>
              PullOrder(t, station, pending)[j] < PullOrder(t, station, pending)[k]
  {
    OrderByStable(t, Waiting(t, station, pending, |t|));
  }

  lemma NoneLeft<S, E>(t: seq<Row<S, E>>, station: string, pending: S, pulled: S, now: nat)
    requires pending != pulled
    ensures var u := Marked(t, PullOrder(t, station, pending), pulled, now);
      forall i :: 0 <= i < |u| && u[i].station == station ==> u[i].status != pending
  {
    hide PullOrder;
    PullSelects(t, station, pending);
  }

  lemma LogInTurn<S, E>(t: seq<Row<S, E>>, u: seq<Row<S, E>>, log: seq<nat>, s: seq<nat>, station: string, pending: S)
    requires Indices(t, log) && InTurn(t, log, pending) && Indices(t, s) && Follows(t, u, pending)
    requires Indices(u, log) && InTurn(u, log, pending)
    requires forall j, k :: 0 <= j < k < |s| ==> s[j] < s[k]
    requires forall k :: 0 <= k < |s| ==> s[k] in s && t[s[k]].station == station && t[s[k]].status == pending
    requires forall i :: 0 <= i < |u| && u[i].station == station ==> u[i].status != pending
    ensures InTurn(u, log + s, pending)
  {
    var more := log + s;
    forall j, k | 0 <= j < k < |more| && u[more[j]].station == u[more[k]].station
      ensures more[j] < more[k]
    {
      if j < |log| <= k {
        var i := s[k - |log|];
        assert t[i].status == pending && t[log[j]].station == t[i].station;
      }
    }
  }

  // The loop over the pulled rows ---------------------------------------------------------------

  /** `UPDATE ... SET status = ?, pulled_at = ? WHERE id = ?`. */
  method MarkById<S, E>(t: seq<Row<S, E>>, id: string, pulled: S, now: nat) returns (u: seq<Row<S, E>>)
    ensures |u| == |t|
    ensures forall i :: 0 <= i < |t| ==>
              u[i] == if t[i].id == id then t[i].(status := pulled, pulledAt := Some(now)) else t[i]
  {
    u := t;
    for i := 0 to |t|
      invariant |u| == |t|
      invariant forall j :: 0 <= j < |t| ==>
                  u[j] == if j < i && t[j].id == id then t[j].(status := pulled, pulledAt := Some(now)) else t[j]
    {
      if t[i].id == id {
        u := u[i := t[i].(status := pulled, pulledAt := Some(now))];
      }
    }
  }

  /** Select the waiting rows, mark them one by one, and return them as they are then. */
  method PullRows<S(==), E>(t: seq<Row<S, E>>, station: string, pending: S, pulled: S, now: nat)
    returns (u: seq<Row<S, E>>, rows: seq<Row<S, E>>)
    requires UniqueIds(t)
    ensures u == Marked(t, PullOrder(t, station, pending), pulled, now)
    ensures var s := PullOrder(t, station, pending);
      |rows| == |s| && forall k :: 0 <= k < |s| ==> rows[k] == u[s[k]]
  {
    hide Marked, PullOrder;
    var s := PullOrder(t, station, pending);
    u := t;
    MarkedNone(t, pulled, now);
    for k := 0 to |s|
      invariant u == Marked(t, s[..k], pulled, now)
    {
      MarkedOneMore(t, s, k, pulled, now);
      u := MarkById(u, t[s[k]].id, pulled, now);
    }
    assert s[..|s|] == s;
    rows := [];
    for k := 0 to |s|
      invariant |rows| == k && forall j :: 0 <= j < k ==> rows[j] == u[s[j]]
    {
      rows := rows + [u[s[k]]];
    }
  }

  lemma MarkedNone<S, E>(t: seq<Row<S, E>>, pulled: S, now: nat)
    ensures Marked(t, [], pulled, now) == t
  {
  }

  lemma MarkedOneMore<S, E>(t: seq<Row<S, E>>, s: seq<nat>, k: nat, pulled: S, now: nat)
    requires UniqueIds(t) && Indices(t, s) && k < |s|
    ensures var u, v := Marked(t, s[..k], pulled, now), Marked(t, s[..k + 1], pulled, now);
      forall i :: 0 <= i < |t| ==>
        v[i] == if u[i].id == t[s[k]].id then u[i].(status := pulled, pulledAt := Some(now)) else u[i]
  {
    assert s[..k + 1] == s[..k] + [s[k]];
  }
}
