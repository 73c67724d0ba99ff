/** A client that follows the cursor while messages keep arriving between its calls. */
module Watching {
  import opened Queue
  import opened Sync
  import opened Wrappers

  datatype Happening = Polls | Arrives(row: Row)

  /** The queue, the client's cursor and all rows its calls returned so far. */
  datatype Watch = Watch(queue: seq<Row>, cursor: Time, got: seq<Row>)

  function Step(v: Viewer, limit: int, w: Watch, h: Happening): Watch {
    match h
    case Arrives(row) => w.(queue := Insert(w.queue, row))
    case Polls =>
      if Select(w.queue, v, Some(w.cursor)) == [] then w
      else
        PageShrinks(w.queue, v, w.cursor, limit);
        var a := Page(w.queue, v, Some(w.cursor), limit);
        Watch(AfterPage(w.queue, v, Some(w.cursor), limit), a.next.value, w.got + a.events)
  }

  function Run(v: Viewer, limit: int, w: Watch, hs: seq<Happening>): Watch
    decreases hs
  {
    if hs == [] then w else Run(v, limit, Step(v, limit, w, hs[0]), hs[1..])
  }

  /** A row arrives queued, at a time of its own later than the client's cursor. */
  ghost predicate Timely(w: Watch, row: Row) {
    row.status.Queued? && row.created > w.cursor && forall r | r in w.queue :: r.created != row.created
  }

  ghost predicate Orderly(v: Viewer, limit: int, w: Watch, hs: seq<Happening>)
    decreases hs
  {
    hs == [] ||
    ((hs[0].Arrives? ==> Timely(w, hs[0].row)) && Orderly(v, limit, Step(v, limit, w, hs[0]), hs[1..]))
  }

  ghost predicate Good(w: Watch) {
    Ascending(w.queue) && DistinctTimes(w.queue) && forall r | r in w.got :: r.created <= w.cursor
  }

  /** What the client has, and what its next calls would return. */
  function Log(v: Viewer, w: Watch): seq<Row> {
    w.got + Select(w.queue, v, Some(w.cursor))
  }

  /** The log with every visible arrival put at its place in time. */
  function WithArrivals(v: Viewer, log: seq<Row>, hs: seq<Happening>): seq<Row>
    decreases hs
  {
    if hs == [] then log
    else
      var next := if hs[0].Arrives? && Visible(hs[0].row, v) then Insert(log, hs[0].row) else log;
      WithArrivals(v, next, hs[1..])
  }

  lemma {:induction false} InsertKeepsDistinctTimes(q: seq<Row>, row: Row)
    requires DistinctTimes(q) && forall r | r in q :: r.created != row.created
    ensures DistinctTimes(Insert(q, row))
  {
    if q != [] && row.created >= q[0].created {
      InsertKeepsDistinctTimes(q[1..], row);
      forall x | x in Insert(q[1..], row)
        ensures q[0].created != x.created
      {
        InsertRows(q[1..], row, x);
      }
    }
  }

  lemma {:induction false} MarkingKeepsTimes(q: seq<Row>, ids: set<EventId>)
    requires Ascending(q) && DistinctTimes(q)
    ensures Ascending(MarkDelivered(q, ids)) && DistinctTimes(MarkDelivered(q, ids))
  {
    if q != [] {
      MarkingKeepsTimes(q[1..], ids);
      var m := MarkDelivered(q, ids);
      assert m[1..] == MarkDelivered(q[1..], ids);
      forall r | r in m[1..]
        ensures m[0].created < r.created
      {
        var i :| 0 <= i < |q[1..]| && m[1..][i] == r;
        assert q[1..][i] in q[1..];
      }
    }
  }

  lemma InsertInFront(q: seq<Row>, row: Row)
    requires forall r | r in q :: row.created < r.created
    ensures Insert(q, row) == [row] + q
  {
  }

  lemma {:induction false} InsertAfter(front: seq<Row>, q: seq<Row>, row: Row)
    requires forall r | r in front :: r.created <= row.created
    ensures Insert(front + q, row) == front + Insert(q, row)
  {
    if front == [] {
      assert front + q == q && front + Insert(q, row) == Insert(q, row);
    } else {
      assert (front + q)[0] == front[0] && (front + q)[1..] == front[1..] + q;
      InsertAfter(front[1..], q, row);
      assert [front[0]] + (front[1..] + Insert(q, row)) == front + Insert(q, row);
    }
  }

  /** A wanted arrival takes its place among the wanted rows. */
  lemma {:induction false} SelectOfInsert(q: seq<Row>, v: Viewer, since: Option<Time>, row: Row)
    requires Ascending(q)
    ensures Select(Insert(q, row), v, since)
         == if Wanted(row, v, since) then Insert(Select(q, v, since), row) else Select(q, v, since)
  {
    if q == [] || row.created < q[0].created {
      assert Insert(q, row)[1..] == q;
      forall r | r in Select(q, v, since)
        ensures row.created < r.created
      {
        SelectRows(q, v, since, r);
      }
      InsertInFront(Select(q, v, since), row);
      assert [] + Select(q, v, since) == Select(q, v, since);
    } else {
      var first := if Wanted(q[0], v, since) then [q[0]] else [];
      SelectOfInsert(q[1..], v, since, row);
      assert Insert(q, row)[1..] == Insert(q[1..], row);
      InsertAfter(first, Select(q[1..], v, since), row);
    }
  }

  lemma ArrivalKeepsLog(v: Viewer, w: Watch, row: Row)
    requires Good(w) && Timely(w, row)
    ensures var next := w.(queue := Insert(w.queue, row));
            Good(next) && Log(v, next) == if Visible(row, v) then Insert(Log(v, w), row) else Log(v, w)
  {
    InsertKeepsOrder(w.queue, row);
    InsertKeepsDistinctTimes(w.queue, row);
    SelectOfInsert(w.queue, v, Some(w.cursor), row);
    InsertAfter(w.got, Select(w.queue, v, Some(w.cursor)), row);
  }

  lemma PollKeepsLog(v: Viewer, limit: int, w: Watch)
    requires Good(w)
    ensures var next := Step(v, limit, w, Polls);
            Good(next) && Log(v, next) == Log(v, w)
  {
    var pending, n := Select(w.queue, v, Some(w.cursor)), Limit(limit);
    SelectAscending(w.queue, v, Some(w.cursor));
    if pending == [] {
    } else if |pending| <= n {
      ShortPollKeepsLog(v, limit, w, pending);
    } else {
      LongPollKeepsLog(v, limit, w, pending, n);
    }
  }

  lemma ShortPollKeepsLog(v: Viewer, limit: int, w: Watch, pending: seq<Row>)
    requires Good(w) && Ascending(pending)
    requires pending == Select(w.queue, v, Some(w.cursor)) != [] && |pending| <= Limit(limit)
    ensures var next := Step(v, limit, w, Polls);
            Good(next) && Log(v, next) == Log(v, w)
  {
    var next := pending[|pending| - 1].created;
    PageShrinks(w.queue, v, w.cursor, limit);
    LastPageEnds(w.queue, v, w.cursor, next, pending);
    MarkingKeepsTimes(w.queue, Incoming(pending, v.me));
    forall r | r in pending
      ensures r.created <= next
    {
      LastIsNewest(pending, r);
    }
    assert w.got + pending + [] == w.got + pending;
  }

  lemma LongPollKeepsLog(v: Viewer, limit: int, w: Watch, pending: seq<Row>, n: nat)
    requires Good(w) && Ascending(pending) && DistinctTimes(pending) && n == Limit(limit)
    requires pending == Select(w.queue, v, Some(w.cursor)) && |pending| > n
    ensures var next := Step(v, limit, w, Polls);
            Good(next) && Log(v, next) == Log(v, w)
  {
    LongPoll(v, limit, w, pending, n);
    InOrder(pending, n - 1, n);
    NextPending(w.queue, v, w.cursor, n);
    FrontIsOlder(pending, n);
    Rejoin(w.got, pending, n);
  }

  lemma Rejoin(got: seq<Row>, pending: seq<Row>, n: nat)
    requires n <= |pending|
    ensures got + pending[..n] + pending[n..] == got + pending
  {
  }

  lemma LongPoll(v: Viewer, limit: int, w: Watch, pending: seq<Row>, n: nat)
    requires pending == Select(w.queue, v, Some(w.cursor)) && |pending| > n == Limit(limit)
    ensures Step(v, limit, w, Polls) == Watch(w.queue, pending[n - 1].created, w.got + pending[..n])
    ensures w.cursor < pending[n - 1].created
  {
    PageShrinks(w.queue, v, w.cursor, limit);
  }

  lemma FrontIsOlder(rows: seq<Row>, n: nat)
    requires Ascending(rows) && 0 < n <= |rows|
    ensures forall r | r in rows[..n] :: r.created <= rows[n - 1].created
  {
    PrefixInOrder(rows, n);
    forall r | r in rows[..n]
      ensures r.created <= rows[n - 1].created
    {
      LastIsNewest(rows[..n], r);
    }
  }

  /**
   * However calls and arrivals follow each other, what the client has got and
   * what is still waiting for it are the rows that waited at first and all visible
   * arrivals: each once, in order of time, none lost and none returned twice.
   */
  lemma {:induction false} NothingIsLost(v: Viewer, limit: int, w: Watch, hs: seq<Happening>)
    requires Good(w) && Orderly(v, limit, w, hs)
    ensures Log(v, Run(v, limit, w, hs)) == WithArrivals(v, Log(v, w), hs)
    decreases hs
  {
    if hs != [] {
      if hs[0].Polls? {
        PollKeepsLog(v, limit, w);
      } else {
        ArrivalKeepsLog(v, w, hs[0].row);
      }
      NothingIsLost(v, limit, Step(v, limit, w, hs[0]), hs[1..]);
    }
  }
}
