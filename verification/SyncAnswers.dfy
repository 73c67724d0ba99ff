/** What one call of Sync selects, answers, marks and reports. */
module SyncAnswers {
  import opened Arithmetic
  import opened Queue
  import opened Sync
  import opened Wrappers

  /** The rows a call wants: to the viewer, one of its rooms or from it; after a cursor only queued and newer ones. */
  lemma WantedExactly(q: seq<Row>, v: Viewer, since: Option<Time>, r: Row)
    ensures r in Select(q, v, since) <==>
      && r in q
      && (r.content.recipient in v.recipients || r.content.sender == v.me)
      && (since == None || (r.status == Queued && r.created > since.value))
  {
    SelectRows(q, v, since, r);
  }

  /** The limit in force. */
  function RowsPerPage(limit: int): int {
    if limit > 0 then limit else 100
  }

  /** After a cursor: the oldest wanted rows up to the limit, and the time of the last of them as the new cursor. */
  lemma LaterPageExactly(q: seq<Row>, v: Viewer, since: Time, limit: int)
    ensures var wanted, n := Select(q, v, Some(since)), RowsPerPage(limit);
            var a := Page(q, v, Some(since), limit);
            && a.events == (if |wanted| > n then wanted[..n] else wanted)
            && a.next == (if wanted == [] then None else Some(a.events[|a.events| - 1].created))
  {
  }

  /** On a first load: all rows, or all but the newest of the last n + 1, and the time of the first or second of them. */
  lemma FirstPageExactly(q: seq<Row>, v: Viewer, limit: int)
    ensures var wanted, n := Select(q, v, None), RowsPerPage(limit);
            var a := Page(q, v, None, limit);
            if |wanted| > n
            then a.events == wanted[|wanted| - n - 1..][..n] && a.next == Some(wanted[|wanted| - n].created)
            else a.events == wanted && a.next == (if wanted == [] then None else Some(wanted[0].created))
  {
    var wanted, n := Select(q, v, None), RowsPerPage(limit);
    if |wanted| > n {
      assert wanted[|wanted| - n - 1..][1] == wanted[|wanted| - n];
    }
  }

  // ---------------------------------------------------------------------- delivered

  /** A row that came in for the viewer with a last page. */
  ghost predicate IsIncoming(q: seq<Row>, v: Viewer, since: Option<Time>, r: Row) {
    r in Select(q, v, since) && r.content.sender != v.me
  }

  /** A page that is not the last marks nothing; a last page marks exactly the rows with the ids of its incoming ones. */
  lemma MarkedExactly(q: seq<Row>, v: Viewer, since: Option<Time>, limit: int, i: nat)
    requires i < |q|
    ensures var after := AfterPage(q, v, since, limit);
            && |after| == |q|
            && after[i] == Row(q[i].eventId, q[i].content, q[i].created, after[i].status)
            && (after[i].status == Delivered <==>
                  || q[i].status == Delivered
                  || (|Select(q, v, since)| <= RowsPerPage(limit)
                      && exists r :: IsIncoming(q, v, since, r) && r.eventId == q[i].eventId))
  {
    var wanted := Select(q, v, since);
    if r :| IsIncoming(q, v, since, r) && r.eventId == q[i].eventId {
      assert r.eventId in Incoming(wanted, v.me);
    }
    if q[i].eventId in Incoming(wanted, v.me) {
      var r :| r in wanted && r.content.sender != v.me && r.eventId == q[i].eventId;
      assert IsIncoming(q, v, since, r);
    }
  }

  lemma {:induction false} NoticesExactly(events: seq<Row>, me: Addr, n: Notice)
    ensures n in Notices(events, me) <==>
      exists r :: r in events && r.content.sender != me && n == Notice(r.content.sender, r.eventId)
  {
    if events != [] {
      var front, last := events[..|events| - 1], events[|events| - 1];
      NoticesExactly(front, me, n);
      assert events == front + [last];
      if r :| r in events && r.content.sender != me && n == Notice(r.content.sender, r.eventId) && r != last {
        assert r in front;
      }
    }
  }

  /** Each incoming row is reported once. */
  lemma {:induction false} NoticeForEach(events: seq<Row>, me: Addr, k: nat)
    requires k < |events| && events[k].content.sender != me
    ensures var before := |Notices(events[..k], me)|;
            before < |Notices(events, me)|
            && Notices(events, me)[before] == Notice(events[k].content.sender, events[k].eventId)
  {
    var last := |events| - 1;
    if k < last {
      NoticeForEach(events[..last], me, k);
      assert events[..last][..k] == events[..k];
    }
  }

  /** The sender is told exactly of the rows that came in with a last page. */
  lemma ReportedExactly(q: seq<Row>, v: Viewer, since: Option<Time>, limit: int, n: Notice)
    ensures n in Page(q, v, since, limit).delivered <==>
      && |Select(q, v, since)| <= RowsPerPage(limit)
      && exists r :: IsIncoming(q, v, since, r) && n == Notice(r.content.sender, r.eventId)
  {
    NoticesExactly(Select(q, v, since), v.me, n);
    if r :| r in Select(q, v, since) && r.content.sender != v.me && n == Notice(r.content.sender, r.eventId) {
      assert IsIncoming(q, v, since, r);
    }
  }

  // ----------------------------------------------------------------------- last page

  /** The last page of a drain begins after whole pages and is not empty. */
  lemma {:induction false} LastPageExactly(wanted: seq<Row>, n: nat) returns (pages: nat)
    requires n > 0 && wanted != []
    ensures pages * n < |wanted| <= pages * n + n
    ensures LastPage(wanted, n) == wanted[pages * n..]
    decreases |wanted|
  {
    if |wanted| > n {
      var more := LastPageExactly(wanted[n..], n);
      pages := more + 1;
      Distribute(more, 1, n);
      assert wanted[n..][more * n..] == wanted[pages * n..];
    } else {
      pages := 0;
    }
  }
}
