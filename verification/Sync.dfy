/**
 * Sync: cursor pagination over the queue with one row of lookahead, the first
 * load in descending order reversed in place, and delivery marking.
 * `Page` says what one call answers; `Drain` repeats calls until a page is empty.
 */
module Sync {
  import opened Queue
  import opened Wrappers

  /** Who syncs: the own address and every address whose messages come in (own and rooms). */
  datatype Viewer = Viewer(me: Addr, recipients: set<Addr>)

  predicate Visible(r: Row, v: Viewer) {
    r.content.recipient in v.recipients || r.content.sender == v.me
  }

  /** The WHERE clause: without a cursor the whole history, with one the queued rows after it. */
  predicate Wanted(r: Row, v: Viewer, since: Option<Time>) {
    Visible(r, v) && (since.None? || (r.status.Queued? && r.created > since.value))
  }

  /** The wanted rows, oldest first. */
  function Select(q: seq<Row>, v: Viewer, since: Option<Time>): seq<Row> {
    if q == [] then []
    else (if Wanted(q[0], v, since) then [q[0]] else []) + Select(q[1..], v, since)
  }

  lemma {:induction false} SelectRows(q: seq<Row>, v: Viewer, since: Option<Time>, r: Row)
    ensures r in Select(q, v, since) <==> r in q && Wanted(r, v, since)
  {
    if q != [] {
      SelectRows(q[1..], v, since, r);
      assert q == [q[0]] + q[1..];
    }
  }

  /** UPDATE message_queue SET status = 'delivered' for the given event ids. */
  function MarkDelivered(q: seq<Row>, ids: set<EventId>): (m: seq<Row>)
    ensures |m| == |q|
    ensures forall i | 0 <= i < |q| ::
              m[i] == if q[i].eventId in ids then q[i].(status := Delivered) else q[i]
  {
    seq(|q|, i requires 0 <= i < |q| => if q[i].eventId in ids then q[i].(status := Delivered) else q[i])
  }

  function Incoming(events: seq<Row>, me: Addr): set<EventId> {
    set r | r in events && r.content.sender != me :: r.eventId
  }

  datatype Notice = Notice(sender: Addr, eventId: EventId)

  /** The notices for the incoming events, in their order. */
  function Notices(events: seq<Row>, me: Addr): seq<Notice> {
    if events == [] then []
    else
      var last := events[|events| - 1];
      Notices(events[..|events| - 1], me)
      + (if last.content.sender != me then [Notice(last.content.sender, last.eventId)] else [])
  }

  datatype Answer = Answer(events: seq<Row>, next: Option<Time>, delivered: seq<Notice>)

  function Limit(limit: int): (n: nat)
    ensures n > 0
  {
    if limit <= 0 then 100 else limit
  }

  /**
   * What one call answers. When more than `n` rows are wanted it returns `n` of
   * them and marks nothing; otherwise it returns all and marks the incoming ones.
   */
  function Page(q: seq<Row>, v: Viewer, since: Option<Time>, limit: int): Answer {
    var n := Limit(limit);
    var wanted := Select(q, v, since);
    if |wanted| > n then LongPage(wanted, since.Some?, n) else ShortPage(wanted, since.Some?, v.me)
  }

  /** The first load fetches the newest `n` + 1, then drops the newest of these. */
  function LongPage(wanted: seq<Row>, incremental: bool, n: nat): Answer
    requires |wanted| > n > 0
  {
    if incremental then Answer(wanted[..n], Some(wanted[n - 1].created), [])
    else
      var fetched := wanted[|wanted| - n - 1..];
      Answer(fetched[..n], Some(fetched[1].created), [])
  }

  function ShortPage(wanted: seq<Row>, incremental: bool, me: Addr): Answer {
    if wanted == [] then Answer([], None, [])
    else
      Answer(wanted, Some(wanted[if incremental then |wanted| - 1 else 0].created), Notices(wanted, me))
  }

  /** The queue after the call. */
  function AfterPage(q: seq<Row>, v: Viewer, since: Option<Time>, limit: int): seq<Row> {
    var wanted := Select(q, v, since);
    if |wanted| > Limit(limit) then q else MarkDelivered(q, Incoming(wanted, v.me))
  }

  /** The wanted rows in the order the SELECT returns them, cut at LIMIT limit + 1. */
  function Fetched(wanted: seq<Row>, incremental: bool, n: nat): seq<Row> {
    var ordered := if incremental then wanted else Reversed(wanted);
    if |ordered| > n + 1 then ordered[..n + 1] else ordered
  }

  function Reversed<T>(s: seq<T>): (r: seq<T>)
    ensures |r| == |s|
  {
    if s == [] then [] else Reversed(s[1..]) + [s[0]]
  }

  lemma {:induction false} ReversedAt<T>(s: seq<T>, i: nat)
    requires i < |s|
    ensures Reversed(s)[i] == s[|s| - 1 - i]
  {
    if i < |s| - 1 {
      ReversedAt(s[1..], i);
    }
  }

  lemma {:induction false} ReversedConcat<T>(a: seq<T>, b: seq<T>)
    ensures Reversed(a + b) == Reversed(b) + Reversed(a)
  {
    if a == [] {
      assert a + b == b;
    } else {
      ReversedConcat(a[1..], b);
      assert (a + b)[1..] == a[1..] + b;
    }
  }

  lemma {:induction false} ReversedTwice<T>(s: seq<T>)
    ensures Reversed(Reversed(s)) == s
  {
    if s != [] {
      ReversedTwice(s[1..]);
      ReversedConcat(Reversed(s[1..]), [s[0]]);
    }
  }

  /** Every page lists its rows oldest first, also the first load with its descending fetch. */
  lemma PageAscends(q: seq<Row>, v: Viewer, since: Option<Time>, limit: int)
    requires Ascending(q)
    ensures Ascending(Page(q, v, since, limit).events)
  {
    var n, wanted := Limit(limit), Select(q, v, since);
    SelectAscending(q, v, since);
    if |wanted| <= n {
      assert Page(q, v, since, limit).events == wanted;
    } else if since.Some? {
      PrefixInOrder(wanted, n);
    } else {
      var fetched := wanted[|wanted| - n - 1..];
      SuffixInOrder(wanted, |wanted| - n - 1);
      PrefixInOrder(fetched, n);
    }
  }

  // --------------------------------------------------------------- repeated calls

  lemma {:induction false} SelectNoMore(q: seq<Row>, v: Viewer, s: Time, s': Time)
    requires s <= s'
    ensures |Select(q, v, Some(s'))| <= |Select(q, v, Some(s))|
    ensures (exists r :: r in Select(q, v, Some(s)) && r.created <= s')
              ==> |Select(q, v, Some(s'))| < |Select(q, v, Some(s))|
  {
    if q != [] {
      SelectNoMore(q[1..], v, s, s');
    }
  }

  lemma {:induction false} MarkedSelect(q: seq<Row>, v: Viewer, s: Time, ids: set<EventId>)
    ensures |Select(MarkDelivered(q, ids), v, Some(s))| <= |Select(q, v, Some(s))|
  {
    if q != [] {
      assert MarkDelivered(q, ids)[1..] == MarkDelivered(q[1..], ids);
      MarkedSelect(q[1..], v, s, ids);
    }
  }

  lemma PageShrinks(q: seq<Row>, v: Viewer, since: Time, limit: int)
    requires Select(q, v, Some(since)) != []
    ensures var a := Page(q, v, Some(since), limit);
            && a.next.Some? && a.next.value > since
            && |Select(AfterPage(q, v, Some(since), limit), v, a.next)| < |Select(q, v, Some(since))|
  {
    var wanted := Select(q, v, Some(since));
    var a := Page(q, v, Some(since), limit);
    var last := if |wanted| > Limit(limit) then wanted[Limit(limit) - 1] else wanted[|wanted| - 1];
    assert last in wanted;
    SelectRows(q, v, Some(since), last);
    SelectNoMore(q, v, since, a.next.value);
    MarkedSelect(q, v, a.next.value, Incoming(wanted, v.me));
  }

  datatype Drained = Drained(events: seq<Row>, queue: seq<Row>)

  /** Calls Sync with the returned cursor again and again until it answers with no events. */
  function Drain(q: seq<Row>, v: Viewer, since: Time, limit: int): Drained
    decreases |Select(q, v, Some(since))|
  {
    if Select(q, v, Some(since)) == [] then Drained([], q)
    else
      PageShrinks(q, v, since, limit);
      var a := Page(q, v, Some(since), limit);
      var rest := Drain(AfterPage(q, v, Some(since), limit), v, a.next.value, limit);
      Drained(a.events + rest.events, rest.queue)
  }

  /** No two rows with the same creation time stand on either side of the end of a page. */
  ghost predicate CleanCuts(wanted: seq<Row>, n: nat)
    requires n > 0
    decreases |wanted|
  {
    |wanted| > n ==> wanted[n - 1].created < wanted[n].created && CleanCuts(wanted[n..], n)
  }

  /** The rows of the last non-empty page. */
  function LastPage(wanted: seq<Row>, n: nat): seq<Row>
    requires n > 0
    decreases |wanted|
  {
    if |wanted| > n then LastPage(wanted[n..], n) else wanted
  }

  function NewerThan(rows: seq<Row>, cursor: Time): seq<Row> {
    if rows == [] then []
    else (if rows[0].created > cursor then [rows[0]] else []) + NewerThan(rows[1..], cursor)
  }

  lemma {:induction false} SelectTwice(q: seq<Row>, v: Viewer, s: Time, cursor: Time)
    requires s <= cursor
    ensures Select(q, v, Some(cursor)) == NewerThan(Select(q, v, Some(s)), cursor)
  {
    if q != [] {
      SelectTwice(q[1..], v, s, cursor);
      var rest := Select(q[1..], v, Some(s));
      if Wanted(q[0], v, Some(s)) {
        assert ([q[0]] + rest)[1..] == rest;
      } else {
        assert [] + rest == rest;
      }
    }
  }

  lemma {:induction false} SelectAscending(q: seq<Row>, v: Viewer, since: Option<Time>)
    requires Ascending(q)
    ensures Ascending(Select(q, v, since))
    ensures DistinctTimes(q) ==> DistinctTimes(Select(q, v, since))
  {
    if q != [] {
      SelectAscending(q[1..], v, since);
      forall r | r in Select(q[1..], v, since)
        ensures q[0].created <= r.created
        ensures DistinctTimes(q) ==> q[0].created != r.created
      {
        SelectRows(q[1..], v, since, r);
      }
      assert Wanted(q[0], v, since) ==> Select(q, v, since)[1..] == Select(q[1..], v, since);
      assert !Wanted(q[0], v, since) ==> Select(q, v, since) == Select(q[1..], v, since);
    }
  }

  lemma {:induction false} SelectKeepsDistinctIds(q: seq<Row>, v: Viewer, since: Option<Time>)
    requires DistinctIds(q)
    ensures DistinctIds(Select(q, v, since))
  {
    if q != [] {
      SelectKeepsDistinctIds(q[1..], v, since);
      var rest := Select(q[1..], v, since);
      forall r | r in rest
        ensures r.eventId != q[0].eventId
      {
        SelectRows(q[1..], v, since, r);
      }
      assert Select(q, v, since) == if Wanted(q[0], v, since) then [q[0]] + rest else rest;
    }
  }

  lemma {:induction false} NewerThanAll(rows: seq<Row>, cursor: Time)
    requires forall r | r in rows :: r.created > cursor
    ensures NewerThan(rows, cursor) == rows
  {
    if rows != [] {
      NewerThanAll(rows[1..], cursor);
    }
  }

  /** Past a clean cut the rows newer than the row before it are the rest. */
  lemma {:induction false} NewerThanCut(rows: seq<Row>, k: nat)
    requires Ascending(rows) && 0 < k <= |rows|
    requires k < |rows| ==> rows[k - 1].created < rows[k].created
    ensures NewerThan(rows, rows[k - 1].created) == rows[k..]
  {
    if k == 1 {
      forall r | r in rows[1..]
        ensures r.created > rows[0].created
      {
        assert r == rows[1] || r in rows[1..][1..];
      }
      NewerThanAll(rows[1..], rows[0].created);
    } else {
      NewerThanCut(rows[1..], k - 1);
      assert rows[1..][k - 1..] == rows[k..];
    }
  }

  lemma {:induction false} DrainedAreNewer(q: seq<Row>, v: Viewer, since: Time, limit: int)
    ensures forall r | r in Drain(q, v, since, limit).events :: r.created > since
    decreases |Select(q, v, Some(since))|
  {
    if Select(q, v, Some(since)) != [] {
      PageShrinks(q, v, since, limit);
      var a := Page(q, v, Some(since), limit);
      forall r | r in a.events
        ensures r.created > since
      {
        SelectRows(q, v, Some(since), r);
      }
      DrainedAreNewer(AfterPage(q, v, Some(since), limit), v, a.next.value, limit);
    }
  }

  lemma {:induction false} NothingNewer(rows: seq<Row>, cursor: Time)
    requires forall r | r in rows :: r.created <= cursor
    ensures NewerThan(rows, cursor) == []
  {
    if rows != [] {
      NothingNewer(rows[1..], cursor);
    }
  }

  /**
   * Draining from a cursor returns every queued visible row newer than it, each
   * once and oldest first, exactly when no page ends between rows of equal time;
   * then only the incoming rows of the last page have become delivered.
   */
  lemma {:induction false} DrainIsComplete(q: seq<Row>, v: Viewer, since: Time, limit: int)
    requires Ascending(q)
    ensures var pending, d := Select(q, v, Some(since)), Drain(q, v, since, limit);
            && (d.events == pending <==> CleanCuts(pending, Limit(limit)))
            && (CleanCuts(pending, Limit(limit)) ==>
                  d.queue == MarkDelivered(q, Incoming(LastPage(pending, Limit(limit)), v.me)))
    decreases |Select(q, v, Some(since))|
  {
    var n := Limit(limit);
    var pending := Select(q, v, Some(since));
    SelectAscending(q, v, Some(since));
    if |pending| <= n {
      DrainShort(q, v, since, limit);
    } else {
      DrainLong(q, v, since, limit);
      if pending[n - 1].created < pending[n].created {
        var next := pending[n - 1].created;
        NextPending(q, v, since, n);
        DrainIsComplete(q, v, next, limit);
        CancelFront(pending, n, Drain(q, v, next, limit).events);
      } else {
        TieLosesRow(q, v, since, limit);
      }
    }
  }

  lemma DrainShort(q: seq<Row>, v: Viewer, since: Time, limit: int)
    requires Ascending(q) && |Select(q, v, Some(since))| <= Limit(limit)
    ensures var pending := Select(q, v, Some(since));
            Drain(q, v, since, limit) == Drained(pending, MarkDelivered(q, Incoming(pending, v.me)))
  {
    var pending := Select(q, v, Some(since));
    if pending == [] {
      assert Incoming(pending, v.me) == {};
      assert MarkDelivered(q, {}) == q;
    } else {
      SelectAscending(q, v, Some(since));
      var after := MarkDelivered(q, Incoming(pending, v.me));
      var next := pending[|pending| - 1].created;
      LastPageEnds(q, v, since, next, pending);
      assert Drain(after, v, next, limit) == Drained([], after);
      PageShrinks(q, v, since, limit);
      assert AfterPage(q, v, Some(since), limit) == after;
      assert Page(q, v, Some(since), limit).next == Some(next);
      assert pending + [] == pending;
    }
  }

  lemma LastPageEnds(q: seq<Row>, v: Viewer, since: Time, next: Time, pending: seq<Row>)
    requires pending == Select(q, v, Some(since)) != [] && Ascending(pending)
    requires next == pending[|pending| - 1].created
    ensures Select(MarkDelivered(q, Incoming(pending, v.me)), v, Some(next)) == []
  {
    forall r | r in pending
      ensures r.created <= next
    {
      LastIsNewest(pending, r);
    }
    SelectRows(q, v, Some(since), pending[|pending| - 1]);
    LastCallIsEmpty(q, v, since, next, Incoming(pending, v.me));
  }

  lemma DrainLong(q: seq<Row>, v: Viewer, since: Time, limit: int)
    requires |Select(q, v, Some(since))| > Limit(limit)
    ensures var pending, n := Select(q, v, Some(since)), Limit(limit);
            var rest := Drain(q, v, pending[n - 1].created, limit);
            && Drain(q, v, since, limit) == Drained(pending[..n] + rest.events, rest.queue)
            && |Select(q, v, Some(pending[n - 1].created))| < |pending|
  {
    PageShrinks(q, v, since, limit);
  }

  /** Past a clean cut the next call wants what the last one left. */
  lemma NextPending(q: seq<Row>, v: Viewer, since: Time, n: nat)
    requires Ascending(q) && 0 < n < |Select(q, v, Some(since))|
    requires var pending := Select(q, v, Some(since)); pending[n - 1].created < pending[n].created
    ensures var pending := Select(q, v, Some(since));
            Select(q, v, Some(pending[n - 1].created)) == pending[n..]
  {
    var pending := Select(q, v, Some(since));
    SelectAscending(q, v, Some(since));
    SelectRows(q, v, Some(since), pending[n - 1]);
    SelectTwice(q, v, since, pending[n - 1].created);
    NewerThanCut(pending, n);
  }

  lemma CancelFront(rows: seq<Row>, n: nat, rest: seq<Row>)
    requires n <= |rows|
    ensures rows[..n] + rest == rows <==> rest == rows[n..]
  {
  }

  /** A row with the time of the cursor is in none of the pages after the cursor. */
  lemma TieLosesRow(q: seq<Row>, v: Viewer, since: Time, limit: int)
    requires Ascending(q) && |Select(q, v, Some(since))| > Limit(limit)
    requires var pending, n := Select(q, v, Some(since)), Limit(limit); pending[n - 1].created >= pending[n].created
    ensures var pending, n := Select(q, v, Some(since)), Limit(limit);
            var rest := Drain(q, v, pending[n - 1].created, limit).events;
            && Drain(q, v, since, limit).events == pending[..n] + rest
            && pending[n] !in rest
            && pending[..n] + rest != pending
  {
    var pending, n := Select(q, v, Some(since)), Limit(limit);
    DrainLong(q, v, since, limit);
    var rest := Drain(q, v, pending[n - 1].created, limit).events;
    DrainedAreNewer(q, v, pending[n - 1].created, limit);
    CancelFront(pending, n, rest);
    LostRow(pending, n, rest, pending[n - 1].created);
  }

  lemma LostRow(rows: seq<Row>, n: nat, rest: seq<Row>, cursor: Time)
    requires n < |rows| && rows[n].created <= cursor && forall r | r in rest :: r.created > cursor
    ensures rows[n] !in rest && rest != rows[n..]
  {
  }

  lemma LastIsNewest(rows: seq<Row>, r: Row)
    requires Ascending(rows) && r in rows
    ensures r.created <= rows[|rows| - 1].created
  {
  }

  /** After the last page no queued row is newer than the cursor. */
  lemma LastCallIsEmpty(q: seq<Row>, v: Viewer, since: Time, next: Time, ids: set<EventId>)
    requires since <= next && forall r | r in Select(q, v, Some(since)) :: r.created <= next
    ensures Select(MarkDelivered(q, ids), v, Some(next)) == []
  {
    SelectTwice(q, v, since, next);
    NothingNewer(Select(q, v, Some(since)), next);
    MarkedSelect(q, v, next, ids);
  }

  lemma {:induction false} DistinctTimesCutClean(wanted: seq<Row>, n: nat)
    requires n > 0 && Ascending(wanted) && DistinctTimes(wanted)
    ensures CleanCuts(wanted, n)
    decreases |wanted|
  {
    if |wanted| > n {
      InOrder(wanted, n - 1, n);
      SuffixInOrder(wanted, n);
      DistinctTimesCutClean(wanted[n..], n);
    }
  }

  /** With distinct creation times nothing is lost, whatever the cursor and the page size. */
  lemma DrainWithDistinctTimes(q: seq<Row>, v: Viewer, since: Time, limit: int)
    requires Ascending(q) && DistinctTimes(q)
    ensures var pending := Select(q, v, Some(since));
            Drain(q, v, since, limit)
              == Drained(pending, MarkDelivered(q, Incoming(LastPage(pending, Limit(limit)), v.me)))
  {
    SelectAscending(q, v, Some(since));
    DistinctTimesCutClean(Select(q, v, Some(since)), Limit(limit));
    DrainIsComplete(q, v, since, limit);
  }

  // ------------------------------------------------------------------- first load

  /** Every queued visible row newer than the oldest row of the page is in the page or in the rest. */
  ghost predicate MissesNothing(q: seq<Row>, v: Viewer, page: seq<Row>, rest: seq<Row>) {
    page == [] || Reached(q, v, page[0].created, page, rest)
  }

  ghost predicate Reached(q: seq<Row>, v: Viewer, oldest: Time, page: seq<Row>, rest: seq<Row>) {
    forall r | r in q && Visible(r, v) && r.status.Queued? && r.created > oldest :: r in page || r in rest
  }

  /** What the calls after a first load return. */
  function AfterFirstLoad(q: seq<Row>, v: Viewer, limit: int): seq<Row> {
    var next := Page(q, v, None, limit).next;
    if next.None? then [] else Drain(AfterPage(q, v, None, limit), v, next.value, limit).events
  }

  /**
   * The first load fetches the newest rows, one more than the limit, and the
   * trimming after the reversal drops the very newest. With `h` the history, the
   * cursor is the time of h[|h| - n] and the page begins with h[|h| - n - 1]. So
   * the newest row is missed exactly when it is still queued, newer than the
   * page's first row and not newer than the cursor; nothing else ever is.
   */
  lemma FirstLoadExactly(q: seq<Row>, v: Viewer, limit: int)
    requires Ascending(q) && DistinctIds(q)
    ensures var h, n := Select(q, v, None), Limit(limit);
            MissesNothing(q, v, Page(q, v, None, limit).events, AfterFirstLoad(q, v, limit))
            <==> !(&& |h| > n && h[|h| - 1].status.Queued?
                   && h[|h| - n - 1].created < h[|h| - 1].created <= h[|h| - n].created)
  {
    var n, h := Limit(limit), Select(q, v, None);
    if |h| > n {
      TrimmedFirstLoad(q, v, limit, h, |h| - n - 1);
    } else {
      ShortFirstLoadMissesNothing(q, v, h, AfterFirstLoad(q, v, limit));
    }
  }

  lemma TrimmedFirstLoad(q: seq<Row>, v: Viewer, limit: int, h: seq<Row>, k: nat)
    requires Ascending(q) && DistinctIds(q)
    requires h == Select(q, v, None) && |h| > Limit(limit) && k == |h| - Limit(limit) - 1
    ensures MissesNothing(q, v, Page(q, v, None, limit).events, AfterFirstLoad(q, v, limit))
       <==> !(h[|h| - 1].status.Queued? && h[k].created < h[|h| - 1].created <= h[k + 1].created)
  {
    SelectAscending(q, v, None);
    SelectKeepsDistinctIds(q, v, None);
    AfterLongFirstLoad(q, v, limit, h, k);
    LongFirstLoadExactly(q, v, h, k, h[k..][..|h| - k - 1], Select(q, v, Some(h[k + 1].created)));
  }

  lemma ShortFirstLoadMissesNothing(q: seq<Row>, v: Viewer, h: seq<Row>, rest: seq<Row>)
    requires h == Select(q, v, None)
    ensures MissesNothing(q, v, h, rest)
  {
    forall r | r in q && Visible(r, v)
      ensures r in h
    {
      SelectRows(q, v, None, r);
    }
  }

  lemma LongFirstLoadExactly(q: seq<Row>, v: Viewer, h: seq<Row>, k: nat, page: seq<Row>, rest: seq<Row>)
    requires Ascending(h) && DistinctIds(h) && k + 1 < |h|
    requires h == Select(q, v, None) && page == h[k..][..|h| - k - 1] && rest == Select(q, v, Some(h[k + 1].created))
    ensures MissesNothing(q, v, page, rest)
       <==> !(h[|h| - 1].status.Queued? && h[k].created < h[|h| - 1].created <= h[k + 1].created)
  {
    CutBeforeLast(h, k, page);
    OnlyNewestIsDropped(h, k, page);
    assert h[|h| - 1] in h;
    OnlyNewestMayMiss(q, v, page, h[k].created, h[|h| - 1], h[k + 1].created);
  }

  lemma CutBeforeLast(h: seq<Row>, k: nat, page: seq<Row>)
    requires k + 1 < |h| && page == h[k..][..|h| - k - 1]
    ensures page != [] && page[0] == h[k] && h[k..] == page + [h[|h| - 1]]
    ensures forall r | r in page :: r in h[..|h| - 1]
  {
    forall r | r in page
      ensures r in h[..|h| - 1]
    {
      var i :| 0 <= i < |page| && page[i] == r;
      assert h[..|h| - 1][k + i] == r;
    }
  }

  lemma OnlyNewestIsDropped(h: seq<Row>, k: nat, page: seq<Row>)
    requires Ascending(h) && DistinctIds(h) && k + 1 < |h|
    requires h[k..] == page + [h[|h| - 1]] && forall r | r in page :: r in h[..|h| - 1]
    ensures h[|h| - 1] !in page
    ensures forall r | r in h && r.created > h[k].created :: r in page || r == h[|h| - 1]
  {
    LastIsOnce(h);
    NewerAreFetched(h, k, page);
  }

  /** When only the newest row is not on the page, all depends on whether the cursor is older than it. */
  lemma OnlyNewestMayMiss(q: seq<Row>, v: Viewer, page: seq<Row>, oldest: Time, newest: Row, cursor: Time)
    requires newest in Select(q, v, None) && newest !in page
    requires forall r | r in Select(q, v, None) && r.created > oldest :: r in page || r == newest
    ensures Reached(q, v, oldest, page, Select(q, v, Some(cursor)))
       <==> !(newest.status.Queued? && oldest < newest.created <= cursor)
  {
    SelectRows(q, v, None, newest);
    SelectRows(q, v, Some(cursor), newest);
    forall r | r in q && Visible(r, v) && r.created > oldest
      ensures r in page || r == newest
    {
      SelectRows(q, v, None, r);
    }
  }

  lemma NewerAreFetched(history: seq<Row>, k: nat, page: seq<Row>)
    requires Ascending(history) && k < |history| && history[k..] == page + [history[|history| - 1]]
    ensures forall r | r in history && r.created > history[k].created :: r in page || r == history[|history| - 1]
  {
    forall r | r in history && r.created > history[k].created
      ensures r in page || r == history[|history| - 1]
    {
      RowAfter(history, k, r);
    }
  }

  lemma {:induction false} LastIsOnce(rows: seq<Row>)
    requires DistinctIds(rows) && rows != []
    ensures rows[|rows| - 1] !in rows[..|rows| - 1]
  {
    if |rows| > 1 {
      LastIsOnce(rows[1..]);
      assert rows[1..][..|rows| - 2] == rows[1..|rows| - 1];
      assert rows[..|rows| - 1] == [rows[0]] + rows[1..|rows| - 1];
      assert rows[|rows| - 1] in rows[1..];
    }
  }

  lemma {:induction false} NewerInHistory(q: seq<Row>, v: Viewer, cursor: Time)
    ensures |Select(q, v, Some(cursor))| <= |NewerThan(Select(q, v, None), cursor)|
  {
    if q != [] {
      NewerInHistory(q[1..], v, cursor);
      var rest := Select(q[1..], v, None);
      assert ([q[0]] + rest)[1..] == rest && [] + rest == rest;
    }
  }

  lemma {:induction false} NewerThanMember(rows: seq<Row>, k: nat)
    requires Ascending(rows) && k < |rows|
    ensures |NewerThan(rows, rows[k].created)| < |rows| - k
  {
    if k > 0 {
      InOrder(rows, 0, k);
      NewerThanMember(rows[1..], k - 1);
    } else {
      NewerThanLength(rows[1..], rows[0].created);
    }
  }

  lemma {:induction false} NewerThanLength(rows: seq<Row>, cursor: Time)
    ensures |NewerThan(rows, cursor)| <= |rows|
  {
    if rows != [] {
      NewerThanLength(rows[1..], cursor);
    }
  }

  lemma LongFirstPage(q: seq<Row>, v: Viewer, limit: int, h: seq<Row>, k: nat)
    requires h == Select(q, v, None) && |h| > Limit(limit) && k == |h| - Limit(limit) - 1
    ensures Page(q, v, None, limit).events == h[k..][..|h| - k - 1]
    ensures AfterFirstLoad(q, v, limit) == Drain(q, v, h[k + 1].created, limit).events
  {
    assert h[k..][1] == h[k + 1];
  }

  /** After a long first load so few rows are newer than the cursor that one page holds them, whatever their times. */
  lemma AfterLongFirstLoad(q: seq<Row>, v: Viewer, limit: int, h: seq<Row>, k: nat)
    requires Ascending(q) && h == Select(q, v, None) && |h| > Limit(limit) && k == |h| - Limit(limit) - 1
    ensures Page(q, v, None, limit).events == h[k..][..|h| - k - 1]
    ensures AfterFirstLoad(q, v, limit) == Select(q, v, Some(h[k + 1].created))
  {
    var cursor := h[k + 1].created;
    LongFirstPage(q, v, limit, h, k);
    SelectAscending(q, v, None);
    NewerInHistory(q, v, cursor);
    NewerThanMember(h, k + 1);
    DrainShort(q, v, cursor, limit);
  }

  /** With distinct times only limit 1 loses a row. */
  lemma FirstLoadWithDistinctTimes(q: seq<Row>, v: Viewer, limit: int)
    requires Ascending(q) && DistinctIds(q) && DistinctTimes(q)
    ensures var h := Select(q, v, None);
            MissesNothing(q, v, Page(q, v, None, limit).events, AfterFirstLoad(q, v, limit))
            <==> !(Limit(limit) == 1 && |h| > 1 && h[|h| - 1].status.Queued?)
  {
    var n, h := Limit(limit), Select(q, v, None);
    FirstLoadExactly(q, v, limit);
    SelectAscending(q, v, None);
    if |h| > n {
      InOrder(h, |h| - n - 1, |h| - 1);
      if n > 1 {
        InOrder(h, |h| - n, |h| - 1);
      }
    }
  }

  /** At limit 2, of three queued rows of which the newer two have one time, the third never arrives. */
  lemma FirstLoadTie(a: Row, b: Row, c: Row, v: Viewer)
    requires a.eventId != b.eventId && a.eventId != c.eventId && b.eventId != c.eventId
    requires a.created < b.created == c.created
    requires forall r | r in [a, b, c] :: Visible(r, v) && r.status.Queued?
    ensures Ascending([a, b, c]) && DistinctIds([a, b, c])
    ensures Page([a, b, c], v, None, 2).events == [a, b] && c !in AfterFirstLoad([a, b, c], v, 2)
    ensures !MissesNothing([a, b, c], v, [a, b], AfterFirstLoad([a, b, c], v, 2))
  {
    var q := [a, b, c];
    ThreeRows(a, b, c);
    SelectEverything(q, v);
    FirstLoadExactly(q, v, 2);
    AfterLongFirstLoad(q, v, 2, q, 0);
    SelectRows(q, v, Some(b.created), c);
    assert q[0..][..2] == [a, b];
  }

  lemma ThreeRows(a: Row, b: Row, c: Row)
    requires a.eventId != b.eventId && a.eventId != c.eventId && b.eventId != c.eventId
    requires a.created <= b.created <= c.created
    ensures Ascending([a, b, c]) && DistinctIds([a, b, c])
  {
    assert [a, b, c][1..] == [b, c] && [b, c][1..] == [c];
    assert Ascending([c]) && Ascending([b, c]) && DistinctIds([c]) && DistinctIds([b, c]);
  }

  lemma {:induction false} SelectEverything(q: seq<Row>, v: Viewer)
    requires forall r | r in q :: Visible(r, v)
    ensures Select(q, v, None) == q
  {
    if q != [] {
      SelectEverything(q[1..], v);
    }
  }

  /** In an ascending list a member newer than the row at `k` stands after it. */
  lemma RowAfter(rows: seq<Row>, k: nat, r: Row)
    requires Ascending(rows) && k < |rows| && r in rows && r.created > rows[k].created
    ensures r in rows[k..]
  {
    var i :| 0 <= i < |rows| && rows[i] == r;
    if i < k {
      InOrder(rows, i, k);
    }
    assert rows[k..][i - k] == r;
  }
}
