/** The client's list of events: pages of Sync merged by event id. */
module Inbox {
  import opened Queue
  import opened Sync
  import opened Wrappers

  /** Undoes the base64 of the API where that shows a message prefix. */
  type Decoding = string -> string

  function Decode(d: Decoding, r: Row): Row {
    r.(content := r.content.(ciphertext := d(r.content.ciphertext)))
  }

  function DecodeAll(d: Decoding, rows: seq<Row>): (t: seq<Row>)
    ensures |t| == |rows| && forall i | 0 <= i < |rows| :: t[i] == Decode(d, rows[i])
  {
    seq(|rows|, i requires 0 <= i < |rows| => Decode(d, rows[i]))
  }

  /** The rows of a page whose ids the list does not hold. */
  function New(list: seq<Row>, page: seq<Row>): seq<Row> {
    if page == [] then []
    else if Stored(list, page[0].eventId) then New(list, page[1..])
    else [page[0]] + New(list, page[1..])
  }

  function Merge(d: Decoding, list: seq<Row>, page: seq<Row>): seq<Row> {
    list + DecodeAll(d, New(list, page))
  }

  lemma {:induction false} NewRows(list: seq<Row>, page: seq<Row>, r: Row)
    ensures r in New(list, page) <==> r in page && !Stored(list, r.eventId)
  {
    if page != [] {
      NewRows(list, page[1..], r);
      assert page == [page[0]] + page[1..];
    }
  }

  lemma {:induction false} NewKeepsDistinctIds(list: seq<Row>, page: seq<Row>)
    requires DistinctIds(page)
    ensures DistinctIds(New(list, page))
  {
    if page != [] {
      NewKeepsDistinctIds(list, page[1..]);
      forall r | r in New(list, page[1..])
        ensures r.eventId != page[0].eventId
      {
        NewRows(list, page[1..], r);
      }
    }
  }

  lemma DecodedIds(d: Decoding, rows: seq<Row>, id: EventId)
    ensures Stored(DecodeAll(d, rows), id) <==> Stored(rows, id)
  {
  }

  /** A merge holds exactly the ids of the list and of the page. */
  lemma MergedIds(d: Decoding, list: seq<Row>, page: seq<Row>, id: EventId)
    ensures Stored(Merge(d, list, page), id) <==> Stored(list, id) || Stored(page, id)
  {
    var added := New(list, page);
    DecodedIds(d, added, id);
    StoredIn(list, DecodeAll(d, added), id);
    if r :| r in page && r.eventId == id {
      NewRows(list, page, r);
    }
    if r :| r in added && r.eventId == id {
      NewRows(list, page, r);
    }
  }

  lemma StoredIn(a: seq<Row>, b: seq<Row>, id: EventId)
    ensures Stored(a + b, id) <==> Stored(a, id) || Stored(b, id)
  {
  }

  lemma {:induction false} DistinctAppend(a: seq<Row>, b: seq<Row>)
    ensures DistinctIds(a + b) <==>
      DistinctIds(a) && DistinctIds(b) && forall r | r in a :: !Stored(b, r.eventId)
  {
    if a == [] {
      assert a + b == b;
    } else {
      DistinctAppend(a[1..], b);
      assert (a + b)[0] == a[0] && (a + b)[1..] == a[1..] + b;
      assert a == [a[0]] + a[1..];
    }
  }

  /** The list stays in front; behind it come the rows of the page it did not hold, with their texts decoded. */
  lemma MergedRows(d: Decoding, list: seq<Row>, page: seq<Row>, x: Row)
    ensures var merged := Merge(d, list, page);
            && list <= merged
            && (x in merged[|list|..] <==>
                  exists r :: && r in page && (forall y | y in list :: y.eventId != r.eventId)
                              && x == Row(r.eventId, r.content.(ciphertext := d(r.content.ciphertext)),
                                          r.created, r.status))
  {
    var added := New(list, page);
    var merged := Merge(d, list, page);
    assert merged[|list|..] == DecodeAll(d, added);
    if x in merged[|list|..] {
      var i :| 0 <= i < |added| && DecodeAll(d, added)[i] == x;
      NewRows(list, page, added[i]);
    }
    if r :| && r in page && (forall y | y in list :: y.eventId != r.eventId)
            && x == Row(r.eventId, r.content.(ciphertext := d(r.content.ciphertext)), r.created, r.status) {
      NewRows(list, page, r);
      var i :| 0 <= i < |added| && added[i] == r;
      assert DecodeAll(d, added)[i] == x;
    }
  }

  /** A page of distinct rows never puts an id into the list twice. */
  lemma MergeKeepsDistinctIds(d: Decoding, list: seq<Row>, page: seq<Row>)
    requires DistinctIds(list) && DistinctIds(page)
    ensures DistinctIds(Merge(d, list, page))
  {
    var added := New(list, page);
    NewKeepsDistinctIds(list, page);
    DecodedDistinct(d, added);
    forall r | r in list
      ensures !Stored(DecodeAll(d, added), r.eventId)
    {
      DecodedIds(d, added, r.eventId);
      forall f | f in added
        ensures f.eventId != r.eventId
      {
        NewRows(list, page, f);
      }
    }
    DistinctAppend(list, DecodeAll(d, added));
  }

  lemma {:induction false} DecodedDistinct(d: Decoding, rows: seq<Row>)
    requires DistinctIds(rows)
    ensures DistinctIds(DecodeAll(d, rows))
  {
    if rows != [] {
      DecodedDistinct(d, rows[1..]);
      assert DecodeAll(d, rows)[1..] == DecodeAll(d, rows[1..]);
      forall r | r in DecodeAll(d, rows[1..])
        ensures r.eventId != rows[0].eventId
      {
        var i :| 0 <= i < |rows[1..]| && DecodeAll(d, rows[1..])[i] == r;
        assert rows[1..][i] in rows[1..];
      }
    }
  }

  lemma {:induction false} NothingNew(list: seq<Row>, page: seq<Row>)
    requires forall r | r in page :: Stored(list, r.eventId)
    ensures New(list, page) == []
  {
    if page != [] {
      assert page[0] in page;
      NothingNew(list, page[1..]);
    }
  }

  /** A late or repeated answer to the same request adds nothing. */
  lemma MergeTwice(d: Decoding, list: seq<Row>, page: seq<Row>)
    ensures Merge(d, Merge(d, list, page), page) == Merge(d, list, page)
  {
    forall r | r in page
      ensures Stored(Merge(d, list, page), r.eventId)
    {
      MergedIds(d, list, page, r.eventId);
    }
    NothingNew(Merge(d, list, page), page);
  }

  /** Two pages without a common id merge like one. */
  lemma MergeOneByOne(d: Decoding, list: seq<Row>, a: seq<Row>, b: seq<Row>)
    requires DistinctIds(a + b)
    ensures Merge(d, Merge(d, list, a), b) == Merge(d, list, a + b)
  {
    DistinctAppend(a, b);
    var first := Merge(d, list, a);
    forall r | r in b
      ensures Stored(first, r.eventId) <==> Stored(list, r.eventId)
    {
      MergedIds(d, list, a, r.eventId);
      NotInFront(a, b, r);
    }
    SameNew(list, first, b);
    NewAppend(list, a, b);
    DecodeAppend(d, list, New(list, a), New(list, b));
  }

  lemma NotInFront(a: seq<Row>, b: seq<Row>, r: Row)
    requires r in b && forall x | x in a :: !Stored(b, x.eventId)
    ensures !Stored(a, r.eventId)
  {
  }

  lemma DecodeAppend(d: Decoding, list: seq<Row>, a: seq<Row>, b: seq<Row>)
    ensures list + DecodeAll(d, a) + DecodeAll(d, b) == list + DecodeAll(d, a + b)
  {
  }

  lemma {:induction false} SameNew(list: seq<Row>, other: seq<Row>, page: seq<Row>)
    requires forall r | r in page :: Stored(other, r.eventId) <==> Stored(list, r.eventId)
    ensures New(other, page) == New(list, page)
  {
    if page != [] {
      assert page[0] in page;
      SameNew(list, other, page[1..]);
    }
  }

  lemma {:induction false} NewAppend(list: seq<Row>, a: seq<Row>, b: seq<Row>)
    ensures New(list, a + b) == New(list, a) + New(list, b)
  {
    if a == [] {
      assert a + b == b;
    } else {
      assert (a + b)[0] == a[0] && (a + b)[1..] == a[1..] + b;
      NewAppend(list, a[1..], b);
    }
  }

  // ---------------------------------------------------------------- polling the server

  /** Syncs and merges with the returned cursor until a page is empty. */
  function Poll(d: Decoding, q: seq<Row>, v: Viewer, since: Time, limit: int, list: seq<Row>): seq<Row>
    decreases |Select(q, v, Some(since))|
  {
    if Select(q, v, Some(since)) == [] then list
    else
      PageShrinks(q, v, since, limit);
      var a := Page(q, v, Some(since), limit);
      Poll(d, AfterPage(q, v, Some(since), limit), v, a.next.value, limit, Merge(d, list, a.events))
  }

  lemma {:induction false} PollMergesDrained(d: Decoding, q: seq<Row>, v: Viewer, since: Time, limit: int, list: seq<Row>)
    requires DistinctIds(Drain(q, v, since, limit).events)
    ensures Poll(d, q, v, since, limit, list) == Merge(d, list, Drain(q, v, since, limit).events)
    decreases |Select(q, v, Some(since))|
  {
    if Select(q, v, Some(since)) == [] {
      assert Merge(d, list, []) == list;
    } else {
      PageShrinks(q, v, since, limit);
      var a := Page(q, v, Some(since), limit);
      var after := AfterPage(q, v, Some(since), limit);
      var rest := Drain(after, v, a.next.value, limit).events;
      assert Drain(q, v, since, limit).events == a.events + rest;
      DistinctAppend(a.events, rest);
      PollMergesDrained(d, after, v, a.next.value, limit, Merge(d, list, a.events));
      MergeOneByOne(d, list, a.events, rest);
    }
  }

  /**
   * Polling appends to the client's list every waiting visible row it does not
   * hold yet, once and in order, whatever the page size, if no page ends
   * between rows of equal time.
   */
  lemma PollIsComplete(d: Decoding, q: seq<Row>, v: Viewer, since: Time, limit: int, list: seq<Row>)
    requires Ascending(q) && DistinctIds(q) && DistinctIds(list)
    requires CleanCuts(Select(q, v, Some(since)), Limit(limit))
    ensures var waiting, after := Select(q, v, Some(since)), Poll(d, q, v, since, limit, list);
            && after == list + DecodeAll(d, New(list, waiting))
            && DistinctIds(after)
            && forall r | r in waiting :: Stored(after, r.eventId)
  {
    var waiting := Select(q, v, Some(since));
    DrainIsComplete(q, v, since, limit);
    SelectKeepsDistinctIds(q, v, Some(since));
    PollMergesDrained(d, q, v, since, limit, list);
    MergeKeepsDistinctIds(d, list, waiting);
    forall r | r in waiting
      ensures Stored(Merge(d, list, waiting), r.eventId)
    {
      MergedIds(d, list, waiting, r.eventId);
    }
  }
}
