/**
 * The message_queue table. It is listed by ascending creation time, which is
 * how a set of rows answers ORDER BY created_at.
 */
module Queue {
  type Time = int
  type Addr = string
  type EventId = string

  datatype Status = Queued | Delivered

  datatype Content = Content(sender: Addr, recipient: Addr, senderDevice: string, ciphertext: string, sessionId: string,
                             timestamp: int)

  datatype Row = Row(eventId: EventId, content: Content, created: Time, status: Status)

  ghost predicate Ascending(q: seq<Row>) {
    q == [] || ((forall r | r in q[1..] :: q[0].created <= r.created) && Ascending(q[1..]))
  }

  ghost predicate DistinctTimes(q: seq<Row>) {
    q == [] || ((forall r | r in q[1..] :: q[0].created != r.created) && DistinctTimes(q[1..]))
  }

  lemma {:induction false} InOrder(q: seq<Row>, i: nat, j: nat)
    requires Ascending(q) && i < j < |q|
    ensures q[i].created <= q[j].created
    ensures DistinctTimes(q) ==> q[i].created < q[j].created
  {
    if i == 0 {
      assert q[1..][j - 1] == q[j];
    } else {
      InOrder(q[1..], i - 1, j - 1);
    }
  }

  lemma {:induction false} SuffixInOrder(q: seq<Row>, k: nat)
    requires Ascending(q) && k <= |q|
    ensures Ascending(q[k..])
    ensures DistinctTimes(q) ==> DistinctTimes(q[k..])
  {
    if k > 0 {
      SuffixInOrder(q[1..], k - 1);
      assert q[1..][k - 1..] == q[k..];
    } else {
      assert q[0..] == q;
    }
  }

  lemma {:induction false} PrefixInOrder(q: seq<Row>, k: nat)
    requires Ascending(q) && k <= |q|
    ensures Ascending(q[..k])
  {
    if k > 0 {
      PrefixInOrder(q[1..], k - 1);
      assert q[1..][..k - 1] == q[..k][1..];
      assert forall r | r in q[..k][1..] :: r in q[1..];
    }
  }

  /** event_id is UNIQUE: no two rows have the same. */
  ghost predicate DistinctIds(q: seq<Row>) {
    q == [] || ((forall r | r in q[1..] :: q[0].eventId != r.eventId) && DistinctIds(q[1..]))
  }

  predicate Stored(q: seq<Row>, id: EventId) {
    exists r | r in q :: r.eventId == id
  }

  /** Adds a row at its place in the listing. */
  function Insert(q: seq<Row>, row: Row): (r: seq<Row>)
    ensures |r| == |q| + 1
    ensures multiset(r) == multiset(q) + multiset{row}
  {
    if q == [] || row.created < q[0].created then
      [row] + q
    else
      assert q == [q[0]] + q[1..];
      [q[0]] + Insert(q[1..], row)
  }

  lemma {:induction false} InsertKeepsOrder(q: seq<Row>, row: Row)
    requires Ascending(q)
    ensures Ascending(Insert(q, row))
  {
    if q != [] && row.created >= q[0].created {
      InsertKeepsOrder(q[1..], row);
      forall x | x in Insert(q[1..], row)
        ensures q[0].created <= x.created
      {
        InsertRows(q[1..], row, x);
      }
    }
  }

  lemma InsertRows(q: seq<Row>, row: Row, x: Row)
    ensures x in Insert(q, row) <==> x in q || x == row
  {
  }

  lemma {:induction false} InsertKeepsDistinctIds(q: seq<Row>, row: Row)
    requires DistinctIds(q) && !Stored(q, row.eventId)
    ensures DistinctIds(Insert(q, row))
  {
    if q != [] && row.created >= q[0].created {
      assert forall r | r in q[1..] :: r in q;
      InsertKeepsDistinctIds(q[1..], row);
      forall x | x in Insert(q[1..], row)
        ensures q[0].eventId != x.eventId
      {
        InsertRows(q[1..], row, x);
      }
    }
  }
}
