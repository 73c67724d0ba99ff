/** Which rows the queue comes to hold, and what is answered for them. */
module StoredMessages {
  import opened Queue
  import opened Relay
  import opened Send
  import opened Sync
  import opened Wrappers

  lemma InsertAddsOne(q: seq<Row>, id: EventId, content: Content, now: Time, fails: bool)
    ensures TryInsert(q, id, content, now, fails).None? <==> fails || Stored(q, id)
    ensures TryInsert(q, id, content, now, fails).Some? ==>
      multiset(TryInsert(q, id, content, now, fails).value) == multiset(q) + multiset{Row(id, content, now, Queued)}
  {
  }

  /** The id under which a send is stored: the client's, or a new one if it gives none. */
  ghost predicate SentAs(call: SendCall, id: EventId) {
    id == if call.input.eventId != "" then call.input.eventId else call.freshId
  }

  /** A send that is refused, cannot look its key up or finds the key used changes nothing. */
  lemma SendThatStoresNothing(cfg: Config, st: Store, call: SendCall)
    ensures var (st', reply) := SendStep(cfg, st, call);
            var key := call.input.idempotencyKey;
            && (Refusal(cfg, call).Some? ==> st' == st && reply == Failure(Refusal(cfg, call).value))
            && (Refusal(cfg, call).None? && key != "" && call.keyLookupFails ==>
                  st' == st && reply == Failure(KeyLookupFailed))
            && (Refusal(cfg, call).None? && key != "" && !call.keyLookupFails && cfg.hash(key) in st.keys ==>
                  st' == st && reply == Success(st.keys[cfg.hash(key)]))
  {
  }

  /** Any other send adds exactly its own row, with its own content, unless the id is taken or the insert fails. */
  lemma SendStoresItsMessage(cfg: Config, st: Store, call: SendCall, id: EventId)
    requires Refusal(cfg, call).None? && SentAs(call, id)
    requires call.input.idempotencyKey != "" ==>
      !call.keyLookupFails && cfg.hash(call.input.idempotencyKey) !in st.keys
    ensures var (st', reply) := SendStep(cfg, st, call);
            var key := call.input.idempotencyKey;
            if call.insertFails || Stored(st.queue, id) then st' == st && reply == Failure(InsertFailed)
            else
              && reply == Success(id)
              && multiset(st'.queue) == multiset(st.queue) + multiset{Row(id, call.input.content, call.now, Queued)}
              && st'.keys == if key != "" && !call.keyInsertFails then st.keys[cfg.hash(key) := id] else st.keys
  {
    InsertAddsOne(st.queue, id, call.input.content, call.now, call.insertFails);
  }

  /** One more event: found, stored as it came, or rejected because a statement failed. */
  lemma ArrivalIsAnswered(q: seq<Row>, arrivals: seq<Arrival>, e: Arrival)
    ensures Accept(q, []) == Accepting(q, [], [])
    ensures var before, after := Accept(q, arrivals), Accept(q, arrivals + [e]);
            if !e.lookupFails && Stored(before.queue, e.eventId) then
              after == before.(accepted := before.accepted + [e.eventId])
            else if e.insertFails || Stored(before.queue, e.eventId) then
              after == before.(rejected := before.rejected + [e.eventId])
            else
              && multiset(after.queue)
                   == multiset(before.queue) + multiset{Row(e.eventId, e.content, e.now, Queued)}
              && after.accepted == before.accepted + [e.eventId] && after.rejected == before.rejected
  {
    assert (arrivals + [e])[..|arrivals|] == arrivals;
    InsertAddsOne(Accept(q, arrivals).queue, e.eventId, e.content, e.now, e.insertFails);
  }

  // ---------------------------------------------------------------- where rows come from

  predicate SameOrigin(r: Row, r': Row) {
    r'.eventId == r.eventId && r'.content == r.content && r'.created == r.created
  }

  ghost predicate CameWithEvent(arrivals: seq<Arrival>, r: Row) {
    exists e :: e in arrivals && r.eventId == e.eventId && r.content == e.content && r.created == e.now
  }

  /** The row is the message of this call. */
  ghost predicate CameWith(c: Call, r: Row) {
    match c
    case Sending(call) => SentAs(call, r.eventId) && r.content == call.input.content && r.created == call.now
    case Transacting(arrivals) => CameWithEvent(arrivals, r)
    case Syncing(_, _, _) => false
  }

  ghost predicate WasThere(q: seq<Row>, r: Row) {
    exists r0 :: r0 in q && SameOrigin(r0, r)
  }

  ghost predicate CameWithSome(calls: seq<Call>, r: Row) {
    calls != [] && (CameWith(calls[0], r) || CameWithSome(calls[1..], r))
  }

  lemma InsertedRowIsNew(q: seq<Row>, id: EventId, content: Content, now: Time, fails: bool, r: Row)
    requires TryInsert(q, id, content, now, fails).Some? && r in TryInsert(q, id, content, now, fails).value
    ensures r in q || r == Row(id, content, now, Queued)
  {
    InsertRows(q, Row(id, content, now, Queued), r);
  }

  lemma {:induction false} AcceptedRowHasOrigin(q: seq<Row>, arrivals: seq<Arrival>, r: Row)
    requires r in Accept(q, arrivals).queue
    ensures r in q || CameWithEvent(arrivals, r)
  {
    if arrivals != [] {
      var front, e := arrivals[..|arrivals| - 1], arrivals[|arrivals| - 1];
      var before := Accept(q, front);
      if r in before.queue {
        AcceptedRowHasOrigin(q, front, r);
        assert forall a | a in front :: a in arrivals;
      } else {
        InsertedRowIsNew(before.queue, e.eventId, e.content, e.now, e.insertFails, r);
        assert e in arrivals;
      }
    }
  }

  lemma StepRowHasOrigin(cfg: Config, st: Store, c: Call, r: Row)
    requires r in Step(cfg, st, c).queue
    ensures WasThere(st.queue, r) || CameWith(c, r)
  {
    match c
    case Sending(call) =>
      if r !in st.queue {
        InsertedRowIsNew(st.queue, EventIdOf(call), call.input.content, call.now, call.insertFails, r);
      }
    case Transacting(arrivals) => AcceptedRowHasOrigin(st.queue, arrivals, r);
    case Syncing(v, since, limit) =>
      var q := AfterPage(st.queue, v, since, limit);
      var i :| 0 <= i < |q| && q[i] == r;
      assert st.queue[i] in st.queue && SameOrigin(st.queue[i], r);
  }

  /** Over any run every row of the queue was there at first or has the id, content and time of a message of the run. */
  lemma {:induction false} EveryRowHasOrigin(cfg: Config, st: Store, calls: seq<Call>, r: Row)
    requires r in Run(cfg, st, calls).queue
    ensures WasThere(st.queue, r) || CameWithSome(calls, r)
    decreases |calls|
  {
    if calls == [] {
      assert SameOrigin(r, r);
    } else {
      var next := Step(cfg, st, calls[0]);
      EveryRowHasOrigin(cfg, next, calls[1..], r);
      if !CameWithSome(calls[1..], r) {
        var r0 :| r0 in next.queue && SameOrigin(r0, r);
        StepRowHasOrigin(cfg, st, calls[0], r0);
        if CameWith(calls[0], r0) {
          assert CameWith(calls[0], r);
        } else {
          var r1 :| r1 in st.queue && SameOrigin(r1, r0);
          assert SameOrigin(r1, r);
        }
      }
    }
  }
}
