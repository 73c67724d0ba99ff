/**
 * The relay service: its calls as methods on the queue, and what holds over any
 * run of sends, federated transactions and syncs.
 */
module Relay {
  import opened Queue
  import opened Send
  import opened Strings
  import opened Sync
  import opened Wrappers

  class RelayService {
    const config: Config
    var queue: seq<Row>
    var keys: map<string, EventId>
    /** The last cursor of each (user, device). */
    var cursors: map<(int, string), Time>

    constructor (config: Config)
      ensures this.config == config
      ensures queue == [] && keys == map[] && cursors == map[]
      ensures Inv(Store(queue, keys))
    {
      this.config := config;
      queue, keys, cursors := [], map[], map[];
    }

    method SendMessage(call: SendCall) returns (r: Result<EventId, SendError>)
      modifies `queue, `keys
      ensures (Store(queue, keys), r) == SendStep(config, old(Store(queue, keys)), call)
    {
      var id := if call.input.eventId == "" then call.freshId else call.input.eventId;
      var refusal := Check(call);
      if refusal.Some? {
        return Failure(refusal.value);
      }
      var keyHash := config.hash(call.input.idempotencyKey);
      if call.input.idempotencyKey != "" {
        if call.keyLookupFails {
          return Failure(KeyLookupFailed);
        }
        if keyHash in keys {
          return Success(keys[keyHash]);
        }
      }
      var inserted := TryInsert(queue, id, call.input.content, call.now, call.insertFails);
      if inserted.None? {
        return Failure(InsertFailed);
      }
      queue := inserted.value;
      if call.input.idempotencyKey != "" && !call.keyInsertFails {
        keys := keys[keyHash := id];
      }
      return Success(id);
    }

    /** The checks before anything is looked up or stored. */
    method Check(call: SendCall) returns (e: Option<SendError>)
      ensures e == Refusal(config, call)
    {
      var content := call.input.content;
      if content.timestamp < call.now - REPLAY_WINDOW_SEC || content.timestamp > call.now + FUTURE_TOLERANCE_SEC {
        return Some(ReplayTimestamp);
      }
      var domain := ExtractDomain(content.recipient);
      if domain != "" && domain != config.domain {
        return Some(RemoteRecipient(EventIdOf(call)));
      }
      if HasPrefix(content.recipient, "!") && config.roomsEnabled {
        var room := RoomIdOf(content.recipient);
        if room.None? {
          return Some(InvalidRoom);
        }
        if !config.isUuid(room.value) {
          return Some(InvalidRoom);
        }
        if call.recipientQueryFails || (room.value, call.input.senderUserId) !in config.members {
          return Some(NotRoomMember);
        }
      } else {
        var username := UserNameOf(content.recipient);
        if username != "" {
          if call.recipientQueryFails {
            return Some(RecipientQueryFailed);
          }
          if ToLower(username) !in config.users {
            return Some(RecipientNotFound);
          }
        }
      }
      return None;
    }

    method AcceptTransaction(arrivals: seq<Arrival>) returns (accepted: seq<EventId>, rejected: seq<EventId>)
      modifies `queue
      ensures Accepting(queue, accepted, rejected) == Accept(old(queue), arrivals)
    {
      accepted, rejected := [], [];
      for k := 0 to |arrivals|
        invariant Accepting(queue, accepted, rejected) == Accept(old(queue), arrivals[..k])
      {
        var e := arrivals[k];
        assert arrivals[..k + 1][..k] == arrivals[..k];
        var known := !e.lookupFails && Stored(queue, e.eventId);
        if known {
          accepted := accepted + [e.eventId];
        } else {
          var inserted := TryInsert(queue, e.eventId, e.content, e.now, e.insertFails);
          if inserted.None? {
            rejected := rejected + [e.eventId];
          } else {
            queue := inserted.value;
            accepted := accepted + [e.eventId];
          }
        }
      }
      assert arrivals[..|arrivals|] == arrivals;
    }

    /** `viewer` is None when the user is not found. */
    method SyncEvents(userId: int, deviceId: string, viewer: Option<Viewer>, since: Option<Time>, limit: int)
      returns (r: Option<Answer>)
      modifies `queue, `cursors
      ensures viewer.None? ==> r.None? && queue == old(queue) && cursors == old(cursors)
      ensures viewer.Some? ==>
                && r == Some(Page(old(queue), viewer.value, since, limit))
                && queue == AfterPage(old(queue), viewer.value, since, limit)
                && cursors == if 0 < |Select(old(queue), viewer.value, since)| <= Limit(limit)
                              then old(cursors)[(userId, deviceId) := r.value.next.value]
                              else old(cursors)
    {
      if viewer.None? {
        return None;
      }
      var v := viewer.value;
      var events, more, next := FetchPage(v, since, limit);
      if more {
        return Some(Answer(events, Some(next), []));
      }
      if |events| == 0 {
        NothingToMark(queue, v.me);
        return Some(Answer([], None, []));
      }
      var delivered := MarkAll(events, v.me);
      cursors := cursors[(userId, deviceId) := next];
      return Some(Answer(events, Some(next), delivered));
    }

    /** The query and the page made of its rows; the page is marked later. */
    method FetchPage(v: Viewer, since: Option<Time>, limit: int) returns (events: seq<Row>, more: bool, next: Time)
      ensures more <==> |Select(queue, v, since)| > Limit(limit)
      ensures more ==> Page(queue, v, since, limit) == Answer(events, Some(next), [])
      ensures !more ==> events == Select(queue, v, since)
      ensures !more && events != [] ==> Page(queue, v, since, limit) == Answer(events, Some(next), Notices(events, v.me))
    {
      var n := if limit <= 0 then 100 else limit;
      var wanted := Select(queue, v, since);
      events, more, next := Assemble(wanted, Fetched(wanted, since.Some?, n), since.Some?, n);
    }

    /** Marks the incoming events one UPDATE at a time and collects the notices for their senders. */
    method MarkAll(events: seq<Row>, me: Addr) returns (delivered: seq<Notice>)
      modifies `queue
      ensures queue == MarkDelivered(old(queue), Incoming(events, me))
      ensures delivered == Notices(events, me)
    {
      delivered := [];
      assert Incoming(events[..0], me) == {};
      for k := 0 to |events|
        invariant queue == MarkDelivered(old(queue), Incoming(events[..k], me))
        invariant delivered == Notices(events[..k], me)
      {
        var ev := events[k];
        assert events[..k + 1] == events[..k] + [ev];
        assert events[..k + 1][..k] == events[..k];
        IncomingStep(events[..k], ev, me);
        if ev.content.sender != me {
          MarkTwice(old(queue), Incoming(events[..k], me), {ev.eventId});
          queue := MarkDelivered(queue, {ev.eventId});
          delivered := delivered + [Notice(ev.content.sender, ev.eventId)];
        }
      }
      assert events[..|events|] == events;
    }
  }

  /** Collects the fetched rows, reverses a first load and trims; `next` is the cursor. */
  method Assemble(ghost wanted: seq<Row>, rows: seq<Row>, incremental: bool, n: nat)
    returns (events: seq<Row>, more: bool, next: Time)
    requires n > 0 && rows == Fetched(wanted, incremental, n)
    ensures more <==> |wanted| > n
    ensures more ==> LongPage(wanted, incremental, n) == Answer(events, Some(next), [])
    ensures !more ==> events == wanted
    ensures !more && events != [] ==> next == wanted[if incremental then |wanted| - 1 else 0].created
  {
    var lastCreated, cursorCreated;
    events, lastCreated, cursorCreated := Scan(rows, n);
    if !incremental {
      events := ReverseEvents(events);
    }
    more, next := |events| > n, lastCreated;
    if more {
      events, next := events[..n], cursorCreated;
      LongFetch(wanted, incremental, n);
    } else {
      ShortFetch(wanted, incremental, n);
    }
  }

  /** Reads the rows one by one; the second result is the time of the last row, the third that of row number `n`. */
  method Scan(rows: seq<Row>, n: nat) returns (events: seq<Row>, lastCreated: Time, cursorCreated: Time)
    requires n > 0
    ensures events == rows
    ensures rows != [] ==> lastCreated == rows[|rows| - 1].created
    ensures |rows| >= n ==> cursorCreated == rows[n - 1].created
  {
    events, lastCreated, cursorCreated := [], 0, 0;
    for k := 0 to |rows|
      invariant events == rows[..k]
      invariant k > 0 ==> lastCreated == rows[k - 1].created
      invariant k >= n ==> cursorCreated == rows[n - 1].created
    {
      events := events + [rows[k]];
      lastCreated := rows[k].created;
      if |events| == n {
        cursorCreated := rows[k].created;
      }
    }
  }

  /** The in-place reversal of a first load. */
  method ReverseEvents(events: seq<Row>) returns (r: seq<Row>)
    ensures r == Reversed(events)
  {
    r := events;
    var i, j := 0, |events| - 1;
    while i < j
      invariant |r| == |events| && 0 <= i && j == |events| - 1 - i && i <= j + 1
      invariant forall k | 0 <= k < i :: r[k] == events[|events| - 1 - k] && r[|events| - 1 - k] == events[k]
      invariant forall k | i <= k <= j :: r[k] == events[k]
    {
      r := r[i := r[j]][j := r[i]];
      i, j := i + 1, j - 1;
    }
    forall k: nat | k < |events|
      ensures r[k] == Reversed(events)[k]
    {
      ReversedAt(events, k);
    }
  }

  lemma IncomingStep(events: seq<Row>, ev: Row, me: Addr)
    ensures Incoming(events + [ev], me) == Incoming(events, me) + if ev.content.sender != me then {ev.eventId} else {}
  {
  }

  lemma MarkTwice(q: seq<Row>, a: set<EventId>, b: set<EventId>)
    ensures MarkDelivered(MarkDelivered(q, a), b) == MarkDelivered(q, a + b)
  {
  }

  /** The fetched rows in the order of the events. */
  function Chronological(rows: seq<Row>, incremental: bool): seq<Row> {
    if incremental then rows else Reversed(rows)
  }

  lemma LongFetch(wanted: seq<Row>, incremental: bool, n: nat)
    requires |wanted| > n > 0
    ensures var rows := Fetched(wanted, incremental, n);
            && |rows| == n + 1
            && LongPage(wanted, incremental, n)
                 == Answer(Chronological(rows, incremental)[..n], Some(rows[n - 1].created), [])
  {
    if incremental {
      assert Fetched(wanted, true, n)[..n] == wanted[..n];
    } else {
      var fetched := wanted[|wanted| - n - 1..];
      LatestRows(wanted, n);
      assert Fetched(wanted, false, n) == Reversed(fetched);
      ReversedTwice(fetched);
      ReversedAt(fetched, n - 1);
    }
  }

  lemma LatestRows(wanted: seq<Row>, n: nat)
    requires |wanted| > n
    ensures var newest := Reversed(wanted[|wanted| - n - 1..]);
            |newest| == n + 1 && newest <= Reversed(wanted)
  {
    var older, newest := wanted[..|wanted| - n - 1], wanted[|wanted| - n - 1..];
    assert wanted == older + newest;
    ReversedConcat(older, newest);
  }

  lemma ShortFetch(wanted: seq<Row>, incremental: bool, n: nat)
    requires |Fetched(wanted, incremental, n)| <= n
    ensures var rows := Fetched(wanted, incremental, n);
            && Chronological(rows, incremental) == wanted
            && (rows != [] ==> rows[|rows| - 1] == wanted[if incremental then |wanted| - 1 else 0])
  {
    if !incremental {
      ReversedTwice(wanted);
      if wanted != [] {
        ReversedAt(wanted, |wanted| - 1);
      }
    }
  }

  lemma NothingToMark(q: seq<Row>, me: Addr)
    ensures MarkDelivered(q, Incoming([], me)) == q
  {
  }

  // ---------------------------------------------------------------- runs of calls

  datatype Call =
    | Sending(call: SendCall)
    | Transacting(arrivals: seq<Arrival>)
    | Syncing(viewer: Viewer, since: Option<Time>, limit: int)

  function Step(cfg: Config, st: Store, c: Call): Store {
    match c
    case Sending(call) => SendStep(cfg, st, call).0
    case Transacting(arrivals) => st.(queue := Accept(st.queue, arrivals).queue)
    case Syncing(viewer, since, limit) => st.(queue := AfterPage(st.queue, viewer, since, limit))
  }

  function Run(cfg: Config, st: Store, calls: seq<Call>): Store
    decreases |calls|
  {
    if calls == [] then st else Run(cfg, Step(cfg, st, calls[0]), calls[1..])
  }

  lemma {:induction false} MarkingKeeps(q: seq<Row>, ids: set<EventId>)
    requires Ascending(q) && DistinctIds(q)
    ensures Ascending(MarkDelivered(q, ids)) && DistinctIds(MarkDelivered(q, ids))
  {
    if q != [] {
      MarkingKeeps(q[1..], ids);
      var m := MarkDelivered(q, ids);
      assert m[1..] == MarkDelivered(q[1..], ids);
      forall r | r in m[1..]
        ensures m[0].created <= r.created && m[0].eventId != r.eventId
      {
        var i :| 0 <= i < |q[1..]| && m[1..][i] == r;
        assert q[1..][i] in q[1..];
      }
    }
  }

  lemma MarkingKeepsMessages(q: seq<Row>, ids: set<EventId>)
    ensures Kept(q, MarkDelivered(q, ids))
  {
    var m := MarkDelivered(q, ids);
    forall r | r in q
      ensures HasMessage(m, r)
    {
      var i :| 0 <= i < |q| && q[i] == r;
      assert m[i] in m && SameMessage(r, m[i]);
    }
  }

  lemma StepIsSafe(cfg: Config, st: Store, c: Call)
    requires Inv(st)
    ensures Safe(st, Step(cfg, st, c))
  {
    match c
    case Sending(call) => SendIsSafe(cfg, st, call);
    case Transacting(arrivals) =>
      AcceptIsSafe(st.queue, arrivals);
      ReplacingIsSafe(st, Accept(st.queue, arrivals).queue);
    case Syncing(viewer, since, limit) =>
      KeptReflexive(st.queue);
      var ids := Incoming(Select(st.queue, viewer, since), viewer.me);
      MarkingKeeps(st.queue, ids);
      MarkingKeepsMessages(st.queue, ids);
      ReplacingIsSafe(st, MarkDelivered(st.queue, ids));
  }

  lemma SafeTransitive(a: Store, b: Store, c: Store)
    requires Safe(a, b) && Safe(b, c)
    ensures Safe(a, c)
  {
    KeptTransitive(a.queue, b.queue, c.queue);
  }

  /**
   * Over any run the queue has at most one row per event id, no message is lost
   * or changed but for its status advancing, and recorded idempotency keys stay.
   */
  lemma {:induction false} RunIsSafe(cfg: Config, st: Store, calls: seq<Call>)
    requires Inv(st)
    ensures Safe(st, Run(cfg, st, calls))
    decreases |calls|
  {
    KeptReflexive(st.queue);
    if calls != [] {
      var next := Step(cfg, st, calls[0]);
      StepIsSafe(cfg, st, calls[0]);
      RunIsSafe(cfg, next, calls[1..]);
      SafeTransitive(st, next, Run(cfg, next, calls[1..]));
    }
  }

  // ------------------------------------------------------------------ idempotency

  ghost predicate NoKeyFor(st: Store, id: EventId) {
    forall k | k in st.keys :: st.keys[k] != id
  }

  lemma {:induction false} UnkeyedStaysUnkeyed(cfg: Config, st: Store, calls: seq<Call>, id: EventId)
    requires Inv(st) && Stored(st.queue, id) && NoKeyFor(st, id)
    ensures NoKeyFor(Run(cfg, st, calls), id)
    decreases |calls|
  {
    if calls != [] {
      var next := Step(cfg, st, calls[0]);
      StepIsSafe(cfg, st, calls[0]);
      StoredIsKept(st.queue, next.queue, id);
      StepKeysNewIds(cfg, st, calls[0], id);
      UnkeyedStaysUnkeyed(cfg, next, calls[1..], id);
    }
  }

  lemma StepKeysNewIds(cfg: Config, st: Store, c: Call, id: EventId)
    requires Stored(st.queue, id) && NoKeyFor(st, id)
    ensures NoKeyFor(Step(cfg, st, c), id)
  {
  }

  /** `first` stored a new message under an idempotency key not used before; `retry` uses the key again. */
  ghost predicate Retries(cfg: Config, st: Store, first: SendCall, retry: SendCall) {
    && first.input.idempotencyKey != "" && cfg.hash(first.input.idempotencyKey) !in st.keys
    && SendStep(cfg, st, first).1.Success?
    && retry.input.idempotencyKey == first.input.idempotencyKey
    && Refusal(cfg, retry).None? && !retry.keyLookupFails
  }

  /**
   * After any calls in between, a retry answers with the original event id and
   * adds no row exactly when the insert of the key had succeeded the first time.
   */
  lemma RetryExactly(cfg: Config, st: Store, first: SendCall, between: seq<Call>, retry: SendCall)
    requires Inv(st) && Retries(cfg, st, first, retry)
    ensures var (st1, original) := SendStep(cfg, st, first);
            var st2 := Run(cfg, st1, between);
            var (st3, reply) := SendStep(cfg, st2, retry);
            && (reply == original <==> !first.keyInsertFails)
            && (!first.keyInsertFails ==> st3 == st2)
  {
    var (st1, original) := SendStep(cfg, st, first);
    var st2 := Run(cfg, st1, between);
    SendIsSafe(cfg, st, first);
    FirstSend(cfg, st, first, retry);
    RunIsSafe(cfg, st1, between);
    if first.keyInsertFails {
      UnkeyedStaysUnkeyed(cfg, st1, between, original.value);
      StoredIsKept(st1.queue, st2.queue, original.value);
    }
    RetryReply(cfg, st2, retry, original.value);
  }

  /** What the first send leaves behind: its key with the id, or no key with that id. */
  lemma FirstSend(cfg: Config, st: Store, first: SendCall, retry: SendCall)
    requires Inv(st) && Retries(cfg, st, first, retry)
    ensures var (st1, original) := SendStep(cfg, st, first);
            var keyHash := cfg.hash(first.input.idempotencyKey);
            && (!first.keyInsertFails ==> keyHash in st1.keys && st1.keys[keyHash] == original.value)
            && (first.keyInsertFails ==> NoKeyFor(st1, original.value))
  {
  }

  lemma RetryReply(cfg: Config, st: Store, retry: SendCall, id: EventId)
    requires Refusal(cfg, retry).None? && !retry.keyLookupFails && retry.input.idempotencyKey != ""
    requires Stored(st.queue, id)
    ensures var (st', reply) := SendStep(cfg, st, retry);
            var keyHash := cfg.hash(retry.input.idempotencyKey);
            && (keyHash in st.keys ==> st' == st)
            && (reply == Success(id) <==> keyHash in st.keys && st.keys[keyHash] == id)
  {
  }
}
