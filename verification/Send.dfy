/**
 * Send with its idempotency keys and AcceptTransaction with its duplicate check.
 * Database failures are inputs of a call, so every pattern of them is covered.
 */
module Send {
  import opened Queue
  import opened Strings
  import opened Wrappers

  const REPLAY_WINDOW_SEC := 300
  const FUTURE_TOLERANCE_SEC := 60

  /** What the server knows besides the queue; user names are in lower case. */
  datatype Config = Config(domain: string, users: set<string>, members: set<(string, int)>, roomsEnabled: bool,
                           isUuid: string -> bool, hash: string -> string)

  datatype Store = Store(queue: seq<Row>, keys: map<string, EventId>)

  datatype SendInput = SendInput(eventId: EventId, content: Content, senderUserId: int, idempotencyKey: string)

  /** One call: its input, the clock, the identifier it would generate, and which statements fail. */
  datatype SendCall = SendCall(input: SendInput, now: Time, freshId: EventId, recipientQueryFails: bool,
                               keyLookupFails: bool, insertFails: bool, keyInsertFails: bool)

  datatype SendError =
    | ReplayTimestamp
    | RemoteRecipient(eventId: EventId)
    | InvalidRoom
    | NotRoomMember
    | RecipientQueryFailed
    | RecipientNotFound
    | KeyLookupFailed
    | InsertFailed

  function ExtractDomain(addr: Addr): string {
    var i := IndexOf(addr, ':');
    if i < |addr| && |addr| > i + 1 then addr[i + 1..] else ""
  }

  /** The room id of an address !id:domain. */
  function RoomIdOf(addr: Addr): Option<string> {
    if !HasPrefix(addr, "!") then None
    else
      var rest := addr[1..];
      var i := IndexOf(rest, ':');
      if i < |rest| && i + 1 < |rest| then Some(rest[..i]) else None
  }

  function UserNameOf(addr: Addr): string {
    var name := if HasPrefix(addr, "@") then addr[1..] else addr;
    TrimSpace(name[..IndexOf(name, ':')])
  }

  function EventIdOf(call: SendCall): EventId {
    if call.input.eventId == "" then call.freshId else call.input.eventId
  }

  /** The checks before the idempotency lookup; None when the call passes them. */
  function Refusal(cfg: Config, call: SendCall): Option<SendError> {
    var recipient := call.input.content.recipient;
    var domain := ExtractDomain(recipient);
    if call.input.content.timestamp < call.now - REPLAY_WINDOW_SEC then Some(ReplayTimestamp)
    else if call.input.content.timestamp > call.now + FUTURE_TOLERANCE_SEC then Some(ReplayTimestamp)
    else if domain != "" && domain != cfg.domain then Some(RemoteRecipient(EventIdOf(call)))
    else if HasPrefix(recipient, "!") && cfg.roomsEnabled then
      var room := RoomIdOf(recipient);
      if room.None? || !cfg.isUuid(room.value) then Some(InvalidRoom)
      else if call.recipientQueryFails || (room.value, call.input.senderUserId) !in cfg.members then Some(NotRoomMember)
      else None
    else if UserNameOf(recipient) == "" then None
    else if call.recipientQueryFails then Some(RecipientQueryFailed)
    else if ToLower(UserNameOf(recipient)) !in cfg.users then Some(RecipientNotFound)
    else None
  }

  predicate Timely(call: SendCall) {
    call.now - 300 <= call.input.content.timestamp <= call.now + 60
  }

  /** The first two errors, for a recipient at `domain`. */
  predicate NotTimelyOrRemote(cfg: Config, call: SendCall, domain: string) {
    && (!Timely(call) ==> Refusal(cfg, call) == Some(ReplayTimestamp))
    && (Timely(call) && domain != cfg.domain ==>
          Refusal(cfg, call)
            == Some(RemoteRecipient(if call.input.eventId == "" then call.freshId else call.input.eventId)))
  }

  /** To a room address the call passes exactly when it is timely, the room is local and the sender is in it. */
  lemma RoomCallPassesExactly(cfg: Config, call: SendCall, id: string, domain: string)
    requires cfg.roomsEnabled && ':' !in id && domain != ""
    requires call.input.content.recipient == "!" + (id + (":" + domain))
    ensures Refusal(cfg, call).None? <==>
      && Timely(call) && domain == cfg.domain
      && cfg.isUuid(id) && !call.recipientQueryFails && (id, call.input.senderUserId) in cfg.members
    ensures Timely(call) && domain == cfg.domain && Refusal(cfg, call).Some? ==>
      Refusal(cfg, call).value == if cfg.isUuid(id) then NotRoomMember else InvalidRoom
    ensures NotTimelyOrRemote(cfg, call, domain)
  {
    AddressParts("!", id, domain);
    RoomIdOfAddress(id, domain);
  }

  lemma RoomIdOfAddress(id: string, domain: string)
    requires ':' !in id && domain != ""
    ensures RoomIdOf("!" + (id + (":" + domain))) == Some(id)
  {
    AddressParts("!", id, domain);
    assert ("!" + (id + (":" + domain)))[1..] == id + (":" + domain);
  }

  /** To a user address exactly when it is timely, the domain is local and the user, if any is named, exists. */
  lemma UserCallPassesExactly(cfg: Config, call: SendCall, name: string, domain: string)
    requires ':' !in name && domain != ""
    requires call.input.content.recipient == "@" + (name + (":" + domain))
    ensures Refusal(cfg, call).None? <==>
      && Timely(call) && domain == cfg.domain
      && (TrimSpace(name) == "" || (!call.recipientQueryFails && ToLower(TrimSpace(name)) in cfg.users))
    ensures Timely(call) && domain == cfg.domain && Refusal(cfg, call).Some? ==>
      Refusal(cfg, call).value == if call.recipientQueryFails then RecipientQueryFailed else RecipientNotFound
    ensures NotTimelyOrRemote(cfg, call, domain)
  {
    AddressParts("@", name, domain);
    assert call.input.content.recipient[1..] == name + (":" + domain);
  }

  lemma NameAndDomain(name: string, domain: string)
    requires ':' !in name
    ensures var s := name + (":" + domain);
            IndexOf(s, ':') == |name| && UpTo(s, ':') == name && After(s, ':') == domain
  {
    var tail := ":" + domain;
    assert tail[0] == ':' && tail[1..] == domain;
    IndexOfAppend(name, tail, ':');
    CutsOfAppend(name, tail, ':');
    assert UpTo(tail, ':') == "" && name + "" == name;
  }

  lemma DomainIsAfterColon(addr: Addr)
    ensures ExtractDomain(addr) == After(addr, ':')
  {
  }

  lemma DomainOf(sigil: string, rest: string)
    requires ':' !in sigil
    ensures ExtractDomain(sigil + rest) == After(rest, ':')
  {
    CutsOfAppend(sigil, rest, ':');
    DomainIsAfterColon(sigil + rest);
  }

  lemma AddressParts(sigil: string, name: string, domain: string)
    requires ':' !in sigil && ':' !in name && |sigil| == 1 && domain != ""
    ensures ExtractDomain(sigil + (name + (":" + domain))) == domain
    ensures IndexOf(name + (":" + domain), ':') == |name| && UpTo(name + (":" + domain), ':') == name
  {
    NameAndDomain(name, domain);
    DomainOf(sigil, name + (":" + domain));
  }

  /** INSERT INTO message_queue: fails on a database error or when the event id is taken. */
  function TryInsert(q: seq<Row>, id: EventId, content: Content, now: Time, fails: bool): Option<seq<Row>> {
    if fails || Stored(q, id) then None else Some(Insert(q, Row(id, content, now, Queued)))
  }

  function SendStep(cfg: Config, st: Store, call: SendCall): (Store, Result<EventId, SendError>) {
    var refusal := Refusal(cfg, call);
    if refusal.Some? then (st, Failure(refusal.value))
    else SendChecked(cfg.hash(call.input.idempotencyKey), st, call)
  }

  /** The call once it has passed the checks. */
  function SendChecked(keyHash: string, st: Store, call: SendCall): (Store, Result<EventId, SendError>) {
    var id, key := EventIdOf(call), call.input.idempotencyKey;
    if key != "" && call.keyLookupFails then (st, Failure(KeyLookupFailed))
    else if key != "" && keyHash in st.keys then (st, Success(st.keys[keyHash]))
    else
      var queue := TryInsert(st.queue, id, call.input.content, call.now, call.insertFails);
      if queue.None? then (st, Failure(InsertFailed))
      else
        var keys := if key != "" && !call.keyInsertFails then st.keys[keyHash := id] else st.keys;
        (Store(queue.value, keys), Success(id))
  }

  /** One event of a transaction and which statements fail for it. */
  datatype Arrival = Arrival(eventId: EventId, content: Content, now: Time, lookupFails: bool, insertFails: bool)

  datatype Accepting = Accepting(queue: seq<Row>, accepted: seq<EventId>, rejected: seq<EventId>)

  function AcceptOne(a: Accepting, e: Arrival): Accepting {
    if !e.lookupFails && Stored(a.queue, e.eventId) then
      a.(accepted := a.accepted + [e.eventId])
    else
      var queue := TryInsert(a.queue, e.eventId, e.content, e.now, e.insertFails);
      if queue.None? then a.(rejected := a.rejected + [e.eventId])
      else Accepting(queue.value, a.accepted + [e.eventId], a.rejected)
  }

  function Accept(q: seq<Row>, arrivals: seq<Arrival>): Accepting {
    if arrivals == [] then Accepting(q, [], [])
    else AcceptOne(Accept(q, arrivals[..|arrivals| - 1]), arrivals[|arrivals| - 1])
  }

  // ----------------------------------------------------------------- what is kept

  ghost predicate SameMessage(r: Row, r': Row) {
    && r'.eventId == r.eventId && r'.content == r.content && r'.created == r.created
    && (r.status.Delivered? ==> r'.status.Delivered?)
  }

  ghost predicate HasMessage(q: seq<Row>, r: Row) {
    exists r' :: r' in q && SameMessage(r, r')
  }

  /** Every message of `q` is in `q'` with the same content; only its status may have advanced. */
  ghost predicate Kept(q: seq<Row>, q': seq<Row>) {
    forall r {:trigger HasMessage(q', r)} | r in q :: HasMessage(q', r)
  }

  ghost predicate Inv(st: Store) {
    && Ascending(st.queue)
    && DistinctIds(st.queue)
    && forall k | k in st.keys :: Stored(st.queue, st.keys[k])
  }

  lemma KeptReflexive(q: seq<Row>)
    ensures Kept(q, q)
  {
  }

  lemma KeptTransitive(a: seq<Row>, b: seq<Row>, c: seq<Row>)
    requires Kept(a, b) && Kept(b, c)
    ensures Kept(a, c)
  {
    forall r | r in a
      ensures HasMessage(c, r)
    {
      assert HasMessage(b, r);
      var r' :| r' in b && SameMessage(r, r');
      assert HasMessage(c, r');
      var r'' :| r'' in c && SameMessage(r', r'');
      assert SameMessage(r, r'');
    }
  }

  lemma StoredIsKept(q: seq<Row>, q': seq<Row>, id: EventId)
    requires Kept(q, q') && Stored(q, id)
    ensures Stored(q', id)
  {
    var r :| r in q && r.eventId == id;
    assert HasMessage(q', r);
  }

  lemma InsertIsSafe(q: seq<Row>, row: Row)
    requires Ascending(q) && DistinctIds(q) && !Stored(q, row.eventId)
    ensures var q' := Insert(q, row);
            Ascending(q') && DistinctIds(q') && Kept(q, q') && Stored(q', row.eventId)
  {
    InsertKeepsOrder(q, row);
    InsertKeepsDistinctIds(q, row);
    var q' := Insert(q, row);
    forall r | r in q
      ensures HasMessage(q', r)
    {
      InsertRows(q, row, r);
      assert SameMessage(r, r);
    }
    InsertRows(q, row, row);
  }

  /** A step that keeps the invariant, every message and every recorded key. */
  ghost predicate Safe(st: Store, st': Store) {
    && Inv(st') && Kept(st.queue, st'.queue)
    && forall k | k in st.keys :: k in st'.keys && st'.keys[k] == st.keys[k]
  }

  lemma SendIsSafe(cfg: Config, st: Store, call: SendCall)
    requires Inv(st)
    ensures var (st', reply) := SendStep(cfg, st, call);
            Safe(st, st') && (reply.Success? ==> Stored(st'.queue, reply.value))
  {
    KeptReflexive(st.queue);
    if Refusal(cfg, call).None? {
      SendCheckedIsSafe(cfg.hash(call.input.idempotencyKey), st, call);
    }
  }

  lemma SendCheckedIsSafe(keyHash: string, st: Store, call: SendCall)
    requires Inv(st)
    ensures var (st', reply) := SendChecked(keyHash, st, call);
            Safe(st, st') && (reply.Success? ==> Stored(st'.queue, reply.value))
  {
    KeptReflexive(st.queue);
    var id := EventIdOf(call);
    var queue := TryInsert(st.queue, id, call.input.content, call.now, call.insertFails);
    if queue.Some? {
      InsertIsSafe(st.queue, Row(id, call.input.content, call.now, Queued));
      ExtendingIsSafe(st, queue.value, keyHash, id);
    }
  }

  lemma ReplacingIsSafe(st: Store, queue: seq<Row>)
    requires Inv(st) && Ascending(queue) && DistinctIds(queue) && Kept(st.queue, queue)
    ensures Safe(st, Store(queue, st.keys))
  {
    forall k | k in st.keys
      ensures Stored(queue, st.keys[k])
    {
      StoredIsKept(st.queue, queue, st.keys[k]);
    }
  }

  lemma ExtendingIsSafe(st: Store, queue: seq<Row>, keyHash: string, id: EventId)
    requires Inv(st) && Ascending(queue) && DistinctIds(queue) && Kept(st.queue, queue) && Stored(queue, id)
    ensures Safe(st, Store(queue, st.keys))
    ensures keyHash !in st.keys ==> Safe(st, Store(queue, st.keys[keyHash := id]))
  {
    ReplacingIsSafe(st, queue);
  }

  /** Everything is kept, every accepted id is stored, and the answers are for the given ids, one each. */
  ghost predicate GoodAnswers(q: seq<Row>, a: Accepting, ids: multiset<EventId>) {
    && Ascending(a.queue) && DistinctIds(a.queue) && Kept(q, a.queue)
    && (forall id | id in a.accepted :: Stored(a.queue, id))
    && multiset(a.accepted) + multiset(a.rejected) == ids
  }

  /** For any transaction, also with repeated ids and failing statements. */
  lemma {:induction false} AcceptIsSafe(q: seq<Row>, arrivals: seq<Arrival>)
    requires Ascending(q) && DistinctIds(q)
    ensures GoodAnswers(q, Accept(q, arrivals), multiset(Ids(arrivals)))
  {
    if arrivals == [] {
      KeptReflexive(q);
    } else {
      var k := |arrivals| - 1;
      AcceptIsSafe(q, arrivals[..k]);
      assert Ids(arrivals) == Ids(arrivals[..k]) + [arrivals[k].eventId];
      AcceptOneIsSafe(q, Accept(q, arrivals[..k]), arrivals[k], multiset(Ids(arrivals[..k])));
    }
  }

  lemma AcceptOneIsSafe(q: seq<Row>, a: Accepting, e: Arrival, ids: multiset<EventId>)
    requires GoodAnswers(q, a, ids)
    ensures GoodAnswers(q, AcceptOne(a, e), ids + multiset{e.eventId})
  {
    var queue := TryInsert(a.queue, e.eventId, e.content, e.now, e.insertFails);
    if queue.Some? {
      InsertIsSafe(a.queue, Row(e.eventId, e.content, e.now, Queued));
      KeptTransitive(q, a.queue, queue.value);
      forall id | id in a.accepted
        ensures Stored(queue.value, id)
      {
        StoredIsKept(a.queue, queue.value, id);
      }
    }
  }

  function Ids(arrivals: seq<Arrival>): seq<EventId> {
    seq(|arrivals|, i requires 0 <= i < |arrivals| => arrivals[i].eventId)
  }
}
