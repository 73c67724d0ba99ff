/**
 * Access tokens: one row per issued token beside the signed text the client
 * holds. `Step` is an operation as a function on the tables and the clock.
 */
module Tokens {
  import opened Wrappers

  type UserId = int
  type DeviceId = int

  const EXPIRY := 24 * 60 * 60
  const KEPT := 7 * 24 * 60 * 60
  const AUDIENCE := "api"

  /** What a token text parses to; `signed` is whether its signature is the server's. */
  datatype Token = Token(
    signed: bool, expires: Option<int>, jti: Option<nat>,
    typ: string, iss: string, aud: string, user: UserId, device: DeviceId)

  datatype Row = Row(user: UserId, device: DeviceId, expires: int, revoked: Option<int>)

  /** access_tokens by jti, the owner of each device, the ids drawn so far and the time. */
  datatype Store = Store(tokens: map<nat, Row>, devices: map<DeviceId, UserId>, drawn: nat, now: int)

  datatype Op =
    | Register(user: UserId, device: DeviceId, recorded: bool)
    | Login(user: UserId, device: DeviceId, keysSent: bool, recorded: bool)
    | Validate(token: Token)
    | RevokeToken(token: Token)
    | RevokeDevice(user: UserId, device: DeviceId)
    | Cleanup
    | Tick(seconds: nat)

  datatype Answer = Issued(token: Token) | Accepted(user: UserId, device: DeviceId) | Refused | Quiet

  function NewToken(domain: string, user: UserId, device: DeviceId, jti: nat, now: int): Token {
    Token(true, Some(now + EXPIRY), Some(jti), "access", domain, AUDIENCE, user, device)
  }

  /** What the parser and the checks on the claims let through. */
  predicate Readable(domain: string, t: Token, now: int) {
    && t.signed && (t.expires.Some? ==> now < t.expires.value)
    && t.jti.Some?
    && t.typ in {"", "access"} && t.iss in {"", domain} && t.aud in {"", AUDIENCE}
  }

  predicate IsLive(r: Row, now: int) {
    r.revoked.None? && r.expires > now
  }

  predicate Valid(domain: string, s: Store, t: Token) {
    && Readable(domain, t, s.now)
    && t.jti.value in s.tokens && IsLive(s.tokens[t.jti.value], s.now)
  }

  predicate Stale(r: Row, now: int) {
    r.expires < now || (r.revoked.Some? && r.revoked.value < now - KEPT)
  }

  function StaleIds(tokens: map<nat, Row>, now: int): set<nat> {
    set j | j in tokens && Stale(tokens[j], now)
  }

  /** `recorded` is whether the insert of the token's row succeeds; its error is ignored. */
  function Issue(domain: string, s: Store, user: UserId, device: DeviceId, recorded: bool): (Store, Answer) {
    (s.(tokens := if recorded then s.tokens[s.drawn := Row(user, device, s.now + EXPIRY, None)] else s.tokens,
        devices := s.devices[device := user],
        drawn := s.drawn + 1),
     Issued(NewToken(domain, user, device, s.drawn, s.now)))
  }

  /** A new device needs keys, and its id must not be another user's. */
  predicate CanLogin(s: Store, user: UserId, device: DeviceId, keysSent: bool) {
    if device in s.devices then s.devices[device] == user else keysSent
  }

  function Step(domain: string, s: Store, op: Op): (Store, Answer) {
    match op
    case Register(user, device, recorded) =>
      if device in s.devices then (s, Refused) else Issue(domain, s, user, device, recorded)
    case Login(user, device, keysSent, recorded) =>
      if !CanLogin(s, user, device, keysSent) then (s, Refused) else Issue(domain, s, user, device, recorded)
    case Validate(t) =>
      (s, if Valid(domain, s, t) then Accepted(t.user, t.device) else Refused)
    case RevokeToken(t) =>
      if !Valid(domain, s, t) then (s, Refused)
      else if s.tokens[t.jti.value].user != t.user then (s, Quiet)
      else (s.(tokens := s.tokens[t.jti.value := s.tokens[t.jti.value].(revoked := Some(s.now))]), Quiet)
    case RevokeDevice(user, device) =>
      if device in s.devices && s.devices[device] == user
      then (s.(tokens := map j | j in s.tokens && s.tokens[j].device != device :: s.tokens[j],
               devices := s.devices - {device}), Quiet)
      else (s.(tokens := map j | j in s.tokens :: MarkedRow(s.tokens[j], user, device, s.now)), Quiet)
    case Cleanup =>
      (s.(tokens := map j | j in s.tokens && !Stale(s.tokens[j], s.now) :: s.tokens[j]), Quiet)
    case Tick(seconds) =>
      (s.(now := s.now + seconds), Quiet)
  }

  function MarkedRow(r: Row, user: UserId, device: DeviceId, now: int): Row {
    if r.user == user && r.device == device && r.revoked.None? then r.(revoked := Some(now)) else r
  }

  /** The service, statement by statement. */
  class AuthService {
    const domain: string
    var tokens: map<nat, Row>
    var devices: map<DeviceId, UserId>
    var drawn: nat
    var now: int

    function State(): Store
      reads this
    {
      Store(tokens, devices, drawn, now)
    }

    constructor (domain: string, now: int)
      ensures this.domain == domain && State() == Store(map[], map[], 0, now)
      ensures Sound(State())
    {
      this.domain, this.now := domain, now;
      tokens, devices, drawn := map[], map[], 0;
    }

    /** Signs a token and records it; the id is a new random one. */
    method IssueToken(user: UserId, device: DeviceId, recorded: bool) returns (t: Token)
      requires device in devices && devices[device] == user
      modifies this
      ensures (State(), Issued(t)) == Issue(domain, old(State()), user, device, recorded)
      ensures devices == old(devices)
    {
      var jti := drawn;
      drawn := drawn + 1;
      t := NewToken(domain, user, device, jti, now);
      if recorded {
        tokens := tokens[jti := Row(user, device, now + EXPIRY, None)];
      }
      assert devices[device := user] == devices;
    }

    method RegisterUser(user: UserId, device: DeviceId, recorded: bool) returns (r: Answer)
      modifies this
      ensures (State(), r) == Step(domain, old(State()), Register(user, device, recorded))
    {
      if device in devices {
        return Refused;
      }
      devices := devices[device := user];
      var t := IssueToken(user, device, recorded);
      assert devices == old(devices)[device := user];
      return Issued(t);
    }

    method LoginUser(user: UserId, device: DeviceId, keysSent: bool, recorded: bool) returns (r: Answer)
      modifies this
      ensures (State(), r) == Step(domain, old(State()), Login(user, device, keysSent, recorded))
    {
      var known := device in devices && devices[device] == user;
      if !known {
        if !keysSent {
          return Refused;
        }
        if device in devices {
          return Refused;
        }
        devices := devices[device := user];
      }
      var t := IssueToken(user, device, recorded);
      assert devices == old(devices)[device := user];
      return Issued(t);
    }

    method ValidateToken(t: Token) returns (r: Answer)
      ensures (State(), r) == Step(domain, State(), Validate(t))
    {
      if !t.signed || (t.expires.Some? && now >= t.expires.value) || t.jti.None? {
        return Refused;
      }
      var jti := t.jti.value;
      if jti !in tokens || tokens[jti].revoked.Some? || tokens[jti].expires <= now {
        return Refused;
      }
      if t.typ != "" && t.typ != "access" {
        return Refused;
      }
      if t.iss != "" && t.iss != domain {
        return Refused;
      }
      if t.aud != "" && t.aud != AUDIENCE {
        return Refused;
      }
      return Accepted(t.user, t.device);
    }

    method RevokeOneToken(t: Token) returns (r: Answer)
      modifies this
      ensures (State(), r) == Step(domain, old(State()), RevokeToken(t))
    {
      var checked := ValidateToken(t);
      if checked.Refused? {
        return Refused;
      }
      var jti := t.jti.value;
      if jti in tokens && tokens[jti].user == t.user && tokens[jti].revoked.None? {
        tokens := tokens[jti := tokens[jti].(revoked := Some(now))];
      }
      return Quiet;
    }

    /** Marks the tokens, then deletes the device and with it, by the foreign key, their rows. */
    method RevokeOneDevice(user: UserId, device: DeviceId) returns (r: Answer)
      modifies this
      ensures (State(), r) == Step(domain, old(State()), RevokeDevice(user, device))
    {
      ghost var before := tokens;
      tokens := map j | j in tokens :: MarkedRow(tokens[j], user, device, now);
      if device in devices && devices[device] == user {
        devices := devices - {device};
        tokens := map j | j in tokens && tokens[j].device != device :: tokens[j];
        assert tokens == map j | j in before && before[j].device != device :: before[j];
      }
      return Quiet;
    }

    method CleanupExpiredTokens() returns (deleted: nat)
      modifies this
      ensures State() == Step(domain, old(State()), Cleanup).0
      ensures deleted == |StaleIds(old(tokens), now)|
    {
      var stale := StaleIds(tokens, now);
      tokens := tokens - stale;
      assert tokens == Step(domain, old(State()), Cleanup).0.tokens;
      return |stale|;
    }
  }

  // ------------------------------------------------------- cleanup is unobservable

  function Live(s: Store): map<nat, Row> {
    map j | j in s.tokens && IsLive(s.tokens[j], s.now) :: s.tokens[j]
  }

  /** The part of the state the answers depend on. */
  function View(s: Store): Store {
    s.(tokens := Live(s))
  }

  /** Every row has an id drawn before, and belongs to its user's existing device. */
  ghost predicate Sound(s: Store) {
    forall j | j in s.tokens ::
      j < s.drawn && s.tokens[j].device in s.devices && s.devices[s.tokens[j].device] == s.tokens[j].user
  }

  lemma StepKeepsSound(domain: string, s: Store, op: Op)
    requires Sound(s)
    ensures Sound(Step(domain, s, op).0)
  {
  }

  lemma CleanupKeepsView(domain: string, s: Store)
    ensures View(Step(domain, s, Cleanup).0) == View(s)
  {
  }

  lemma DeviceStepSeesLiveRows(domain: string, s: Store, user: UserId, device: DeviceId)
    requires Sound(s)
    ensures Live(Step(domain, s, RevokeDevice(user, device)).0)
         == Live(Step(domain, View(s), RevokeDevice(user, device)).0)
  {
  }

  lemma TokenStepSeesLiveRows(domain: string, s: Store, t: Token)
    requires Sound(s)
    ensures Step(domain, s, RevokeToken(t)).1 == Step(domain, View(s), RevokeToken(t)).1
    ensures Live(Step(domain, s, RevokeToken(t)).0) == Live(Step(domain, View(s), RevokeToken(t)).0)
  {
  }

  lemma IssueSeesLiveRows(domain: string, s: Store, user: UserId, device: DeviceId, recorded: bool)
    requires Sound(s)
    ensures View(Issue(domain, s, user, device, recorded).0) == View(Issue(domain, View(s), user, device, recorded).0)
  {
  }

  lemma TickSeesLiveRows(s: Store, later: int)
    requires s.now <= later
    ensures View(s.(now := later)) == View(View(s).(now := later))
  {
    assert Live(s.(now := later)) == Live(View(s).(now := later));
  }

  lemma LiveOfLive(s: Store)
    ensures View(View(s)) == View(s)
  {
  }

  /** A step sees no more of the tables than their live rows. */
  lemma StepSeesLiveRows(domain: string, s: Store, op: Op)
    requires Sound(s)
    ensures Step(domain, s, op).1 == Step(domain, View(s), op).1
    ensures View(Step(domain, s, op).0) == View(Step(domain, View(s), op).0)
  {
    LiveOfLive(s);
    match op
    case RevokeDevice(user, device) => DeviceStepSeesLiveRows(domain, s, user, device);
    case RevokeToken(t) => TokenStepSeesLiveRows(domain, s, t);
    case Register(user, device, recorded) => IssueSeesLiveRows(domain, s, user, device, recorded);
    case Login(user, device, _, recorded) => IssueSeesLiveRows(domain, s, user, device, recorded);
    case Validate(_) =>
    case Cleanup => CleanupKeepsView(domain, s); CleanupKeepsView(domain, View(s));
    case Tick(seconds) => TickSeesLiveRows(s, s.now + seconds);
  }

  function Run(domain: string, s: Store, ops: seq<Op>): Store
    decreases ops
  {
    if ops == [] then s else Run(domain, Step(domain, s, ops[0]).0, ops[1..])
  }

  /** The answers to everything but the cleanups. */
  function Answers(domain: string, s: Store, ops: seq<Op>): seq<Answer>
    decreases ops
  {
    if ops == [] then []
    else
      var (next, answer) := Step(domain, s, ops[0]);
      (if ops[0].Cleanup? then [] else [answer]) + Answers(domain, next, ops[1..])
  }

  function WithoutCleanup(ops: seq<Op>): seq<Op> {
    if ops == [] then []
    else (if ops[0].Cleanup? then [] else [ops[0]]) + WithoutCleanup(ops[1..])
  }

  /** Wherever cleanups are inserted in a run, every answer is the one the run without them gives. */
  lemma {:induction false} CleanupIsUnobservable(domain: string, s: Store, t: Store, ops: seq<Op>)
    requires Sound(s) && Sound(t) && View(s) == View(t)
    ensures Answers(domain, s, ops) == Answers(domain, t, WithoutCleanup(ops))
    decreases ops
  {
    if ops != [] {
      var op := ops[0];
      StepKeepsSound(domain, s, op);
      if op.Cleanup? {
        CleanupKeepsView(domain, s);
        CleanupIsUnobservable(domain, Step(domain, s, op).0, t, ops[1..]);
        assert WithoutCleanup(ops) == WithoutCleanup(ops[1..]);
      } else {
        StepKeepsSound(domain, t, op);
        StepSeesLiveRows(domain, s, op);
        StepSeesLiveRows(domain, t, op);
        CleanupIsUnobservable(domain, Step(domain, s, op).0, Step(domain, t, op).0, ops[1..]);
        assert WithoutCleanup(ops)[0] == op && WithoutCleanup(ops)[1..] == WithoutCleanup(ops[1..]);
      }
    }
  }

  // ------------------------------------------------------------ life of one token

  /** What ends the token `j` with row `r`: a revocation that names it, or its device. */
  predicate Ends(domain: string, now: int, op: Op, j: nat, r: Row) {
    match op
    case RevokeToken(t) => Readable(domain, t, now) && t.jti == Some(j) && t.user == r.user
    case RevokeDevice(user, device) => user == r.user && device == r.device
    case _ => false
  }

  /** Read off the operations and the clock alone: nothing ended the token and its day is not over. */
  predicate Stands(domain: string, now: int, ops: seq<Op>, j: nat, r: Row)
    decreases ops
  {
    if ops == [] then now < r.expires
    else
      && !Ends(domain, now, ops[0], j, r)
      && Stands(domain, if ops[0].Tick? then now + ops[0].seconds else now, ops[1..], j, r)
  }

  /** A drawn id without a live row never validates again. */
  lemma {:induction false} OnceEndedStaysEnded(domain: string, s: Store, ops: seq<Op>, t: Token)
    requires Sound(s) && t.jti.Some? && t.jti.value < s.drawn && t.jti.value !in Live(s)
    ensures Step(domain, Run(domain, s, ops), Validate(t)).1 == Refused
    decreases ops
  {
    if ops != [] {
      var n := Step(domain, s, ops[0]).0;
      StepKeepsSound(domain, s, ops[0]);
      assert t.jti.value !in Live(n);
      OnceEndedStaysEnded(domain, n, ops[1..], t);
    }
  }

  lemma {:induction false} ExpiredStaysExpired(domain: string, now: int, ops: seq<Op>, j: nat, r: Row)
    requires now >= r.expires
    ensures !Stands(domain, now, ops, j, r)
    decreases ops
  {
    if ops != [] {
      ExpiredStaysExpired(domain, if ops[0].Tick? then now + ops[0].seconds else now, ops[1..], j, r);
    }
  }

  /** One step keeps a live row as it is unless it ends it or time runs out. */
  lemma StepOnLiveRow(domain: string, s: Store, op: Op, j: nat)
    requires Sound(s) && j in Live(s)
    ensures var n := Step(domain, s, op).0;
            if Ends(domain, s.now, op, j, s.tokens[j]) || n.now >= s.tokens[j].expires then j !in Live(n)
            else j in Live(n) && n.tokens[j] == s.tokens[j]
  {
  }

  lemma {:induction false} LiveExactlyWhen(domain: string, s: Store, ops: seq<Op>, j: nat)
    requires Sound(s) && j in Live(s)
    ensures j in Live(Run(domain, s, ops)) <==> Stands(domain, s.now, ops, j, s.tokens[j])
    decreases ops
  {
    if ops != [] {
      var n := Step(domain, s, ops[0]).0;
      StepKeepsSound(domain, s, ops[0]);
      StepOnLiveRow(domain, s, ops[0], j);
      if j in Live(n) {
        LiveExactlyWhen(domain, n, ops[1..], j);
      } else {
        GoneStaysGone(domain, n, ops[1..], j);
        if !Ends(domain, s.now, ops[0], j, s.tokens[j]) {
          ExpiredStaysExpired(domain, n.now, ops[1..], j, s.tokens[j]);
        }
      }
    }
  }

  lemma {:induction false} GoneStaysGone(domain: string, s: Store, ops: seq<Op>, j: nat)
    requires Sound(s) && j < s.drawn && j !in Live(s)
    ensures j !in Live(Run(domain, s, ops))
    decreases ops
  {
    if ops != [] {
      var n := Step(domain, s, ops[0]).0;
      StepKeepsSound(domain, s, ops[0]);
      assert j !in Live(n);
      GoneStaysGone(domain, n, ops[1..], j);
    }
  }

  lemma {:induction false} RunKeepsSound(domain: string, s: Store, ops: seq<Op>)
    requires Sound(s)
    ensures Sound(Run(domain, s, ops))
    ensures s.drawn <= Run(domain, s, ops).drawn
    decreases ops
  {
    if ops != [] {
      StepKeepsSound(domain, s, ops[0]);
      RunKeepsSound(domain, Step(domain, s, ops[0]).0, ops[1..]);
    }
  }

  lemma {:induction false} TimePassed(domain: string, s: Store, ops: seq<Op>, j: nat, r: Row)
    requires Stands(domain, s.now, ops, j, r)
    ensures Run(domain, s, ops).now < r.expires
    decreases ops
  {
    if ops != [] {
      TimePassed(domain, Step(domain, s, ops[0]).0, ops[1..], j, r);
    }
  }

  /**
   * A token handed out by a login is accepted later, for its user and device,
   * exactly when its row was recorded, nothing since revoked it or its device,
   * and its day is not over.
   */
  lemma IssuedTokenIsValidExactly(domain: string, s: Store, login: Op, ops: seq<Op>)
    requires Sound(s) && (login.Login? || login.Register?)
    requires Step(domain, s, login).1.Issued?
    ensures var (n, issued) := Step(domain, s, login);
            var row := Row(login.user, login.device, s.now + EXPIRY, None);
            Step(domain, Run(domain, n, ops), Validate(issued.token)).1
              == if login.recorded && Stands(domain, s.now, ops, s.drawn, row)
                 then Accepted(login.user, login.device) else Refused
  {
    var (n, issued) := Step(domain, s, login);
    var row := Row(login.user, login.device, s.now + EXPIRY, None);
    StepKeepsSound(domain, s, login);
    if !login.recorded {
      OnceEndedStaysEnded(domain, n, ops, issued.token);
      return;
    }
    assert s.drawn in Live(n) && n.tokens[s.drawn] == row;
    LiveExactlyWhen(domain, n, ops, s.drawn);
    if Stands(domain, s.now, ops, s.drawn, row) {
      TimePassed(domain, n, ops, s.drawn, row);
    }
  }
}
