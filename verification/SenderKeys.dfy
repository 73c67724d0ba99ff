/**
 * Group messages under sender keys: the client's key store, `encryptForRoom`
 * with its rekeying, and runs that interleave it with membership changes on the
 * server. `GroupStep` also records to whom this client has sent which key.
 */
module SenderKeys {
  import opened MemberLists
  import opened Rooms
  import opened Strings
  import opened Wrappers

  type Addr = string
  type Key = string

  datatype StoredKey = StoredKey(key: Key, keyId: string, memberAddrs: Option<seq<Addr>>)

  type KeyStore = map<string, StoredKey>

  datatype Distribution = Distribution(roomId: string, senderId: Addr, senderDeviceId: string, keyId: string, key: Key,
                                       body: string)

  /** A message text: a distribution sealed for one address, or a text sealed with a sender key. */
  datatype Ciphertext = Direct(payload: Distribution, to: Addr) | Sk1(text: string, key: Key)

  type Ciphertexts = map<string, Ciphertext>

  /** The signed-in user and device; `hasKeys` is false before the own keys are loaded. */
  datatype Self = Self(address: Addr, deviceId: string, hasKeys: bool)

  /**
   * One send: the member list the server returned, the key it would generate,
   * and for each address its devices, or None when encrypting for it fails.
   */
  datatype RoomSend = RoomSend(roomAddr: string, text: string, members: seq<Addr>, freshKey: Key, keyId: string,
                               devices: Addr -> Option<seq<string>>)

  function KeyName(roomId: string, sender: Addr, deviceId: string): string {
    "sk:" + roomId + ":" + sender + ":" + deviceId
  }

  /** The id in !id:domain, or "" for another address. */
  function RoomIdIn(roomAddr: string): string {
    if HasPrefix(roomAddr, "!") then roomAddr[1..][..IndexOf(roomAddr[1..], ':')] else ""
  }

  function GetSenderKey(store: KeyStore, name: string): Option<StoredKey> {
    if name in store && store[name].key != "" then Some(store[name]) else None
  }

  /** The distribution sealed for every device of an address and for the own device. */
  function DirectTexts(self: Self, payload: Distribution, to: Addr, devices: seq<string>): Ciphertexts {
    (if devices == [] then map[to := Direct(payload, to)]
     else map d | d in DeviceNames(to, devices) :: Direct(payload, to))
    + map[self.address + ":" + self.deviceId := Direct(payload, self.address)]
  }

  function DeviceNames(to: Addr, devices: seq<string>): set<string> {
    set d | d in devices :: to + ":" + d
  }

  function Distribute(self: Self, payload: Distribution, members: seq<Addr>,
                      devices: Addr -> Option<seq<string>>): Ciphertexts
  {
    if members == [] then map[]
    else
      var last := members[|members| - 1];
      var before := Distribute(self, payload, members[..|members| - 1], devices);
      if devices(last).None? then before else before + DirectTexts(self, payload, last, devices(last).value)
  }

  function SealForAll(members: seq<Addr>, text: Ciphertext): Ciphertexts {
    map m | m in members :: text
  }

  /** The key store and the texts to post after `encryptForRoom`; None means nothing was encrypted. */
  function Encrypt(self: Self, store: KeyStore, s: RoomSend): (KeyStore, Option<Ciphertexts>) {
    var roomId := RoomIdIn(s.roomAddr);
    if !self.hasKeys || roomId == "" || s.members == [] then (store, None)
    else
      var name := KeyName(roomId, self.address, self.deviceId);
      var sk := GetSenderKey(store, name);
      if sk.Some? && MemberSetEquals(sk.value.memberAddrs, s.members) then
        (store, Some(SealForAll(s.members, Sk1(s.text, sk.value.key))))
      else
        var payload := Distribution(roomId, self.address, self.deviceId, s.keyId, s.freshKey, s.text);
        var texts := Distribute(self, payload, s.members, s.devices);
        (store[name := StoredKey(s.freshKey, s.keyId, Some(s.members))], if texts == map[] then None else Some(texts))
  }

  class SenderKeyClient {
    const self: Self
    var store: KeyStore

    constructor (self: Self)
      ensures this.self == self && store == map[]
    {
      this.self := self;
      store := map[];
    }

    method StoreSenderKey(name: string, key: Key, keyId: string, memberAddrs: Option<seq<Addr>>)
      modifies this
      ensures store == old(store)[name := StoredKey(key, keyId, memberAddrs)]
    {
      store := store[name := StoredKey(key, keyId, memberAddrs)];
    }

    method DeleteSenderKey(name: string)
      modifies this
      ensures store == old(store) - {name}
    {
      store := store - {name};
    }

    method EncryptForRoom(s: RoomSend) returns (r: Option<Ciphertexts>)
      modifies this
      ensures (store, r) == Encrypt(self, old(store), s)
    {
      var roomId := RoomIdIn(s.roomAddr);
      if !self.hasKeys || roomId == "" || |s.members| == 0 {
        return None;
      }
      var name := KeyName(roomId, self.address, self.deviceId);
      var sk := GetSenderKey(store, name);
      if sk.Some? && !MemberSetEquals(sk.value.memberAddrs, s.members) {
        DeleteSenderKey(name);
        sk := None;
      }
      if sk.None? {
        StoreSenderKey(name, s.freshKey, s.keyId, Some(s.members));
        assert store == old(store)[name := StoredKey(s.freshKey, s.keyId, Some(s.members))];
        var payload := Distribution(roomId, self.address, self.deviceId, s.keyId, s.freshKey, s.text);
        var ciphertexts := SealDirectly(payload, s.members, s.devices);
        return if ciphertexts == map[] then None else Some(ciphertexts);
      }
      var ciphertexts := PostForAll(s.members, Sk1(s.text, sk.value.key));
      return Some(ciphertexts);
    }

    /** The distribution for every member; a member it cannot be encrypted for is skipped. */
    method SealDirectly(payload: Distribution, members: seq<Addr>, devices: Addr -> Option<seq<string>>)
      returns (ciphertexts: Ciphertexts)
      ensures ciphertexts == Distribute(self, payload, members, devices)
    {
      ciphertexts := map[];
      for k := 0 to |members|
        invariant ciphertexts == Distribute(self, payload, members[..k], devices)
      {
        assert members[..k + 1][..k] == members[..k];
        var ds := devices(members[k]);
        if ds.Some? {
          ciphertexts := ciphertexts + DirectTexts(self, payload, members[k], ds.value);
        }
      }
      assert members[..|members|] == members;
    }
  }

  method PostForAll(members: seq<Addr>, text: Ciphertext) returns (ciphertexts: Ciphertexts)
    ensures ciphertexts == SealForAll(members, text)
    ensures forall n :: n in ciphertexts <==> n in members
    ensures forall n | n in members :: ciphertexts[n] == text
  {
    ciphertexts := map[];
    for k := 0 to |members|
      invariant ciphertexts == SealForAll(members[..k], text)
    {
      ciphertexts := ciphertexts[members[k] := text];
    }
    assert members[..|members|] == members;
  }

  // --------------------------------------------------------------------- exposure

  /** To whom the texts carry which sender key. */
  function Exposed(texts: Ciphertexts): set<(Key, Addr)> {
    set n | n in texts && texts[n].Direct? :: (texts[n].payload.key, texts[n].to)
  }

  lemma ExposedUnion(a: Ciphertexts, b: Ciphertexts)
    ensures Exposed(a + b) <= Exposed(a) + Exposed(b)
  {
  }

  /** A distribution carries its own key to no one but the members and the sender. */
  lemma {:induction false} DistributeExposes(self: Self, payload: Distribution, members: seq<Addr>,
                                             devices: Addr -> Option<seq<string>>)
    ensures forall e | e in Exposed(Distribute(self, payload, members, devices)) ::
              e.0 == payload.key && (e.1 in members || e.1 == self.address)
  {
    if members != [] {
      var last := members[|members| - 1];
      DistributeExposes(self, payload, members[..|members| - 1], devices);
      if devices(last).Some? {
        ExposedUnion(Distribute(self, payload, members[..|members| - 1], devices),
                     DirectTexts(self, payload, last, devices(last).value));
      }
    }
  }

  /** Whether the texts hold the distribution for an address: for each of its devices, or for it if it has none. */
  predicate Reaches(texts: Ciphertexts, payload: Distribution, to: Addr, devices: seq<string>) {
    if devices == [] then Carries(texts, to, payload)
    else forall d | d in devices :: Carries(texts, to + ":" + d, payload)
  }

  predicate Carries(texts: Ciphertexts, name: string, payload: Distribution) {
    name in texts && texts[name].Direct? && texts[name].payload == payload
  }

  /** Every member it can be encrypted for gets the new key, on every device. */
  lemma {:induction false} DistributeReaches(self: Self, payload: Distribution, members: seq<Addr>,
                                             devices: Addr -> Option<seq<string>>, m: Addr)
    requires m in members && devices(m).Some?
    ensures Reaches(Distribute(self, payload, members, devices), payload, m, devices(m).value)
  {
    var last := members[|members| - 1];
    var before := Distribute(self, payload, members[..|members| - 1], devices);
    if last == m {
      DirectTextsReach(self, payload, m, devices(m).value);
    } else {
      assert m in members[..|members| - 1];
      DistributeReaches(self, payload, members[..|members| - 1], devices, m);
    }
    if devices(last).Some? {
      DirectTextsCarryOnly(self, payload, last, devices(last).value);
    }
  }

  lemma DirectTextsReach(self: Self, payload: Distribution, to: Addr, devices: seq<string>)
    ensures Reaches(DirectTexts(self, payload, to, devices), payload, to, devices)
  {
    forall d | d in devices
      ensures Carries(DirectTexts(self, payload, to, devices), to + ":" + d, payload)
    {
      assert to + ":" + d in DeviceNames(to, devices);
    }
  }

  lemma DirectTextsCarryOnly(self: Self, payload: Distribution, to: Addr, devices: seq<string>)
    ensures forall n | n in DirectTexts(self, payload, to, devices) ::
              Carries(DirectTexts(self, payload, to, devices), n, payload)
  {
  }

  // ------------------------------------------------------------------------- runs

  /** `exposed` is to whom this client has sent which key so far, `used` every key seen. */
  datatype Group = Group(tables: Tables, store: KeyStore, exposed: set<(Key, Addr)>, used: set<Key>)

  datatype Event =
    | Membership(op: Op)
    | Sending(s: RoomSend, posted: bool)
    | Receiving(dist: Distribution)
    | Forgetting(roomId: string)

  /** A send that is posted records whom it gives a key; receiving a distribution stores a key without a member list. */
  function GroupStep(self: Self, users: set<UserId>, g: Group, e: Event): Group {
    match e
    case Membership(op) => g.(tables := Rooms.Step(users, g.tables, op).0)
    case Sending(s, posted) =>
      var (store, texts) := Encrypt(self, g.store, s);
      var sent := if texts.Some? && posted then Exposed(texts.value) else {};
      g.(store := store, exposed := g.exposed + sent, used := g.used + {s.freshKey})
    case Receiving(d) =>
      g.(store := g.store[KeyName(d.roomId, d.senderId, d.senderDeviceId) := StoredKey(d.key, d.keyId, None)],
         used := g.used + {d.key})
    case Forgetting(roomId) => g.(store := g.store - {KeyName(roomId, self.address, self.deviceId)})
  }

  function GroupRun(self: Self, users: set<UserId>, g: Group, events: seq<Event>): Group
    decreases |events|
  {
    if events == [] then g else GroupRun(self, users, GroupStep(self, users, g, events[0]), events[1..])
  }

  /** Generated keys have not been seen before. */
  ghost predicate FreshKeys(self: Self, users: set<UserId>, g: Group, events: seq<Event>)
    decreases |events|
  {
    events == [] ||
    ((events[0].Sending? ==> events[0].s.freshKey !in g.used)
     && FreshKeys(self, users, GroupStep(self, users, g, events[0]), events[1..]))
  }

  /** A key stored with a member list went to no one outside that list but the own address. */
  ghost predicate KeysStayInside(self: Self, g: Group) {
    && (forall e | e in g.exposed :: e.0 in g.used)
    && (forall n | n in g.store :: g.store[n].key in g.used)
    && forall n, to | n in g.store && g.store[n].memberAddrs.Some? && (g.store[n].key, to) in g.exposed ::
         to in g.store[n].memberAddrs.value || to == self.address
  }

  lemma EncryptExposes(self: Self, store: KeyStore, s: RoomSend)
    ensures var (store', texts) := Encrypt(self, store, s);
            texts.Some? ==>
              forall e | e in Exposed(texts.value) :: e.0 == s.freshKey && (e.1 in s.members || e.1 == self.address)
  {
    var payload := Distribution(RoomIdIn(s.roomAddr), self.address, self.deviceId, s.keyId, s.freshKey, s.text);
    DistributeExposes(self, payload, s.members, s.devices);
  }

  lemma StepKeepsKeysInside(self: Self, users: set<UserId>, g: Group, e: Event)
    requires KeysStayInside(self, g) && (e.Sending? ==> e.s.freshKey !in g.used)
    ensures KeysStayInside(self, GroupStep(self, users, g, e))
  {
    if e.Sending? {
      EncryptExposes(self, g.store, e.s);
    }
  }

  lemma {:induction false} RunKeepsKeysInside(self: Self, users: set<UserId>, g: Group, events: seq<Event>)
    requires KeysStayInside(self, g) && FreshKeys(self, users, g, events)
    ensures KeysStayInside(self, GroupRun(self, users, g, events))
    decreases |events|
  {
    if events != [] {
      StepKeepsKeysInside(self, users, g, events[0]);
      RunKeepsKeysInside(self, users, GroupStep(self, users, g, events[0]), events[1..]);
    }
  }

  /** A key that has been seen is never given to anyone new. */
  lemma {:induction false} UsedKeysAreNotResent(self: Self, users: set<UserId>, g: Group, events: seq<Event>, key: Key)
    requires key in g.used && FreshKeys(self, users, g, events)
    ensures forall to :: (key, to) in GroupRun(self, users, g, events).exposed ==> (key, to) in g.exposed
    decreases |events|
  {
    if events != [] {
      if events[0].Sending? {
        EncryptExposes(self, g.store, events[0].s);
      }
      UsedKeysAreNotResent(self, users, GroupStep(self, users, g, events[0]), events[1..], key);
    }
  }

  ghost predicate IsStart(g: Group) {
    g == Group(Tables(map[], map[]), map[], {}, {})
  }

  /** The text is sealed with a sender key and posted for the fetched members. */
  predicate SendsUnder(self: Self, g: Group, s: RoomSend, key: Key) {
    Encrypt(self, g.store, s).1 == Some(SealForAll(s.members, Sk1(s.text, key))) && s.members != []
  }

  /**
   * After any run, a text sealed with a sender key is sealed with one whose
   * recorded list is a permutation of the list just fetched, and no address
   * outside that list but the own one was or ever will be sent that key.
   */
  lemma SenderKeyStaysWithMembers(self: Self, users: set<UserId>, start: Group, before: seq<Event>, s: RoomSend,
                                  posted: bool, key: Key, after: seq<Event>)
    requires IsStart(start) && FreshKeys(self, users, start, before)
    requires var g := GroupRun(self, users, start, before);
             && SendsUnder(self, g, s, key)
             && s.freshKey !in g.used
             && FreshKeys(self, users, GroupStep(self, users, g, Sending(s, posted)), after)
    ensures var g := GroupRun(self, users, start, before);
            var name := KeyName(RoomIdIn(s.roomAddr), self.address, self.deviceId);
            && name in g.store && g.store[name].key == key && g.store[name].memberAddrs.Some?
            && multiset(g.store[name].memberAddrs.value) == multiset(s.members)
    ensures forall to | (key, to) in GroupRun(self, users, start, before + [Sending(s, posted)] + after).exposed ::
              to in s.members || to == self.address
  {
    var g := GroupRun(self, users, start, before);
    RunKeepsKeysInside(self, users, start, before);
    SealedForMembers(self, g, s, key);
    KeyReachesOnlyMembers(self, users, g, s, posted, key, after);
    RunAround(self, users, start, before, Sending(s, posted), after);
  }

  lemma KeyReachesOnlyMembers(self: Self, users: set<UserId>, g: Group, s: RoomSend, posted: bool, key: Key,
                              after: seq<Event>)
    requires KeysStayInside(self, g) && SendsUnder(self, g, s, key) && s.freshKey !in g.used
    requires FreshKeys(self, users, GroupStep(self, users, g, Sending(s, posted)), after)
    ensures forall to | (key, to) in GroupRun(self, users, GroupStep(self, users, g, Sending(s, posted)), after).exposed ::
              to in s.members || to == self.address
  {
    SendReachesMembers(self, users, g, s, posted, key);
    UsedKeysAreNotResent(self, users, GroupStep(self, users, g, Sending(s, posted)), after, key);
  }

  lemma RunAround(self: Self, users: set<UserId>, g: Group, before: seq<Event>, e: Event, after: seq<Event>)
    ensures GroupRun(self, users, g, before + [e] + after)
         == GroupRun(self, users, GroupStep(self, users, GroupRun(self, users, g, before), e), after)
  {
    RunInParts(self, users, g, before, [e] + after);
    assert before + [e] + after == before + ([e] + after);
    assert ([e] + after)[1..] == after;
  }

  /** The key of a sealed text is the stored one, recorded for the fetched members. */
  lemma SealedForMembers(self: Self, g: Group, s: RoomSend, key: Key)
    requires SendsUnder(self, g, s, key)
    ensures var name := KeyName(RoomIdIn(s.roomAddr), self.address, self.deviceId);
            && name in g.store && g.store[name].key == key && g.store[name].memberAddrs.Some?
            && multiset(g.store[name].memberAddrs.value) == multiset(s.members)
  {
    SealedIsSk1(self, g, s, key);
    MemberSetEqualsExactly(g.store[KeyName(RoomIdIn(s.roomAddr), self.address, self.deviceId)].memberAddrs, s.members);
  }

  /** Once such a text is sent, the key has reached only the fetched members. */
  lemma SendReachesMembers(self: Self, users: set<UserId>, g: Group, s: RoomSend, posted: bool, key: Key)
    requires KeysStayInside(self, g) && SendsUnder(self, g, s, key) && s.freshKey !in g.used
    ensures key in g.used
    ensures forall to | (key, to) in GroupStep(self, users, g, Sending(s, posted)).exposed ::
              to in s.members || to == self.address
  {
    var name := KeyName(RoomIdIn(s.roomAddr), self.address, self.deviceId);
    SealedForMembers(self, g, s, key);
    EncryptExposes(self, g.store, s);
    assert key in g.used;
    forall to | (key, to) in GroupStep(self, users, g, Sending(s, posted)).exposed
      ensures to in s.members || to == self.address
    {
      SameMembers(g.store[name].memberAddrs.value, s.members, to);
    }
  }

  /** The fetched list names exactly the members the server has at that moment. */
  ghost predicate ListsMembers(addressOf: UserId -> Addr, t: Tables, room: RoomId, members: seq<Addr>) {
    forall a :: a in members <==> exists u :: u in MembersOf(t, room) && addressOf(u) == a
  }

  /** Someone who is not a member when a text is sealed with a sender key never gets that key, before or after. */
  lemma OutsiderNeverGetsKey(self: Self, users: set<UserId>, addressOf: UserId -> Addr, start: Group, before: seq<Event>,
                             s: RoomSend, posted: bool, key: Key, after: seq<Event>, outsider: UserId)
    requires IsStart(start) && FreshKeys(self, users, start, before)
    requires var g := GroupRun(self, users, start, before);
             && SendsUnder(self, g, s, key)
             && s.freshKey !in g.used
             && FreshKeys(self, users, GroupStep(self, users, g, Sending(s, posted)), after)
             && ListsMembers(addressOf, g.tables, RoomIdIn(s.roomAddr), s.members)
             && outsider !in MembersOf(g.tables, RoomIdIn(s.roomAddr))
    requires forall u, w :: addressOf(u) == addressOf(w) ==> u == w
    requires addressOf(outsider) != self.address
    ensures (key, addressOf(outsider)) !in GroupRun(self, users, start, before + [Sending(s, posted)] + after).exposed
  {
    SenderKeyStaysWithMembers(self, users, start, before, s, posted, key, after);
  }

  lemma {:induction false} RunInParts(self: Self, users: set<UserId>, g: Group, a: seq<Event>, b: seq<Event>)
    ensures GroupRun(self, users, g, a + b) == GroupRun(self, users, GroupRun(self, users, g, a), b)
    decreases |a|
  {
    if a == [] {
      assert a + b == b;
    } else {
      RunInParts(self, users, GroupStep(self, users, g, a[0]), a[1..], b);
      assert (a + b)[1..] == a[1..] + b;
    }
  }

  /** Distributions are never sealed with a sender key, so such a text comes from the stored key. */
  lemma SealedIsSk1(self: Self, g: Group, s: RoomSend, key: Key)
    requires SendsUnder(self, g, s, key)
    ensures var name := KeyName(RoomIdIn(s.roomAddr), self.address, self.deviceId);
            && name in g.store && g.store[name].key == key
            && MemberSetEquals(g.store[name].memberAddrs, s.members)
  {
    var texts := SealForAll(s.members, Sk1(s.text, key));
    assert s.members[0] in texts && texts[s.members[0]] == Sk1(s.text, key);
    var payload := Distribution(RoomIdIn(s.roomAddr), self.address, self.deviceId, s.keyId, s.freshKey, s.text);
    DistributedAreDirect(self, payload, s.members, s.devices);
    var sk := GetSenderKey(g.store, KeyName(RoomIdIn(s.roomAddr), self.address, self.deviceId));
    if sk.Some? {
      var own := SealForAll(s.members, Sk1(s.text, sk.value.key));
      assert own[s.members[0]] == Sk1(s.text, sk.value.key);
    }
  }

  ghost predicate AllDirect(texts: Ciphertexts) {
    forall n | n in texts :: texts[n].Direct?
  }

  lemma {:induction false} DistributedAreDirect(self: Self, payload: Distribution, members: seq<Addr>,
                                                devices: Addr -> Option<seq<string>>)
    ensures AllDirect(Distribute(self, payload, members, devices))
  {
    if members != [] {
      var last := members[|members| - 1];
      DistributedAreDirect(self, payload, members[..|members| - 1], devices);
      if devices(last).Some? {
        assert AllDirect(DirectTexts(self, payload, last, devices(last).value));
      }
    }
  }
}
