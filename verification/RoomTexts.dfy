/** What a room message consists of, with a stored key and with a new one, and who can read it. */
module RoomTexts {
  import opened KeyHolders
  import opened MemberLists
  import opened Rooms
  import opened SenderKeys
  import opened Strings
  import opened Wrappers

  function OwnName(self: Self, s: RoomSend): string {
    KeyName(RoomIdIn(s.roomAddr), self.address, self.deviceId)
  }

  /** The client holds a key recorded for a permutation of the members the server lists now. */
  ghost predicate HasFittingKey(self: Self, store: KeyStore, s: RoomSend) {
    var name := OwnName(self, s);
    && name in store && store[name].key != "" && store[name].memberAddrs.Some?
    && multiset(store[name].memberAddrs.value) == multiset(s.members)
  }

  predicate CanEncrypt(self: Self, s: RoomSend) {
    self.hasKeys && RoomIdIn(s.roomAddr) != "" && s.members != []
  }

  lemma WithoutKeysOrMembersNothing(self: Self, store: KeyStore, s: RoomSend)
    requires !CanEncrypt(self, s)
    ensures Encrypt(self, store, s) == (store, None)
  {
  }

  /** With a fitting key every member, and no one else, is sent the text sealed with it. */
  lemma FittingKeyGoesToEveryMember(self: Self, store: KeyStore, s: RoomSend)
    requires CanEncrypt(self, s) && HasFittingKey(self, store, s)
    ensures var (store', texts) := Encrypt(self, store, s);
            && store' == store && texts.Some?
            && (forall n :: n in texts.value <==> n in s.members)
            && forall m | m in s.members :: texts.value[m] == Sk1(s.text, store[OwnName(self, s)].key)
  {
    MemberSetEqualsExactly(store[OwnName(self, s)].memberAddrs, s.members);
  }

  /** What is distributed with a new key: the room, the sender, the key and the text itself. */
  function Announcement(self: Self, s: RoomSend): Distribution {
    Distribution(RoomIdIn(s.roomAddr), self.address, self.deviceId, s.keyId, s.freshKey, s.text)
  }

  /** Without a fitting key a new one is stored for these members and announced to those it can be encrypted for. */
  lemma OtherwiseKeyIsAnnounced(self: Self, store: KeyStore, s: RoomSend)
    requires CanEncrypt(self, s) && !HasFittingKey(self, store, s)
    ensures var (store', texts) := Encrypt(self, store, s);
            && store' == store[OwnName(self, s) := StoredKey(s.freshKey, s.keyId, Some(s.members))]
            && (texts.None? <==> forall m | m in s.members :: s.devices(m).None?)
            && (texts.Some? ==>
                  && (forall n | n in texts.value ::
                        texts.value[n].Direct? && texts.value[n].payload == Announcement(self, s))
                  && (forall m | m in s.members && s.devices(m).Some? ::
                        Reaches(texts.value, Announcement(self, s), m, s.devices(m).value))
                  && self.address + ":" + self.deviceId in texts.value)
  {
    var payload := Announcement(self, s);
    var name := OwnName(self, s);
    if name in store {
      MemberSetEqualsExactly(store[name].memberAddrs, s.members);
    }
    DistributedCarry(self, payload, s.members, s.devices);
    forall m | m in s.members && s.devices(m).Some?
      ensures Reaches(Distribute(self, payload, s.members, s.devices), payload, m, s.devices(m).value)
    {
      DistributeReaches(self, payload, s.members, s.devices, m);
    }
  }

  /** All texts of a distribution carry it, and the sender's own device is among them unless there are none. */
  lemma {:induction false} DistributedCarry(self: Self, payload: Distribution, members: seq<Addr>,
                                            devices: Addr -> Option<seq<string>>)
    ensures var texts := Distribute(self, payload, members, devices);
            && (forall n | n in texts :: texts[n].Direct? && texts[n].payload == payload)
            && (texts == map[] <==> forall m | m in members :: devices(m).None?)
            && (texts != map[] ==> self.address + ":" + self.deviceId in texts)
  {
    if members != [] {
      var front, last := members[..|members| - 1], members[|members| - 1];
      DistributedCarry(self, payload, front, devices);
      assert members == front + [last];
      assert last in members;
      if devices(last).Some? {
        assert self.address + ":" + self.deviceId in DirectTexts(self, payload, last, devices(last).value);
      }
    }
  }

  // -------------------------------------------------------------------- reading it

  /** What a client with the given sender keys reads in a text sealed with one of them. */
  ghost predicate Reads(t: Ciphertext, keys: set<Key>, text: string) {
    t.Sk1? && t.key in keys && t.text == text
  }

  function KeysHeldBy(g: Group, m: Addr): set<Key> {
    set e | e in g.exposed && e.1 == m :: e.0
  }

  lemma HeldExactly(g: Group, m: Addr, key: Key)
    ensures key in KeysHeldBy(g, m) <==> (key, m) in g.exposed
  {
    if (key, m) in g.exposed {
      var e := (key, m);
      assert e in g.exposed && e.1 == m && e.0 == key;
    }
  }

  /**
   * After any run, a message sent under the stored key holds for every member a
   * text that the member reads exactly if the send that created the key reached it.
   */
  lemma MemberReadsExactly(self: Self, users: set<UserId>, start: Group, events: seq<Event>, s: RoomSend, m: Addr)
    requires IsStart(start) && PlainEvents(self, events) && m in s.members && m != self.address
    requires CanEncrypt(self, s) && HasFittingKey(self, GroupRun(self, users, start, events).store, s)
    ensures var g := GroupRun(self, users, start, events);
            var key, texts := g.store[OwnName(self, s)].key, Encrypt(self, g.store, s).1;
            && texts.Some? && m in texts.value
            && (Reads(texts.value[m], KeysHeldBy(g, m), s.text) <==> GivenTo(self, users, start, events, key, m))
  {
    var g := GroupRun(self, users, start, events);
    var key := g.store[OwnName(self, s)].key;
    FittingKeyGoesToEveryMember(self, g.store, s);
    HeldExactly(g, m, key);
    HoldersExactly(self, users, start, events, key, m);
  }

  /** Whoever takes in an announcement finds its key under the name of the room and the sender. */
  lemma AnnouncedKeyIsFound(self: Self, other: Self, users: set<UserId>, g: Group, s: RoomSend)
    requires s.freshKey != ""
    ensures var g' := GroupStep(other, users, g, Receiving(Announcement(self, s)));
            var found := GetSenderKey(g'.store, OwnName(self, s));
            && found == Some(StoredKey(s.freshKey, s.keyId, None))
            && forall n | n in g.store && n != OwnName(self, s) :: n in g'.store && g'.store[n] == g.store[n]
  {
  }

  /** Two senders' keys have different names, as room ids and device ids hold no colon. */
  lemma KeyNamesDiffer(room: string, a: Addr, device: string, room': string, a': Addr, device': string)
    requires ':' !in room && ':' !in device && ':' !in room' && ':' !in device'
    ensures KeyName(room, a, device) == KeyName(room', a', device') <==> room == room' && a == a' && device == device'
  {
    var x, y := KeyName(room, a, device), KeyName(room', a', device');
    if x == y {
      LastSeparator("sk:" + room + ":" + a, device, "sk:" + room' + ":" + a', device', ':');
      var u, w := "sk:" + room + ":" + a, "sk:" + room' + ":" + a';
      assert u[3..] == room + ([':'] + a) && w[3..] == room' + ([':'] + a');
      FirstSeparator(room, a, room', a', ':');
    }
  }

  lemma RoomOfAddress(room: string, domain: string)
    requires ':' !in room
    ensures RoomIdIn("!" + (room + (":" + domain))) == room
  {
    var tail := ":" + domain;
    assert ("!" + (room + tail))[1..] == room + tail;
    IndexOfAppend(room, tail, ':');
    assert tail[0] == ':' && (room + tail)[..|room|] == room;
  }
}
