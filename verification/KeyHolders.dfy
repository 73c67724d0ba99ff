/**
 * Who can open a text sealed with a sender key: exactly the addresses that the
 * send which created the key could encrypt for, if it was posted.
 */
module KeyHolders {
  import opened MemberLists
  import opened Rooms
  import opened SenderKeys
  import opened Strings
  import opened Wrappers

  // --------------------------------------------------------------- names in a message

  /** An address @user:domain: its only colon is the one in the middle. */
  predicate OneColon(a: Addr) {
    ':' in a && ':' !in After(a, ':')
  }

  /** Addresses of the usual form and device ids without a colon, so that no two names in a message collide. */
  predicate PlainNames(self: Self, members: seq<Addr>, devices: Addr -> Option<seq<string>>) {
    && ':' !in self.deviceId && OneColon(self.address)
    && forall m | m in members :: OneColon(m) && PlainDevices(devices(m))
  }

  predicate PlainDevices(devices: Option<seq<string>>) {
    devices.Some? ==> forall d | d in devices.value :: ':' !in d
  }

  lemma {:induction false} FirstColonStays(x: string, y: string)
    requires ':' in x
    ensures IndexOf(x + y, ':') == IndexOf(x, ':') < |x|
  {
    assert (x + y)[0] == x[0];
    if x[0] != ':' {
      assert (x + y)[1..] == x[1..] + y && x == [x[0]] + x[1..];
      FirstColonStays(x[1..], y);
    }
  }

  lemma DeviceNameIsNoAddress(a: Addr, d: string)
    requires ':' in a
    ensures !OneColon(a + ":" + d)
  {
    var i := IndexOf(a, ':');
    FirstColonStays(a, ":" + d);
    assert a + (":" + d) == a + ":" + d;
    assert (a + ":" + d)[i + 1..][|a| - i - 1] == ':';
  }

  /** The first of the names under which a message holds the text for an address. */
  function NameFor(m: Addr, devices: seq<string>): string {
    if devices == [] then m else m + ":" + devices[0]
  }

  /** Another address's texts, and the sender's own, do not have that name. */
  lemma NameIsOwn(self: Self, payload: Distribution, m: Addr, ds: seq<string>, other: Addr, others: seq<string>)
    requires OneColon(m) && OneColon(other) && OneColon(self.address) && m != other && m != self.address
    requires ':' !in self.deviceId && PlainDevices(Some(ds)) && PlainDevices(Some(others))
    ensures NameFor(m, ds) !in DirectTexts(self, payload, other, others)
  {
    var n := NameFor(m, ds);
    DeviceNameIsNoAddress(self.address, self.deviceId);
    NamesDiffer(m, ds, self.address, self.deviceId);
    forall d | d in others
      ensures n != other + ":" + d
    {
      DeviceNameIsNoAddress(other, d);
      NamesDiffer(m, ds, other, d);
    }
    if ds != [] {
      DeviceNameIsNoAddress(m, ds[0]);
    }
  }

  lemma NamesDiffer(m: Addr, ds: seq<string>, other: Addr, d: string)
    requires OneColon(m) && !OneColon(other + ":" + d) && m != other && ':' !in d && PlainDevices(Some(ds))
    ensures NameFor(m, ds) != other + ":" + d
  {
    if ds != [] {
      LastSeparator(m, ds[0], other, d, ':');
    }
  }

  predicate Holds(texts: Ciphertexts, name: string, key: Key, to: Addr) {
    name in texts && texts[name].Direct? && texts[name].payload.key == key && texts[name].to == to
  }

  lemma OwnTexts(self: Self, payload: Distribution, m: Addr, ds: seq<string>)
    requires OneColon(m) && OneColon(self.address) && m != self.address
    requires ':' !in self.deviceId && PlainDevices(Some(ds))
    ensures Holds(DirectTexts(self, payload, m, ds), NameFor(m, ds), payload.key, m)
  {
    DeviceNameIsNoAddress(self.address, self.deviceId);
    NamesDiffer(m, ds, self.address, self.deviceId);
    if ds != [] {
      assert ds[0] in ds && m + ":" + ds[0] in DeviceNames(m, ds);
    }
  }

  lemma {:induction false} MemberHolds(self: Self, payload: Distribution, members: seq<Addr>,
                                       devices: Addr -> Option<seq<string>>, m: Addr)
    requires PlainNames(self, members, devices) && m in members && devices(m).Some? && m != self.address
    ensures Holds(Distribute(self, payload, members, devices), NameFor(m, devices(m).value), payload.key, m)
  {
    var last, front := members[|members| - 1], members[..|members| - 1];
    if last == m {
      OwnTexts(self, payload, m, devices(m).value);
    } else {
      assert m in front;
      MemberHolds(self, payload, front, devices, m);
      if devices(last).Some? {
        NameIsOwn(self, payload, m, devices(m).value, last, devices(last).value);
      }
    }
  }

  ghost predicate OnlyReachable(self: Self, texts: Ciphertexts, members: seq<Addr>,
                                devices: Addr -> Option<seq<string>>)
  {
    forall n | n in texts && texts[n].Direct? && texts[n].to != self.address ::
      texts[n].to in members && devices(texts[n].to).Some?
  }

  lemma {:induction false} DistributesOnlyToReachable(self: Self, payload: Distribution, members: seq<Addr>,
                                                      devices: Addr -> Option<seq<string>>)
    ensures OnlyReachable(self, Distribute(self, payload, members, devices), members, devices)
  {
    if members != [] {
      var front := members[..|members| - 1];
      DistributesOnlyToReachable(self, payload, front, devices);
      assert forall m | m in front :: m in members;
    }
  }

  /** A distribution gives its key to another address exactly when that is a member it can be encrypted for. */
  lemma DistributeExposesExactly(self: Self, payload: Distribution, members: seq<Addr>,
                                 devices: Addr -> Option<seq<string>>, m: Addr)
    requires PlainNames(self, members, devices) && m != self.address
    ensures (payload.key, m) in Exposed(Distribute(self, payload, members, devices))
       <==> m in members && devices(m).Some?
  {
    var texts := Distribute(self, payload, members, devices);
    DistributesOnlyToReachable(self, payload, members, devices);
    if m in members && devices(m).Some? {
      MemberHolds(self, payload, members, devices, m);
      var n := NameFor(m, devices(m).value);
      assert n in texts && texts[n].Direct? && (texts[n].payload.key, texts[n].to) == (payload.key, m);
    }
  }

  // ---------------------------------------------------------------------- over a run

  /** The send finds no key recorded for its members, and makes one. */
  predicate MakesKey(self: Self, store: KeyStore, s: RoomSend) {
    var roomId := RoomIdIn(s.roomAddr);
    var sk := GetSenderKey(store, KeyName(roomId, self.address, self.deviceId));
    && self.hasKeys && roomId != "" && s.members != []
    && !(sk.Some? && MemberSetEquals(sk.value.memberAddrs, s.members))
  }

  /** The event is the posted send that creates `key`, and it can encrypt for `m`. */
  predicate Gives(self: Self, store: KeyStore, e: Event, key: Key, m: Addr) {
    && e.Sending? && e.posted && e.s.freshKey == key && MakesKey(self, store, e.s)
    && m in e.s.members && e.s.devices(m).Some?
  }

  predicate GivenTo(self: Self, users: set<UserId>, g: Group, events: seq<Event>, key: Key, m: Addr)
    decreases |events|
  {
    events != [] &&
    (Gives(self, g.store, events[0], key, m)
     || GivenTo(self, users, GroupStep(self, users, g, events[0]), events[1..], key, m))
  }

  ghost predicate PlainEvents(self: Self, events: seq<Event>) {
    forall e | e in events && e.Sending? :: PlainNames(self, e.s.members, e.s.devices)
  }

  lemma SealedExposesNothing(members: seq<Addr>, text: string, key: Key)
    ensures Exposed(SealForAll(members, Sk1(text, key))) == {}
  {
  }

  lemma SendExposesExactly(self: Self, store: KeyStore, s: RoomSend, key: Key, m: Addr)
    requires PlainNames(self, s.members, s.devices) && m != self.address
    ensures var texts := Encrypt(self, store, s).1;
            (texts.Some? && (key, m) in Exposed(texts.value))
              <==> s.freshKey == key && MakesKey(self, store, s) && m in s.members && s.devices(m).Some?
  {
    var payload := Distribution(RoomIdIn(s.roomAddr), self.address, self.deviceId, s.keyId, s.freshKey, s.text);
    if MakesKey(self, store, s) {
      DistributeExposes(self, payload, s.members, s.devices);
      DistributeExposesExactly(self, payload, s.members, s.devices, m);
    } else {
      var sk := GetSenderKey(store, KeyName(RoomIdIn(s.roomAddr), self.address, self.deviceId));
      if sk.Some? {
        SealedExposesNothing(s.members, s.text, sk.value.key);
      }
    }
  }

  /**
   * Over any run another address holds a key of this client exactly when the
   * send that created the key was posted, named the address among its members
   * and could be encrypted for it. Later texts under the key never reach further.
   */
  lemma {:induction false} HoldersExactly(self: Self, users: set<UserId>, g: Group, events: seq<Event>, key: Key, m: Addr)
    requires PlainEvents(self, events) && m != self.address
    ensures (key, m) in GroupRun(self, users, g, events).exposed
       <==> (key, m) in g.exposed || GivenTo(self, users, g, events, key, m)
    decreases |events|
  {
    if events != [] {
      var e := events[0];
      if e.Sending? {
        assert e in events;
        SendExposesExactly(self, g.store, e.s, key, m);
      }
      HoldersExactly(self, users, GroupStep(self, users, g, e), events[1..], key, m);
    }
  }

  /**
   * The key is stored before it is distributed. So the next text for the same
   * members is sealed with it whether or not the send reached them, and a member
   * that could not be encrypted for cannot open it.
   */
  lemma MissedMemberCannotOpen(self: Self, users: set<UserId>, g: Group, s: RoomSend, posted: bool,
                               next: RoomSend, m: Addr)
    requires MakesKey(self, g.store, s) && s.freshKey != "" && s.freshKey !in g.used && KeysStayInside(self, g)
    requires next.roomAddr == s.roomAddr && multiset(next.members) == multiset(s.members)
    requires PlainNames(self, s.members, s.devices) && m != self.address
    ensures var g' := GroupStep(self, users, g, Sending(s, posted));
            && SendsUnder(self, g', next, s.freshKey)
            && ((s.freshKey, m) in g'.exposed <==> posted && m in s.members && s.devices(m).Some?)
  {
    SendExposesExactly(self, g.store, s, s.freshKey, m);
    MemberSetEqualsExactly(Some(s.members), next.members);
    SameLength(next.members, s.members);
  }
}
