/**
 * The client's record of contacts' identity keys and of whether their safety
 * number was confirmed, one stored map entry per contact or per device.
 */
module TrustedKeys {
  import opened Strings
  import opened Wrappers

  /** Date.now(), after 1970. */
  type Time = t: int | t > 0 witness 1

  datatype Method = Manual | Qr

  datatype TrustEntry = TrustEntry(
    identityKey: string, seenAt: Option<Time>, verifiedAt: Option<Time>, verifiedMethod: Option<Method>,
    changedAt: Option<Time>)

  /** Older versions stored the bare key. */
  datatype Stored = Legacy(key: string) | Entry(entry: TrustEntry)

  type StoredMap = map<string, Stored>

  datatype Status = Verified | Unverified | Changed

  datatype TrustState = TrustState(status: Status, identityKey: string, previousKey: Option<string>, entry: TrustEntry)

  function KeyOnly(key: string): TrustEntry {
    TrustEntry(key, None, None, None, None)
  }

  function ToTrustEntry(v: Stored): TrustEntry {
    match v
    case Legacy(key) => KeyOnly(key)
    case Entry(e) => e
  }

  /** An empty device id counts as none. */
  function StorageKey(recipient: string, device: Option<string>): string {
    if device.Some? && device.value != "" then recipient + ":" + device.value else recipient
  }

  /** An empty bare key is treated like a missing entry. */
  predicate Present(m: StoredMap, k: string) {
    k in m && m[k] != Legacy("")
  }

  // -------------------------------------------------------------------- operations

  datatype Op =
    | SetKey(recipient: string, device: Option<string>, identityKey: string, now: Time)
    | ClearVerified(recipient: string, device: Option<string>)
    | Remove(recipient: string, device: Option<string>)
    | MarkVerified(recipient: string, device: Option<string>, verifiedMethod: Method, key: Option<string>, now: Time)
    | Look(recipient: string, device: Option<string>)

  function KeyOf(op: Op): string {
    StorageKey(op.recipient, op.device)
  }

  function NewEntry(m: StoredMap, k: string, identityKey: string, now: Time): TrustEntry {
    if !Present(m, k) then KeyOnly(identityKey).(seenAt := Some(now))
    else if ToTrustEntry(m[k]).identityKey == identityKey then ToTrustEntry(m[k])
    else KeyOnly(identityKey).(seenAt := Some(now), changedAt := Some(now))
  }

  /** What a confirmation starts from: the entry, or a new one if a key is given. */
  function EntryToVerify(m: StoredMap, k: string, key: Option<string>, now: Time): Option<TrustEntry> {
    if Present(m, k) then Some(ToTrustEntry(m[k]))
    else if key.Some? && key.value != "" then Some(KeyOnly(key.value).(seenAt := Some(now)))
    else None
  }

  function Converted(m: StoredMap): StoredMap {
    map k | k in m :: Entry(ToTrustEntry(m[k]))
  }

  function Step(m: StoredMap, op: Op): StoredMap {
    var k := KeyOf(op);
    match op
    case SetKey(_, _, identityKey, now) => m[k := Entry(NewEntry(m, k, identityKey, now))]
    case ClearVerified(_, _) =>
      if !Present(m, k) then m
      else m[k := Entry(ToTrustEntry(m[k]).(verifiedAt := None, verifiedMethod := None))]
    case Remove(_, _) => m - {k}
    case MarkVerified(_, _, how, key, now) =>
      var e := EntryToVerify(m, k, key, now);
      if e.None? then m
      else m[k := Entry(e.value.(verifiedAt := Some(now), verifiedMethod := Some(how)))]
    case Look(_, _) => Converted(m)
  }

  /** The answer for the entry `k`, given the key the server has now, if any. */
  function Answer(m: StoredMap, k: string, current: Option<string>): Option<TrustState> {
    if k !in m then None
    else
      var e := ToTrustEntry(m[k]);
      if current.Some? && e.identityKey != current.value
      then Some(TrustState(Changed, current.value, Some(e.identityKey), e))
      else Some(TrustState(if e.verifiedAt.Some? then Verified else Unverified, e.identityKey, None, e))
  }

  /** The storage; every operation reads the whole map and writes it back. */
  class TrustStore {
    var entries: StoredMap

    constructor (entries: StoredMap)
      ensures this.entries == entries
    {
      this.entries := entries;
    }

    method SetStoredIdentityKey(recipient: string, device: Option<string>, identityKey: string, now: Time)
      modifies this
      ensures entries == Step(old(entries), SetKey(recipient, device, identityKey, now))
    {
      var k := StorageKey(recipient, device);
      var entry := KeyOnly(identityKey).(seenAt := Some(now));
      if Present(entries, k) {
        var prev := ToTrustEntry(entries[k]);
        if prev.identityKey == identityKey {
          entry := prev;
        } else {
          entry := entry.(changedAt := Some(now));
        }
      }
      entries := entries[k := Entry(entry)];
    }

    method ClearVerifiedStatus(recipient: string, device: Option<string>)
      modifies this
      ensures entries == Step(old(entries), ClearVerified(recipient, device))
    {
      var k := StorageKey(recipient, device);
      if !Present(entries, k) {
        return;
      }
      entries := entries[k := Entry(ToTrustEntry(entries[k]).(verifiedAt := None, verifiedMethod := None))];
    }

    method RemoveTrustEntry(recipient: string, device: Option<string>)
      modifies this
      ensures entries == Step(old(entries), Remove(recipient, device))
    {
      entries := entries - {StorageKey(recipient, device)};
    }

    method MarkAsVerified(recipient: string, device: Option<string>, how: Method, key: Option<string>, now: Time)
      modifies this
      ensures entries == Step(old(entries), MarkVerified(recipient, device, how, key, now))
    {
      var k := StorageKey(recipient, device);
      if !Present(entries, k) {
        if key.None? || key.value == "" {
          return;
        }
        entries := entries[k := Entry(KeyOnly(key.value).(seenAt := Some(now)))];
      }
      var entry := ToTrustEntry(entries[k]);
      entries := entries[k := Entry(entry.(verifiedAt := Some(now), verifiedMethod := Some(how)))];
    }

    method EnsureTrustEntryFormat()
      modifies this
      ensures entries == Converted(old(entries))
    {
      var left := entries.Keys;
      while left != {}
        invariant entries.Keys == old(entries).Keys && left <= entries.Keys
        invariant forall k | k in left :: entries[k] == old(entries)[k]
        invariant forall k | k in entries && k !in left :: entries[k] == Entry(ToTrustEntry(old(entries)[k]))
      {
        var k :| k in left;
        left := left - {k};
        if entries[k].Legacy? {
          entries := entries[k := Entry(KeyOnly(entries[k].key))];
        }
      }
      assert entries == Converted(old(entries));
    }

    method GetTrustState(recipient: string, current: Option<string>, device: Option<string>)
      returns (r: Option<TrustState>)
      modifies this
      ensures entries == Step(old(entries), Look(recipient, device))
      ensures r == Answer(old(entries), StorageKey(recipient, device), current)
    {
      EnsureTrustEntryFormat();
      var k := StorageKey(recipient, device);
      if k !in entries {
        return None;
      }
      var entry := entries[k].entry;
      if current.Some? && entry.identityKey != current.value {
        return Some(TrustState(Changed, current.value, Some(entry.identityKey), entry));
      }
      return Some(TrustState(if entry.verifiedAt.Some? then Verified else Unverified, entry.identityKey, None, entry));
    }
  }

  // ------------------------------------------------------- when an entry is verified

  function Run(m: StoredMap, ops: seq<Op>): StoredMap {
    if ops == [] then m else Step(Run(m, ops[..|ops| - 1]), ops[|ops| - 1])
  }

  predicate IsVerified(m: StoredMap, k: string) {
    k in m && ToTrustEntry(m[k]).verifiedAt.Some?
  }

  /** A confirmation of the entry `k` that finds a key to confirm. */
  predicate Marks(m: StoredMap, op: Op, k: string) {
    op.MarkVerified? && KeyOf(op) == k && (Present(m, k) || (op.key.Some? && op.key.value != ""))
  }

  /** A step that gives the entry `k` another key, clears it or removes it. */
  predicate Resets(m: StoredMap, op: Op, k: string) {
    && KeyOf(op) == k
    && match op
       case SetKey(_, _, identityKey, _) => !Present(m, k) || ToTrustEntry(m[k]).identityKey != identityKey
       case ClearVerified(_, _) => true
       case Remove(_, _) => true
       case _ => false
  }

  /** Step `i` confirmed the entry and no later step reset it. */
  ghost predicate ConfirmedAt(m: StoredMap, ops: seq<Op>, i: nat, k: string) {
    && i < |ops| && Marks(Run(m, ops[..i]), ops[i], k)
    && forall j | i < j < |ops| :: !ResetsAt(m, ops, j, k)
  }

  predicate ResetsAt(m: StoredMap, ops: seq<Op>, j: nat, k: string)
    requires j < |ops|
  {
    Resets(Run(m, ops[..j]), ops[j], k)
  }

  lemma StepVerifies(m: StoredMap, op: Op, k: string)
    ensures IsVerified(Step(m, op), k) <==> Marks(m, op, k) || (IsVerified(m, k) && !Resets(m, op, k))
  {
  }

  /** Dropping the last step, unless that one is the confirmation. */
  lemma ConfirmedEarlier(m: StoredMap, ops: seq<Op>, i: nat, k: string)
    requires i + 1 < |ops|
    ensures var front := ops[..|ops| - 1];
            ConfirmedAt(m, ops, i, k) <==> ConfirmedAt(m, front, i, k) && !ResetsAt(m, ops, |ops| - 1, k)
  {
    var front := ops[..|ops| - 1];
    assert front[..i] == ops[..i];
    forall j | i < j < |front|
      ensures ResetsAt(m, front, j, k) == ResetsAt(m, ops, j, k)
    {
      assert front[..j] == ops[..j];
    }
    if ConfirmedAt(m, ops, i, k) {
      assert !ResetsAt(m, ops, |ops| - 1, k);
    }
  }

  /** An entry is verified exactly when a confirmation came after every step that replaced, cleared or removed it. */
  lemma {:induction false} VerifiedExactly(m: StoredMap, ops: seq<Op>, k: string)
    requires !IsVerified(m, k)
    ensures IsVerified(Run(m, ops), k) <==> exists i :: ConfirmedAt(m, ops, i, k)
  {
    if ops != [] {
      var last := |ops| - 1;
      var front := ops[..last];
      VerifiedExactly(m, front, k);
      StepVerifies(Run(m, front), ops[last], k);
      if Marks(Run(m, front), ops[last], k) {
        assert ConfirmedAt(m, ops, last, k);
      } else {
        if i :| ConfirmedAt(m, front, i, k) && !ResetsAt(m, ops, last, k) {
          ConfirmedEarlier(m, ops, i, k);
        }
        if i :| ConfirmedAt(m, ops, i, k) {
          ConfirmedEarlier(m, ops, i, k);
        }
      }
    }
  }

  /** The answer is Verified exactly when the stored key is the given one and its confirmation still stands. */
  lemma AnswerIsVerifiedExactly(m: StoredMap, ops: seq<Op>, k: string, current: string)
    requires !IsVerified(m, k)
    ensures var after := Run(m, ops);
            var r := Answer(after, k, Some(current));
            (r.Some? && r.value.status == Verified)
              <==> k in after && ToTrustEntry(after[k]).identityKey == current && exists i :: ConfirmedAt(m, ops, i, k)
  {
    VerifiedExactly(m, ops, k);
  }

  // ------------------------------------------------------------------ what is stored

  /** Storing a key keeps an entry that has it; any other entry is replaced by one without a confirmation. */
  lemma SetKeyStores(m: StoredMap, recipient: string, device: Option<string>, key: string, now: Time)
    ensures var k := StorageKey(recipient, device);
            var n := Step(m, SetKey(recipient, device, key, now));
            && n.Keys == m.Keys + {k} && ToTrustEntry(n[k]).identityKey == key
            && (forall j | j in m && j != k :: n[j] == m[j])
            && (Present(m, k) && ToTrustEntry(m[k]).identityKey == key ==> n[k] == Entry(ToTrustEntry(m[k])))
            && (Present(m, k) && ToTrustEntry(m[k]).identityKey != key ==>
                  n[k] == Entry(TrustEntry(key, Some(now), None, None, Some(now))))
            && (!Present(m, k) ==> n[k] == Entry(TrustEntry(key, Some(now), None, None, None)))
  {
  }

  /** Clearing takes the confirmation away and nothing else. */
  lemma ClearingStores(m: StoredMap, recipient: string, device: Option<string>)
    ensures var k := StorageKey(recipient, device);
            var n := Step(m, ClearVerified(recipient, device));
            if !Present(m, k) then n == m
            else
              var e := ToTrustEntry(m[k]);
              n == m[k := Entry(TrustEntry(e.identityKey, e.seenAt, None, None, e.changedAt))]
  {
  }

  lemma RemovingStores(m: StoredMap, recipient: string, device: Option<string>)
    ensures var k := StorageKey(recipient, device);
            var n := Step(m, Remove(recipient, device));
            n.Keys == m.Keys - {k} && forall j | j in n :: n[j] == m[j]
  {
  }

  /** A confirmation notes when and how, on the entry there is or on a new one for the given key. */
  lemma MarkingStores(m: StoredMap, recipient: string, device: Option<string>, how: Method, key: Option<string>,
                      now: Time)
    ensures var k := StorageKey(recipient, device);
            var n := Step(m, MarkVerified(recipient, device, how, key, now));
            if Present(m, k) then
              var e := ToTrustEntry(m[k]);
              n == m[k := Entry(TrustEntry(e.identityKey, e.seenAt, Some(now), Some(how), e.changedAt))]
            else if key.Some? && key.value != "" then
              n == m[k := Entry(TrustEntry(key.value, Some(now), Some(now), Some(how), None))]
            else n == m
  {
  }

  /** The entry for a stored value: itself, or the bare key without anything noted. */
  lemma EntryOf(v: Stored)
    ensures ToTrustEntry(v) == if v.Entry? then v.entry else TrustEntry(v.key, None, None, None, None)
  {
  }

  /** The answer: none without an entry, changed if another key is given, else whether it is confirmed. */
  lemma AnswerExactly(m: StoredMap, k: string, current: Option<string>)
    ensures var r := Answer(m, k, current);
            && (r.None? <==> k !in m)
            && (r.Some? ==>
                  var e := ToTrustEntry(m[k]);
                  && r.value.entry == e
                  && (current.Some? && current.value != e.identityKey ==>
                        r.value.status == Changed && r.value.identityKey == current.value
                        && r.value.previousKey == Some(e.identityKey))
                  && (current.None? || current.value == e.identityKey ==>
                        r.value.status == (if e.verifiedAt.Some? then Verified else Unverified)
                        && r.value.identityKey == e.identityKey && r.value.previousKey == None))
  {
  }

  // ---------------------------------------------------------------- separate entries

  /** A step on another entry, or a look, changes no answer about this one. */
  lemma OtherStepKeepsAnswer(m: StoredMap, op: Op, k: string, current: Option<string>)
    requires KeyOf(op) != k || op.Look?
    ensures Answer(Step(m, op), k, current) == Answer(m, k, current)
  {
  }

  lemma {:induction false} OtherRunKeepsAnswer(m: StoredMap, ops: seq<Op>, k: string, current: Option<string>)
    requires forall op | op in ops :: KeyOf(op) != k || op.Look?
    ensures Answer(Run(m, ops), k, current) == Answer(m, k, current)
  {
    if ops != [] {
      OtherRunKeepsAnswer(m, ops[..|ops| - 1], k, current);
      OtherStepKeepsAnswer(Run(m, ops[..|ops| - 1]), ops[|ops| - 1], k, current);
    }
  }

  predicate ColonFree(device: Option<string>) {
    device.Some? ==> ':' !in device.value
  }

  predicate SameDevice(a: Option<string>, b: Option<string>) {
    (if a.Some? then a.value else "") == (if b.Some? then b.value else "")
  }

  predicate SamePair(r: string, d: Option<string>, s: string, e: Option<string>) {
    r == s && SameDevice(d, e)
  }

  /** One pair names no device and its recipient spells out the other pair. */
  predicate SpellsOut(r: string, d: Option<string>, s: string, e: Option<string>) {
    SameDevice(d, None) && !SameDevice(e, None) && r == StorageKey(s, e)
  }

  /** For device ids without a colon, two pairs share an entry only if they are the same or one spells out the other. */
  lemma EntriesMeetExactly(r: string, d: Option<string>, s: string, e: Option<string>)
    requires ColonFree(d) && ColonFree(e)
    ensures StorageKey(r, d) == StorageKey(s, e) <==>
      SamePair(r, d, s, e) || SpellsOut(r, d, s, e) || SpellsOut(s, e, r, d)
  {
    if d.Some? && e.Some? {
      LastSeparator(r, d.value, s, e.value, ':');
    }
  }

  /**
   * For device ids without a colon, no run of steps on other pairs changes the
   * answer about this one, unless one of the two names no device and spells out the other.
   */
  lemma OtherPairsKeepAnswer(m: StoredMap, ops: seq<Op>, recipient: string, device: Option<string>,
                             current: Option<string>)
    requires ColonFree(device) && forall op | op in ops :: ColonFree(op.device)
    requires forall op | op in ops ::
      && !SamePair(op.recipient, op.device, recipient, device)
      && !SpellsOut(op.recipient, op.device, recipient, device)
      && !SpellsOut(recipient, device, op.recipient, op.device)
    ensures Answer(Run(m, ops), StorageKey(recipient, device), current)
         == Answer(m, StorageKey(recipient, device), current)
  {
    forall op | op in ops
      ensures KeyOf(op) != StorageKey(recipient, device)
    {
      EntriesMeetExactly(op.recipient, op.device, recipient, device);
    }
    OtherRunKeepsAnswer(m, ops, StorageKey(recipient, device), current);
  }
}
