/**
 * One-time prekeys: the table with its serial ids, the operations on it as
 * steps, and the client's replenishment.
 */
module Prekeys {
  import opened Wrappers

  type DeviceId = int

  const MAX_KEY_ID := 0x7FFF_FFFF_FFFF_FFFF
  const QUOTA := 500
  const KEPT := 30 * 24 * 60 * 60
  const REPLENISH_THRESHOLD := 20
  const REPLENISH_COUNT := 50

  /** A BIGINT. */
  type KeyId = k: int | -MAX_KEY_ID - 1 <= k <= MAX_KEY_ID

  datatype Row = Row(id: nat, device: DeviceId, key: KeyId, consumed: Option<int>)

  /** one_time_prekeys in insertion order, its id sequence, the devices and the time. */
  datatype Store = Store(rows: seq<Row>, next: nat, devices: set<DeviceId>, now: int)

  datatype Op =
    | Register(device: DeviceId, keys: seq<KeyId>)
    | Login(device: DeviceId, keys: seq<KeyId>)
    | Upload(device: DeviceId, keys: seq<KeyId>)
    | Fetch(device: DeviceId, opens: bool)
    | Cleanup
    | RevokeDevice(device: DeviceId)
    | Tick(seconds: nat)

  datatype Answer =
    | Done | Refused | TooMany | QuotaExceeded | NotFound
    | Bundle(prekey: Option<(nat, KeyId)>)
    | BadPrekey

  // ------------------------------------------------------------------------ table

  predicate IsOpen(r: Row, device: DeviceId) {
    r.device == device && r.consumed.None?
  }

  /** SELECT COUNT(*) of the unconsumed rows of a device. */
  function Open(rows: seq<Row>, device: DeviceId): (n: nat)
    ensures n <= |rows|
  {
    if rows == [] then 0
    else Open(rows[..|rows| - 1], device) + if IsOpen(rows[|rows| - 1], device) then 1 else 0
  }

  /** Whether the unique key (device, key) is taken. */
  predicate Has(rows: seq<Row>, device: DeviceId, key: KeyId) {
    exists r | r in rows :: r.device == device && r.key == key
  }

  /** The unconsumed row of the device with the least key id. */
  function Pick(rows: seq<Row>, device: DeviceId): (p: Option<nat>)
    ensures p.Some? ==> p.value < |rows| && IsOpen(rows[p.value], device)
  {
    if rows == [] then None
    else
      var last: nat := |rows| - 1;
      var p := Pick(rows[..last], device);
      assert p.Some? ==> rows[..last][p.value] == rows[p.value];
      if IsOpen(rows[last], device) && (p.None? || rows[last].key < rows[p.value].key) then Some(last) else p
  }

  /** It is the least, and there is one unless all are consumed. */
  lemma {:induction false} PickIsLeast(rows: seq<Row>, device: DeviceId)
    ensures Pick(rows, device).None? <==> Open(rows, device) == 0
    ensures Pick(rows, device).None? ==> forall r | r in rows :: !IsOpen(r, device)
    ensures Pick(rows, device).Some? ==>
      forall r | r in rows && IsOpen(r, device) :: rows[Pick(rows, device).value].key <= r.key
  {
    if rows != [] {
      var front := rows[..|rows| - 1];
      PickIsLeast(front, device);
      assert rows == front + [rows[|rows| - 1]];
    }
  }

  function Consume(rows: seq<Row>, i: nat, now: int): seq<Row>
    requires i < |rows|
  {
    rows[i := rows[i].(consumed := Some(now))]
  }

  /** Inserts one row; a taken key leaves the table alone. */
  function Insert(s: Store, device: DeviceId, key: KeyId): Store {
    if Has(s.rows, device, key) then s
    else s.(rows := s.rows + [Row(s.next, device, key, None)], next := s.next + 1)
  }

  function InsertAll(s: Store, device: DeviceId, keys: seq<KeyId>): (t: Store)
    ensures t.devices == s.devices && t.now == s.now
  {
    if keys == [] then s
    else Insert(InsertAll(s, device, keys[..|keys| - 1]), device, keys[|keys| - 1])
  }

  /** The inserts of a transaction: nothing if one of them meets a taken key. */
  function InsertOrFail(s: Store, device: DeviceId, keys: seq<KeyId>): Option<Store> {
    if keys == [] then Some(s)
    else
      var t := InsertOrFail(s, device, keys[..|keys| - 1]);
      if t.None? || Has(t.value.rows, device, keys[|keys| - 1]) then None
      else Some(Insert(t.value, device, keys[|keys| - 1]))
  }

  datatype Deletion = OldConsumed(before: int) | OfDevice(device: DeviceId)

  predicate Hits(d: Deletion, r: Row) {
    match d
    case OldConsumed(before) => r.consumed.Some? && r.consumed.value < before
    case OfDevice(device) => r.device == device
  }

  function Delete(rows: seq<Row>, d: Deletion): (t: seq<Row>)
    ensures |t| <= |rows|
  {
    if rows == [] then []
    else
      var kept := Delete(rows[..|rows| - 1], d);
      if Hits(d, rows[|rows| - 1]) then kept else kept + [rows[|rows| - 1]]
  }

  function MaxKey(rows: seq<Row>, device: DeviceId): Option<KeyId> {
    if rows == [] then None
    else
      var last, m := rows[|rows| - 1], MaxKey(rows[..|rows| - 1], device);
      if last.device == device && (m.None? || m.value < last.key) then Some(last.key) else m
  }

  /** COALESCE(MAX(key_id), 0) + 1 in 64 bits, then at least 1. */
  function NextKeyId(rows: seq<Row>, device: DeviceId): (n: KeyId)
    ensures n >= 1
  {
    var m := MaxKey(rows, device);
    var max := if m.None? then 0 else m.value;
    var next := if max == MAX_KEY_ID then -MAX_KEY_ID - 1 else max + 1;
    if next < 1 then 1 else next
  }

  // ------------------------------------------------------------------- operations

  /** What Login and Register do once they reach the device; earlier refusals change nothing. */
  function Step(s: Store, op: Op): (Store, Answer) {
    match op
    case Register(device, keys) =>
      if device in s.devices then (s, Refused)
      else if |keys| > QUOTA then (s, TooMany)
      else
        var t := InsertOrFail(s.(devices := s.devices + {device}), device, keys);
        if t.None? then (s, Refused) else (t.value, Done)
    case Login(device, keys) =>
      if device in s.devices then (s, Done)
      else
        var t := s.(devices := s.devices + {device});
        if |keys| > QUOTA then (t, TooMany) else (InsertAll(t, device, keys), Done)
    case Upload(device, keys) =>
      if keys == [] then (s, Done)
      else if Open(s.rows, device) + |keys| > QUOTA then (s, QuotaExceeded)
      else if device !in s.devices then (s, Refused)
      else (InsertAll(s, device, keys), Done)
    case Fetch(device, opens) =>
      if device !in s.devices then (s, NotFound)
      else
        var p := Pick(s.rows, device);
        if p.None? then (s, Bundle(None))
        else
          var row, t := s.rows[p.value], s.(rows := Consume(s.rows, p.value, s.now));
          (t, if opens then Bundle(Some((row.id, row.key))) else BadPrekey)
    case Cleanup =>
      (s.(rows := Delete(s.rows, OldConsumed(s.now - KEPT))), Done)
    case RevokeDevice(device) =>
      if device !in s.devices then (s, Done)
      else (s.(rows := Delete(s.rows, OfDevice(device)), devices := s.devices - {device}), Done)
    case Tick(seconds) =>
      (s.(now := s.now + seconds), Done)
  }

  // -------------------------------------------------------------------- soundness

  predicate DistinctIds(rows: seq<Row>) {
    rows == [] ||
    (DistinctIds(rows[..|rows| - 1]) && forall r | r in rows[..|rows| - 1] :: r.id != rows[|rows| - 1].id)
  }

  /** The serial key, the foreign key and the quota. */
  ghost predicate Sound(s: Store) {
    && DistinctIds(s.rows)
    && (forall r | r in s.rows :: r.id < s.next && r.device in s.devices)
    && forall d :: Open(s.rows, d) <= QUOTA
  }

  lemma OpenPush(rows: seq<Row>, r: Row, d: DeviceId)
    ensures Open(rows + [r], d) == Open(rows, d) + if IsOpen(r, d) then 1 else 0
  {
  }

  lemma InsertEffect(s: Store, device: DeviceId, key: KeyId, d: DeviceId)
    ensures var t := Insert(s, device, key);
            Open(t.rows, d) == Open(s.rows, d) + if d == device && !Has(s.rows, device, key) then 1 else 0
  {
  }

  /** Inserts give other devices nothing, and this one at most as many rows as there are keys. */
  lemma {:induction false} InsertAllCount(s: Store, device: DeviceId, keys: seq<KeyId>, d: DeviceId)
    ensures var t := InsertAll(s, device, keys);
            Open(s.rows, d) <= Open(t.rows, d) <= Open(s.rows, d) + if d == device then |keys| else 0
  {
    if keys != [] {
      var front := keys[..|keys| - 1];
      InsertAllCount(s, device, front, d);
      InsertEffect(InsertAll(s, device, front), device, keys[|keys| - 1], d);
    }
  }

  /** Everything about the rows but their number. */
  ghost predicate WellKeyed(s: Store) {
    && DistinctIds(s.rows)
    && forall r | r in s.rows :: r.id < s.next && r.device in s.devices
  }

  lemma {:induction false} InsertAllWellKeyed(s: Store, device: DeviceId, keys: seq<KeyId>)
    requires WellKeyed(s) && device in s.devices
    ensures WellKeyed(InsertAll(s, device, keys))
  {
    if keys != [] {
      var front := InsertAll(s, device, keys[..|keys| - 1]);
      InsertAllWellKeyed(s, device, keys[..|keys| - 1]);
      var r := Row(front.next, device, keys[|keys| - 1], None);
      assert (front.rows + [r])[..|front.rows|] == front.rows;
    }
  }

  /** A transaction that succeeds did what the plain inserts do. */
  lemma {:induction false} InsertOrFailInserts(s: Store, device: DeviceId, keys: seq<KeyId>)
    ensures InsertOrFail(s, device, keys).Some? ==> InsertOrFail(s, device, keys).value == InsertAll(s, device, keys)
  {
    if keys != [] {
      InsertOrFailInserts(s, device, keys[..|keys| - 1]);
    }
  }

  lemma {:induction false} NoRowsNoCount(rows: seq<Row>, device: DeviceId)
    requires forall r | r in rows :: r.device != device
    ensures Open(rows, device) == 0
  {
    if rows != [] {
      NoRowsNoCount(rows[..|rows| - 1], device);
    }
  }

  lemma {:induction false} ConsumeCount(rows: seq<Row>, i: nat, now: int, d: DeviceId)
    requires i < |rows| && rows[i].consumed.None?
    ensures Open(Consume(rows, i, now), d) == Open(rows, d) - if IsOpen(rows[i], d) then 1 else 0
    ensures IsOpen(rows[i], d) ==> Open(rows, d) > 0
  {
    var last := |rows| - 1;
    if i == last {
      assert Consume(rows, i, now)[..last] == rows[..last];
    } else {
      ConsumeCount(rows[..last], i, now, d);
      assert Consume(rows, i, now)[..last] == Consume(rows[..last], i, now);
    }
  }

  lemma {:induction false} ConsumeDistinct(rows: seq<Row>, i: nat, now: int)
    requires i < |rows| && DistinctIds(rows)
    ensures DistinctIds(Consume(rows, i, now))
  {
    var last := |rows| - 1;
    if i == last {
      assert Consume(rows, i, now)[..last] == rows[..last];
    } else {
      ConsumeDistinct(rows[..last], i, now);
      assert Consume(rows, i, now)[..last] == Consume(rows[..last], i, now);
      forall r | r in Consume(rows[..last], i, now)
        ensures r.id != rows[last].id
      {
        var j :| 0 <= j < last && Consume(rows[..last], i, now)[j] == r;
        assert rows[..last][j] in rows[..last] && rows[..last][j].id == r.id;
      }
    }
  }

  lemma {:induction false} DeleteKeeps(rows: seq<Row>, d: Deletion, r: Row)
    ensures r in Delete(rows, d) <==> r in rows && !Hits(d, r)
  {
    if rows != [] {
      DeleteKeeps(rows[..|rows| - 1], d, r);
      assert rows == rows[..|rows| - 1] + [rows[|rows| - 1]];
    }
  }

  lemma {:induction false} DeleteDistinct(rows: seq<Row>, d: Deletion)
    requires DistinctIds(rows)
    ensures DistinctIds(Delete(rows, d))
  {
    if rows != [] {
      var front, last := rows[..|rows| - 1], rows[|rows| - 1];
      DeleteDistinct(front, d);
      if !Hits(d, last) {
        assert Delete(rows, d)[..|Delete(front, d)|] == Delete(front, d);
        forall r | r in Delete(front, d)
          ensures r.id != last.id
        {
          DeleteKeeps(front, d, r);
        }
      }
    }
  }

  /** Deleting old consumed rows changes no count; deleting a device changes only its own. */
  lemma {:induction false} DeleteCount(rows: seq<Row>, del: Deletion, d: DeviceId)
    ensures Open(Delete(rows, del), d) == if del == OfDevice(d) then 0 else Open(rows, d)
  {
    if rows != [] {
      var front, last := rows[..|rows| - 1], rows[|rows| - 1];
      DeleteCount(front, del, d);
      if !Hits(del, last) {
        OpenPush(Delete(front, del), last, d);
      }
    }
  }

  lemma DeleteKeepsSound(s: Store, del: Deletion, devices: set<DeviceId>)
    requires Sound(s)
    requires devices == if del.OfDevice? then s.devices - {del.device} else s.devices
    ensures Sound(s.(rows := Delete(s.rows, del), devices := devices))
  {
    var t := s.(rows := Delete(s.rows, del), devices := devices);
    DeleteDistinct(s.rows, del);
    forall r | r in t.rows
      ensures r.id < t.next && r.device in t.devices
    {
      DeleteKeeps(s.rows, del, r);
    }
    forall d
      ensures Open(t.rows, d) <= QUOTA
    {
      DeleteCount(s.rows, del, d);
    }
  }

  lemma InsertAllSound(s: Store, device: DeviceId, keys: seq<KeyId>)
    requires Sound(s) && device in s.devices && Open(s.rows, device) + |keys| <= QUOTA
    ensures Sound(InsertAll(s, device, keys))
  {
    InsertAllWellKeyed(s, device, keys);
    forall d
      ensures Open(InsertAll(s, device, keys).rows, d) <= QUOTA
    {
      InsertAllCount(s, device, keys, d);
    }
  }

  lemma AddDeviceSound(s: Store, device: DeviceId)
    requires Sound(s)
    ensures Sound(s.(devices := s.devices + {device}))
    ensures device !in s.devices ==> Open(s.rows, device) == 0
  {
    if device !in s.devices {
      NoRowsNoCount(s.rows, device);
    }
  }

  lemma FetchSound(s: Store, device: DeviceId)
    requires Sound(s) && Pick(s.rows, device).Some?
    ensures Sound(s.(rows := Consume(s.rows, Pick(s.rows, device).value, s.now)))
  {
    var i := Pick(s.rows, device).value;
    var rows := Consume(s.rows, i, s.now);
    ConsumeDistinct(s.rows, i, s.now);
    forall r | r in rows
      ensures r.id < s.next && r.device in s.devices
    {
      var j :| 0 <= j < |rows| && rows[j] == r;
      assert s.rows[j] in s.rows;
    }
    forall d
      ensures Open(rows, d) <= QUOTA
    {
      ConsumeCount(s.rows, i, s.now, d);
    }
  }

  /** No step lets a device have more than 500 unconsumed keys. */
  lemma StepKeepsSound(s: Store, op: Op)
    requires Sound(s)
    ensures Sound(Step(s, op).0)
  {
    match op
    case Register(device, keys) =>
      AddDeviceSound(s, device);
      if device !in s.devices && |keys| <= QUOTA {
        InsertOrFailInserts(s.(devices := s.devices + {device}), device, keys);
        InsertAllSound(s.(devices := s.devices + {device}), device, keys);
      }
    case Login(device, keys) =>
      AddDeviceSound(s, device);
      if device !in s.devices && |keys| <= QUOTA {
        InsertAllSound(s.(devices := s.devices + {device}), device, keys);
      }
    case Upload(device, keys) =>
      if device in s.devices && Open(s.rows, device) + |keys| <= QUOTA {
        InsertAllSound(s, device, keys);
      }
    case Fetch(device, _) =>
      if Pick(s.rows, device).Some? {
        FetchSound(s, device);
      }
    case Cleanup => DeleteKeepsSound(s, OldConsumed(s.now - KEPT), s.devices);
    case RevokeDevice(device) => DeleteKeepsSound(s, OfDevice(device), s.devices - {device});
    case Tick(_) =>
  }
}
