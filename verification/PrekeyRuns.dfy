/** What holds over whole runs of the prekey operations, and of a replenishment. */
module PrekeyRuns {
  import opened Prekeys
  import opened Wrappers

  function Run(s: Store, ops: seq<Op>): Store
    decreases ops
  {
    if ops == [] then s else Run(Step(s, ops[0]).0, ops[1..])
  }

  // -------------------------------------------------- no row is handed out twice

  function HandedBy(a: Answer): seq<nat> {
    if a.Bundle? && a.prekey.Some? then [a.prekey.value.0] else []
  }

  /** The ids of the rows the bundles of a run contained, in order. */
  function Handed(s: Store, ops: seq<Op>): seq<nat>
    decreases ops
  {
    if ops == [] then []
    else
      var (next, answer) := Step(s, ops[0]);
      HandedBy(answer) + Handed(next, ops[1..])
  }

  predicate NoRepeats(ids: seq<nat>) {
    ids == [] || (ids[0] !in ids[1..] && NoRepeats(ids[1..]))
  }

  /** An id that can never be handed out again. */
  ghost predicate Spent(s: Store, id: nat) {
    id < s.next && forall r | r in s.rows && r.id == id :: r.consumed.Some?
  }

  lemma {:induction false} InsertedRow(s: Store, device: DeviceId, keys: seq<KeyId>, r: Row)
    requires r in InsertAll(s, device, keys).rows
    ensures s.next <= InsertAll(s, device, keys).next
    ensures r in s.rows || (r.id >= s.next && r.device == device && r.key in keys && r.consumed.None?)
  {
    if keys != [] {
      var front := InsertAll(s, device, keys[..|keys| - 1]);
      if r in front.rows {
        InsertedRow(s, device, keys[..|keys| - 1], r);
      } else {
        SequenceGrows(s, device, keys[..|keys| - 1]);
        assert r == Row(front.next, device, keys[|keys| - 1], None);
      }
    }
  }

  lemma {:induction false} SequenceGrows(s: Store, device: DeviceId, keys: seq<KeyId>)
    ensures s.next <= InsertAll(s, device, keys).next
  {
    if keys != [] {
      SequenceGrows(s, device, keys[..|keys| - 1]);
    }
  }

  lemma InsertAllKeepsSpent(s: Store, device: DeviceId, keys: seq<KeyId>, id: nat)
    requires Spent(s, id)
    ensures Spent(InsertAll(s, device, keys), id)
  {
  }

  lemma ConsumeKeepsSpent(s: Store, i: nat, id: nat)
    requires Spent(s, id) && i < |s.rows|
    ensures Spent(s.(rows := Consume(s.rows, i, s.now)), id)
  {
  }

  lemma DeleteKeepsSpent(s: Store, del: Deletion, id: nat)
    requires Spent(s, id)
    ensures forall r | r in Delete(s.rows, del) && r.id == id :: r.consumed.Some?
  {
    forall r | r in Delete(s.rows, del) && r.id == id
      ensures r.consumed.Some?
    {
      DeleteKeeps(s.rows, del, r);
    }
  }

  lemma StepKeepsSpent(s: Store, op: Op, id: nat)
    requires Spent(s, id)
    ensures Spent(Step(s, op).0, id)
    ensures id !in HandedBy(Step(s, op).1)
  {
    match op
    case Register(device, keys) =>
      InsertOrFailInserts(s.(devices := s.devices + {device}), device, keys);
      InsertAllKeepsSpent(s.(devices := s.devices + {device}), device, keys, id);
    case Login(device, keys) => InsertAllKeepsSpent(s.(devices := s.devices + {device}), device, keys, id);
    case Upload(device, keys) => InsertAllKeepsSpent(s, device, keys, id);
    case Fetch(device, _) =>
      var p := Pick(s.rows, device);
      if p.Some? {
        assert s.rows[p.value] in s.rows;
        ConsumeKeepsSpent(s, p.value, id);
      }
    case Cleanup => DeleteKeepsSpent(s, OldConsumed(s.now - KEPT), id);
    case RevokeDevice(device) => DeleteKeepsSpent(s, OfDevice(device), id);
    case Tick(_) =>
  }

  lemma {:induction false} IdIsUnique(rows: seq<Row>, i: nat, j: nat)
    requires DistinctIds(rows) && i < j < |rows|
    ensures rows[i].id != rows[j].id
  {
    if j < |rows| - 1 {
      IdIsUnique(rows[..|rows| - 1], i, j);
    } else {
      assert rows[i] == rows[..j][i];
    }
  }

  lemma FetchSpends(s: Store, device: DeviceId)
    requires Sound(s) && Pick(s.rows, device).Some?
    ensures var i := Pick(s.rows, device).value;
            Spent(s.(rows := Consume(s.rows, i, s.now)), s.rows[i].id)
  {
    var i := Pick(s.rows, device).value;
    var rows := Consume(s.rows, i, s.now);
    assert s.rows[i] in s.rows;
    forall r | r in rows && r.id == s.rows[i].id
      ensures r.consumed.Some?
    {
      var j :| 0 <= j < |rows| && rows[j] == r;
      if j < i {
        IdIsUnique(s.rows, j, i);
      } else if i < j {
        IdIsUnique(s.rows, i, j);
      }
    }
  }

  lemma {:induction false} SpentIsNeverHanded(s: Store, ops: seq<Op>, id: nat)
    requires Spent(s, id)
    ensures id !in Handed(s, ops)
    decreases ops
  {
    if ops != [] {
      StepKeepsSpent(s, ops[0], id);
      SpentIsNeverHanded(Step(s, ops[0]).0, ops[1..], id);
    }
  }

  /** However requests, uploads, cleanups and revocations interleave, each stored row is handed out at most once. */
  lemma {:induction false} HandedOutOnce(s: Store, ops: seq<Op>)
    requires Sound(s)
    ensures NoRepeats(Handed(s, ops))
    decreases ops
  {
    if ops != [] {
      var (next, answer) := Step(s, ops[0]);
      StepKeepsSound(s, ops[0]);
      HandedOutOnce(next, ops[1..]);
      if HandedBy(answer) != [] {
        FetchSpends(s, ops[0].device);
        SpentIsNeverHanded(next, ops[1..], HandedBy(answer)[0]);
        assert Handed(s, ops)[1..] == Handed(next, ops[1..]);
      } else {
        assert Handed(s, ops) == Handed(next, ops[1..]);
      }
    }
  }

  lemma {:induction false} QuotaHolds(s: Store, ops: seq<Op>, device: DeviceId)
    requires Sound(s)
    ensures Sound(Run(s, ops)) && Open(Run(s, ops).rows, device) <= QUOTA
    decreases ops
  {
    if ops != [] {
      StepKeepsSound(s, ops[0]);
      QuotaHolds(Step(s, ops[0]).0, ops[1..], device);
    }
  }

  // ---------------------------------------------------------------- replenishment

  /** The key ids of a batch. */
  function Batch(count: nat, start: KeyId): (keys: seq<KeyId>)
    requires start + count - 1 <= MAX_KEY_ID
    ensures |keys| == count && forall i | 0 <= i < count :: keys[i] == start + i
  {
    seq(count, i requires 0 <= i < count => start + i)
  }

  datatype Entry = Entry(keyId: int, pub: string, priv: string)

  /** One entry per drawn key pair, with consecutive ids. */
  method GenerateOneTimePrekeys(pairs: seq<(string, string)>, startKeyId: int) returns (out: seq<Entry>)
    ensures |out| == |pairs|
    ensures forall i | 0 <= i < |pairs| :: out[i] == Entry(startKeyId + i, pairs[i].0, pairs[i].1)
  {
    out := [];
    for i := 0 to |pairs|
      invariant |out| == i
      invariant forall j | 0 <= j < i :: out[j] == Entry(startKeyId + j, pairs[j].0, pairs[j].1)
    {
      out := out + [Entry(startKeyId + i, pairs[i].0, pairs[i].1)];
    }
  }

  ghost predicate Below(rows: seq<Row>, device: DeviceId, n: int) {
    forall r | r in rows && r.device == device :: r.key < n
  }

  lemma {:induction false} MaxKeyIsLargest(rows: seq<Row>, device: DeviceId)
    ensures MaxKey(rows, device).None? ==> forall r | r in rows :: r.device != device
    ensures MaxKey(rows, device).Some? ==>
      Has(rows, device, MaxKey(rows, device).value) && Below(rows, device, MaxKey(rows, device).value + 1)
  {
    if rows != [] {
      var front, last := rows[..|rows| - 1], rows[|rows| - 1];
      MaxKeyIsLargest(front, device);
      assert rows == front + [last];
      assert last in rows;
      assert forall r | r in front :: r in rows;
    }
  }

  lemma ReportedIdIsAbove(rows: seq<Row>, device: DeviceId)
    requires !Has(rows, device, MAX_KEY_ID)
    ensures Below(rows, device, NextKeyId(rows, device))
  {
    MaxKeyIsLargest(rows, device);
  }

  /**
   * The ids from the reported one on are free whenever the largest 64-bit id is
   * not stored. When it is, the sum wraps around and 1 is reported; whether the
   * first ids are free is then not decided by it and has to be looked up.
   */
  lemma ReportedIdsAreFreeExactly(rows: seq<Row>, device: DeviceId, count: nat)
    requires NextKeyId(rows, device) + count - 1 <= MAX_KEY_ID
    ensures (forall k | k in Batch(count, NextKeyId(rows, device)) :: !Has(rows, device, k))
       <==> (Has(rows, device, MAX_KEY_ID) ==> forall k | k in Batch(count, 1) :: !Has(rows, device, k))
  {
    MaxKeyIsLargest(rows, device);
    if Has(rows, device, MAX_KEY_ID) {
      assert MaxKey(rows, device) == Some(MAX_KEY_ID);
      assert NextKeyId(rows, device) == 1;
    } else {
      ReportedIdIsAbove(rows, device);
    }
  }

  predicate Ascending(keys: seq<KeyId>) {
    forall i, j | 0 <= i < j < |keys| :: keys[i] < keys[j]
  }

  /** New distinct keys are all inserted. */
  lemma {:induction false} FreshKeysAreAllInserted(s: Store, device: DeviceId, keys: seq<KeyId>)
    requires Ascending(keys)
    requires forall k | k in keys :: !Has(s.rows, device, k)
    ensures Open(InsertAll(s, device, keys).rows, device) == Open(s.rows, device) + |keys|
  {
    if keys != [] {
      var front, last := keys[..|keys| - 1], keys[|keys| - 1];
      FreshKeysAreAllInserted(s, device, front);
      var t := InsertAll(s, device, front);
      assert last in keys;
      forall r | r in t.rows && r.device == device
        ensures r.key != last
      {
        InsertedRow(s, device, front, r);
      }
      InsertEffect(t, device, last, device);
    }
  }

  lemma {:induction false} TakenKeyIsPassedOver(s: Store, device: DeviceId, keys: seq<KeyId>, k: KeyId)
    requires k in keys && Has(s.rows, device, k)
    ensures Open(InsertAll(s, device, keys).rows, device) < Open(s.rows, device) + |keys|
  {
    var front, last := keys[..|keys| - 1], keys[|keys| - 1];
    var t := InsertAll(s, device, front);
    InsertEffect(t, device, last, device);
    if last == k {
      InsertedKeysAreTaken(s, device, front, k);
      InsertAllCount(s, device, front, device);
    } else {
      TakenKeyIsPassedOver(s, device, front, k);
    }
  }

  /** A batch raises the count by exactly its size if and only if none of its ids is taken. */
  lemma AllAreInsertedExactly(s: Store, device: DeviceId, keys: seq<KeyId>)
    requires Ascending(keys)
    ensures Open(InsertAll(s, device, keys).rows, device) == Open(s.rows, device) + |keys|
       <==> forall k | k in keys :: !Has(s.rows, device, k)
  {
    if k :| k in keys && Has(s.rows, device, k) {
      TakenKeyIsPassedOver(s, device, keys, k);
    } else {
      FreshKeysAreAllInserted(s, device, keys);
    }
  }

  /** Neither an upload for the device nor its revocation. */
  predicate Calm(ops: seq<Op>, device: DeviceId) {
    forall op | op in ops :: (op.Upload? || op.RevokeDevice?) ==> op.device != device
  }

  lemma InsertKeepsBelow(s: Store, other: DeviceId, keys: seq<KeyId>, device: DeviceId, n: int)
    requires Below(s.rows, device, n) && other != device
    ensures Below(InsertAll(s, other, keys).rows, device, n)
    ensures Open(InsertAll(s, other, keys).rows, device) == Open(s.rows, device)
  {
  }

  lemma DeleteKeepsBelow(rows: seq<Row>, del: Deletion, device: DeviceId, n: int)
    requires Below(rows, device, n)
    ensures Below(Delete(rows, del), device, n)
    ensures Open(Delete(rows, del), device) <= Open(rows, device)
  {
  }

  lemma FetchKeepsBelow(s: Store, other: DeviceId, device: DeviceId, n: int)
    requires Below(s.rows, device, n) && Pick(s.rows, other).Some?
    ensures var rows := Consume(s.rows, Pick(s.rows, other).value, s.now);
            Below(rows, device, n) && Open(rows, device) <= Open(s.rows, device)
  {
    var i := Pick(s.rows, other).value;
    var rows := Consume(s.rows, i, s.now);
    ConsumeCount(s.rows, i, s.now, device);
    forall r | r in rows && r.device == device
      ensures r.key < n
    {
      var j :| 0 <= j < |rows| && rows[j] == r;
      assert s.rows[j] in s.rows;
    }
  }

  lemma CalmStepKeepsBelow(s: Store, op: Op, device: DeviceId, n: int)
    requires device in s.devices && Below(s.rows, device, n)
    requires (op.Upload? || op.RevokeDevice?) ==> op.device != device
    ensures var t := Step(s, op).0;
            device in t.devices && Below(t.rows, device, n) && Open(t.rows, device) <= Open(s.rows, device)
  {
    match op
    case Register(other, keys) =>
      if other !in s.devices {
        InsertOrFailInserts(s.(devices := s.devices + {other}), other, keys);
        InsertKeepsBelow(s.(devices := s.devices + {other}), other, keys, device, n);
      }
    case Login(other, keys) =>
      if other !in s.devices {
        InsertKeepsBelow(s.(devices := s.devices + {other}), other, keys, device, n);
      }
    case Upload(other, keys) => InsertKeepsBelow(s, other, keys, device, n);
    case Fetch(other, _) =>
      if Pick(s.rows, other).Some? {
        FetchKeepsBelow(s, other, device, n);
      }
    case Cleanup => DeleteKeepsBelow(s.rows, OldConsumed(s.now - KEPT), device, n);
    case RevokeDevice(other) => DeleteKeepsBelow(s.rows, OfDevice(other), device, n);
    case Tick(_) =>
  }

  lemma {:induction false} CalmRunKeepsBelow(s: Store, ops: seq<Op>, device: DeviceId, n: int)
    requires device in s.devices && Below(s.rows, device, n) && Calm(ops, device)
    ensures var t := Run(s, ops);
            device in t.devices && Below(t.rows, device, n) && Open(t.rows, device) <= Open(s.rows, device)
    decreases ops
  {
    if ops != [] {
      CalmStepKeepsBelow(s, ops[0], device, n);
      CalmRunKeepsBelow(Step(s, ops[0]).0, ops[1..], device, n);
    }
  }

  /**
   * A replenishment takes the next id from the status, and other requests run
   * before its upload arrives. It still meets no taken id and adds all its keys.
   */
  lemma ReplenishmentAddsAll(s: Store, ops: seq<Op>, device: DeviceId)
    requires device in s.devices && Open(s.rows, device) < REPLENISH_THRESHOLD
    requires !Has(s.rows, device, MAX_KEY_ID) && NextKeyId(s.rows, device) + REPLENISH_COUNT - 1 <= MAX_KEY_ID
    requires Calm(ops, device)
    ensures var t, keys := Run(s, ops), Batch(REPLENISH_COUNT, NextKeyId(s.rows, device));
            var (u, answer) := Step(t, Upload(device, keys));
            && answer == Done
            && (forall k | k in keys :: !Has(t.rows, device, k))
            && Open(u.rows, device) == Open(t.rows, device) + REPLENISH_COUNT
  {
    var n := NextKeyId(s.rows, device);
    var t, keys := Run(s, ops), Batch(REPLENISH_COUNT, n);
    ReportedIdIsAbove(s.rows, device);
    CalmRunKeepsBelow(s, ops, device, n);
    FreshKeysAreAllInserted(t, device, keys);
  }

  lemma {:induction false} TakenKeysAddNothing(s: Store, device: DeviceId, keys: seq<KeyId>)
    requires forall k | k in keys :: Has(s.rows, device, k)
    ensures InsertAll(s, device, keys) == s
  {
    if keys != [] {
      TakenKeysAddNothing(s, device, keys[..|keys| - 1]);
    }
  }

  lemma {:induction false} InsertedKeysAreTaken(s: Store, device: DeviceId, keys: seq<KeyId>, k: KeyId)
    requires k in keys || Has(s.rows, device, k)
    ensures Has(InsertAll(s, device, keys).rows, device, k)
  {
    if keys != [] {
      var front, last := keys[..|keys| - 1], keys[|keys| - 1];
      var t := InsertAll(s, device, front);
      if k in front || Has(s.rows, device, k) {
        InsertedKeysAreTaken(s, device, front, k);
        var r :| r in t.rows && r.device == device && r.key == k;
        assert r in Insert(t, device, last).rows;
      } else if !Has(t.rows, device, last) {
        assert Row(t.next, device, last, None) in Insert(t, device, last).rows;
      }
    }
  }

  /** Sending the same upload again changes nothing, whether or not the quota admits it. */
  lemma RepeatedUploadAddsNothing(s: Store, device: DeviceId, keys: seq<KeyId>)
    requires Step(s, Upload(device, keys)).1 == Done
    ensures var t := Step(s, Upload(device, keys)).0;
            Step(t, Upload(device, keys)).0 == t
  {
    var t := Step(s, Upload(device, keys)).0;
    forall k | k in keys
      ensures keys != [] ==> Has(t.rows, device, k)
    {
      InsertedKeysAreTaken(s, device, keys, k);
    }
    TakenKeysAddNothing(t, device, keys);
  }
}
