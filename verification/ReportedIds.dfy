/** When the key id reported for a replenishment was never used before, and when it falls back. */
module ReportedIds {
  import opened Prekeys
  import opened PrekeyRuns
  import opened Wrappers

  // ------------------------------------------------------------------ one deletion

  /** The deletion leaves the device a row with its largest key id, if it has any row. */
  ghost predicate LargestStays(rows: seq<Row>, d: Deletion, device: DeviceId) {
    MaxKey(rows, device).Some? ==>
      exists r :: r in rows && r.device == device && r.key == MaxKey(rows, device).value && !Hits(d, r)
  }

  /** The deletion leaves the device no positive key id. */
  ghost predicate NothingPositiveStays(rows: seq<Row>, d: Deletion, device: DeviceId) {
    forall r | r in rows && r.device == device && !Hits(d, r) :: r.key <= 0
  }

  lemma MaxKeyIsKeptExactly(rows: seq<Row>, d: Deletion, device: DeviceId)
    ensures MaxKey(Delete(rows, d), device) == MaxKey(rows, device) <==> LargestStays(rows, d, device)
    ensures MaxKey(Delete(rows, d), device).Some? ==>
      MaxKey(rows, device).Some? && MaxKey(Delete(rows, d), device).value <= MaxKey(rows, device).value
  {
    var kept := Delete(rows, d);
    MaxKeyIsLargest(rows, device);
    MaxKeyIsLargest(kept, device);
    forall r
      ensures r in kept <==> r in rows && !Hits(d, r)
    {
      DeleteKeeps(rows, d, r);
    }
  }

  lemma PositiveStaysExactly(rows: seq<Row>, d: Deletion, device: DeviceId)
    ensures NothingPositiveStays(rows, d, device)
       <==> MaxKey(Delete(rows, d), device).None? || MaxKey(Delete(rows, d), device).value <= 0
  {
    var kept := Delete(rows, d);
    MaxKeyIsLargest(kept, device);
    forall r
      ensures r in kept <==> r in rows && !Hits(d, r)
    {
      DeleteKeeps(rows, d, r);
    }
  }

  /**
   * A deletion keeps the reported id exactly when it leaves a row with the
   * largest key id, or when the id is 1 before and after: the largest is not
   * positive, or it is the largest 64-bit id and nothing positive stays.
   */
  lemma ReportedIdIsKeptExactly(rows: seq<Row>, d: Deletion, device: DeviceId)
    ensures NextKeyId(Delete(rows, d), device) == NextKeyId(rows, device) <==>
      || LargestStays(rows, d, device)
      || MaxKey(rows, device).value <= 0
      || (MaxKey(rows, device).value == MAX_KEY_ID && NothingPositiveStays(rows, d, device))
  {
    MaxKeyIsKeptExactly(rows, d, device);
    PositiveStaysExactly(rows, d, device);
  }

  // ------------------------------------------------------------------------ runs

  /** No row of the device that holds its largest key id is removed by the step unless another one holds it too. */
  ghost predicate KeepsLargest(s: Store, op: Op, device: DeviceId) {
    match op
    case Cleanup => LargestStays(s.rows, OldConsumed(s.now - KEPT), device)
    case RevokeDevice(other) => other in s.devices ==> LargestStays(s.rows, OfDevice(other), device)
    case _ => true
  }

  ghost predicate Steady(s: Store, ops: seq<Op>, device: DeviceId)
    decreases ops
  {
    && !Has(s.rows, device, MAX_KEY_ID)
    && (ops != [] ==> KeepsLargest(s, ops[0], device) && Steady(Step(s, ops[0]).0, ops[1..], device))
  }

  /** Where no id was dropped the reported one has not fallen. */
  lemma ReportedIdGrows(rows: seq<Row>, later: seq<Row>, device: DeviceId)
    requires !Has(later, device, MAX_KEY_ID)
    requires MaxKey(rows, device).Some? ==> Has(later, device, MaxKey(rows, device).value)
    ensures NextKeyId(rows, device) <= NextKeyId(later, device)
  {
    MaxKeyIsLargest(rows, device);
    MaxKeyIsLargest(later, device);
  }

  lemma InsertsKeepTaken(s: Store, device: DeviceId, keys: seq<KeyId>, d: DeviceId, k: KeyId)
    requires Has(s.rows, d, k)
    ensures Has(InsertAll(s, device, keys).rows, d, k)
  {
    RowsStay(s, device, keys);
  }

  lemma {:induction false} RowsStay(s: Store, device: DeviceId, keys: seq<KeyId>)
    ensures forall r | r in s.rows :: r in InsertAll(s, device, keys).rows
  {
    if keys != [] {
      RowsStay(s, device, keys[..|keys| - 1]);
    }
  }

  lemma ConsumeKeepsTaken(rows: seq<Row>, i: nat, now: int, device: DeviceId, k: KeyId)
    requires i < |rows| && Has(rows, device, k)
    ensures Has(Consume(rows, i, now), device, k)
  {
    var r :| r in rows && r.device == device && r.key == k;
    var j :| 0 <= j < |rows| && rows[j] == r;
    assert Consume(rows, i, now)[j] in Consume(rows, i, now);
  }

  lemma DeleteKeepsLargestTaken(rows: seq<Row>, d: Deletion, device: DeviceId)
    requires LargestStays(rows, d, device) && MaxKey(rows, device).Some?
    ensures Has(Delete(rows, d), device, MaxKey(rows, device).value)
  {
    var r :| r in rows && r.device == device && r.key == MaxKey(rows, device).value && !Hits(d, r);
    DeleteKeeps(rows, d, r);
  }

  lemma StepKeepsLargestTaken(s: Store, op: Op, device: DeviceId)
    requires KeepsLargest(s, op, device) && MaxKey(s.rows, device).Some?
    ensures Has(Step(s, op).0.rows, device, MaxKey(s.rows, device).value)
  {
    MaxKeyIsLargest(s.rows, device);
    var k := MaxKey(s.rows, device).value;
    match op
    case Register(other, keys) =>
      InsertOrFailInserts(s.(devices := s.devices + {other}), other, keys);
      InsertsKeepTaken(s.(devices := s.devices + {other}), other, keys, device, k);
    case Login(other, keys) => InsertsKeepTaken(s.(devices := s.devices + {other}), other, keys, device, k);
    case Upload(other, keys) => InsertsKeepTaken(s, other, keys, device, k);
    case Fetch(other, _) =>
      if Pick(s.rows, other).Some? {
        ConsumeKeepsTaken(s.rows, Pick(s.rows, other).value, s.now, device, k);
      }
    case Cleanup => DeleteKeepsLargestTaken(s.rows, OldConsumed(s.now - KEPT), device);
    case RevokeDevice(other) =>
      if other in s.devices {
        DeleteKeepsLargestTaken(s.rows, OfDevice(other), device);
      }
    case Tick(_) =>
  }

  lemma {:induction false} ReportedIdNeverFalls(s: Store, ops: seq<Op>, device: DeviceId)
    requires Steady(s, ops, device)
    ensures NextKeyId(s.rows, device) <= NextKeyId(Run(s, ops).rows, device)
    decreases ops
  {
    if ops != [] {
      var next := Step(s, ops[0]).0;
      if MaxKey(s.rows, device).Some? {
        StepKeepsLargestTaken(s, ops[0], device);
      }
      ReportedIdGrows(s.rows, next.rows, device);
      ReportedIdNeverFalls(next, ops[1..], device);
    }
  }

  /** Key `k` of the device was stored in some state of the run. */
  ghost predicate EverStored(s: Store, ops: seq<Op>, device: DeviceId, k: KeyId)
    decreases ops
  {
    Has(s.rows, device, k) || (ops != [] && EverStored(Step(s, ops[0]).0, ops[1..], device, k))
  }

  /**
   * As long as no cleanup or revocation removes the row with the largest key id
   * of a device, the id reported at the end of a run is above every id the device
   * ever had, also those consumed and cleaned up in between.
   */
  lemma {:induction false} ReportedIdIsNew(s: Store, ops: seq<Op>, device: DeviceId, k: KeyId)
    requires Steady(s, ops, device) && EverStored(s, ops, device, k)
    ensures k < NextKeyId(Run(s, ops).rows, device)
    decreases ops
  {
    if Has(s.rows, device, k) {
      ReportedIdIsAbove(s.rows, device);
      ReportedIdNeverFalls(s, ops, device);
    } else {
      ReportedIdIsNew(Step(s, ops[0]).0, ops[1..], device, k);
    }
  }

  /**
   * Rows, not key ids, are handed out once: a deletion that removes the row with
   * the largest id of a device makes an id not above it the next one, and the
   * first one again if nothing positive stays.
   */
  lemma CleanedIdIsReportedAgain(rows: seq<Row>, d: Deletion, device: DeviceId)
    requires MaxKey(rows, device).Some? && 0 < MaxKey(rows, device).value < MAX_KEY_ID
    requires !LargestStays(rows, d, device)
    ensures NextKeyId(rows, device) == MaxKey(rows, device).value + 1
    ensures NextKeyId(Delete(rows, d), device) <= MaxKey(rows, device).value
    ensures NextKeyId(Delete(rows, d), device) == 1 <==> NothingPositiveStays(rows, d, device)
  {
    MaxKeyIsKeptExactly(rows, d, device);
    PositiveStaysExactly(rows, d, device);
  }
}
