/** The prekey operations of the key directory and of sign-in, statement by statement. */
module KeyDirectory {
  import opened Prekeys
  import opened PrekeyRuns
  import opened Wrappers

  class PrekeyTable {
    var rows: seq<Row>
    var next: nat
    var devices: set<DeviceId>
    var now: int

    function State(): Store
      reads this
    {
      Store(rows, next, devices, now)
    }

    constructor (now: int)
      ensures State() == Store([], 0, {}, now) && Sound(State())
    {
      rows, next, devices, this.now := [], 0, {}, now;
    }

    method InsertRow(device: DeviceId, key: KeyId) returns (inserted: bool)
      modifies `rows, `next
      ensures State() == Insert(old(State()), device, key)
      ensures inserted == !Has(old(rows), device, key)
    {
      inserted := !Has(rows, device, key);
      if inserted {
        rows := rows + [Row(next, device, key, None)];
        next := next + 1;
      }
    }

    /** One insert for each key; a taken key is passed over. */
    method InsertEach(device: DeviceId, keys: seq<KeyId>)
      modifies `rows, `next
      ensures State() == InsertAll(old(State()), device, keys)
    {
      for i := 0 to |keys|
        invariant State() == InsertAll(old(State()), device, keys[..i])
      {
        assert keys[..i + 1][..i] == keys[..i];
        var _ := InsertRow(device, keys[i]);
      }
      assert keys[..|keys|] == keys;
    }

    /** One insert for each key; the first taken key aborts. */
    method InsertStrictly(device: DeviceId, keys: seq<KeyId>) returns (ok: bool)
      modifies `rows, `next
      ensures ok == InsertOrFail(old(State()), device, keys).Some?
      ensures ok ==> State() == InsertOrFail(old(State()), device, keys).value
    {
      for i := 0 to |keys|
        invariant InsertOrFail(old(State()), device, keys[..i]) == Some(State())
      {
        assert keys[..i + 1][..i] == keys[..i];
        var inserted := InsertRow(device, keys[i]);
        if !inserted {
          FailureStays(old(State()), device, keys, i + 1);
          return false;
        }
      }
      assert keys[..|keys|] == keys;
      return true;
    }

    /** The transaction of a registration: an aborted one leaves the tables as they were. */
    method RegisterDevice(device: DeviceId, keys: seq<KeyId>) returns (r: Answer)
      modifies this
      ensures (State(), r) == Step(old(State()), Register(device, keys))
    {
      if device in devices {
        return Refused;
      }
      var rowsBefore, nextBefore, devicesBefore := rows, next, devices;
      devices := devices + {device};
      if |keys| > QUOTA {
        devices := devicesBefore;
        return TooMany;
      }
      var ok := InsertStrictly(device, keys);
      if !ok {
        rows, next, devices := rowsBefore, nextBefore, devicesBefore;
        return Refused;
      }
      return Done;
    }

    /** Not a transaction: the device stays even when its keys are too many. */
    method LoginDevice(device: DeviceId, keys: seq<KeyId>) returns (r: Answer)
      modifies this
      ensures (State(), r) == Step(old(State()), Login(device, keys))
    {
      if device !in devices {
        devices := devices + {device};
        if |keys| > QUOTA {
          return TooMany;
        }
        InsertEach(device, keys);
      }
      return Done;
    }

    method UpdateKeys(device: DeviceId, keys: seq<KeyId>) returns (r: Answer)
      modifies this
      ensures (State(), r) == Step(old(State()), Upload(device, keys))
    {
      if |keys| > 0 {
        var unconsumed := Open(rows, device);
        if unconsumed + |keys| > QUOTA {
          return QuotaExceeded;
        }
        if device !in devices {
          return Refused;
        }
        InsertEach(device, keys);
      }
      return Done;
    }

    /** The update marks the row and returns it; `opens` is whether its key decrypts. */
    method GetBundle(device: DeviceId, opens: bool) returns (r: Answer)
      modifies this
      ensures (State(), r) == Step(old(State()), Fetch(device, opens))
    {
      if device !in devices {
        return NotFound;
      }
      var p := Pick(rows, device);
      if p.None? {
        return Bundle(None);
      }
      var row := rows[p.value];
      rows := Consume(rows, p.value, now);
      return if opens then Bundle(Some((row.id, row.key))) else BadPrekey;
    }

    method GetKeyStatus(device: DeviceId) returns (unconsumed: nat, nextKeyId: KeyId)
      ensures unconsumed == Open(rows, device)
      ensures nextKeyId == NextKeyId(rows, device)
      ensures !Has(rows, device, MAX_KEY_ID) ==> Below(rows, device, nextKeyId)
    {
      unconsumed := Open(rows, device);
      nextKeyId := NextKeyId(rows, device);
      if !Has(rows, device, MAX_KEY_ID) {
        ReportedIdIsAbove(rows, device);
      }
    }

    method CleanupOldConsumedPrekeys() returns (deleted: nat)
      modifies this
      ensures State() == Step(old(State()), Cleanup).0
      ensures deleted == |old(rows)| - |rows|
    {
      var kept := Delete(rows, OldConsumed(now - KEPT));
      deleted := |rows| - |kept|;
      rows := kept;
    }

    method DeleteDevice(device: DeviceId)
      modifies this
      ensures State() == Step(old(State()), RevokeDevice(device)).0
    {
      if device in devices {
        devices := devices - {device};
        rows := Delete(rows, OfDevice(device));
      }
    }
  }

  lemma {:induction false} FailureStays(s: Store, device: DeviceId, keys: seq<KeyId>, i: nat)
    requires i <= |keys| && InsertOrFail(s, device, keys[..i]).None?
    ensures InsertOrFail(s, device, keys).None?
    decreases |keys| - i
  {
    if i == |keys| {
      assert keys[..i] == keys;
    } else {
      assert keys[..i + 1][..i] == keys[..i];
      FailureStays(s, device, keys, i + 1);
    }
  }

  /**
   * The client's refresh: below the threshold it uploads a batch that starts at
   * the reported id. Returned are the entries it then stores, none if the
   * request fails; a body with an id beyond 64 bits does not decode.
   */
  method Replenish(table: PrekeyTable, device: DeviceId, pairs: seq<(string, string)>) returns (added: seq<Entry>)
    requires |pairs| == REPLENISH_COUNT
    modifies table
    ensures var before, start := old(table.State()), old(NextKeyId(table.rows, device));
            if Open(before.rows, device) >= REPLENISH_THRESHOLD || device !in before.devices
               || start + REPLENISH_COUNT - 1 > MAX_KEY_ID
            then added == [] && table.State() == before
            else
              var batch := Batch(REPLENISH_COUNT, start);
              && table.State() == InsertAll(before, device, batch)
              && |added| == REPLENISH_COUNT
              && (forall i | 0 <= i < REPLENISH_COUNT :: added[i] == Entry(batch[i], pairs[i].0, pairs[i].1))
              && (Open(table.rows, device) == Open(before.rows, device) + REPLENISH_COUNT
                  <==> forall k | k in batch :: !Has(before.rows, device, k))
              && (!Has(before.rows, device, MAX_KEY_ID) ==>
                    Open(table.rows, device) == Open(before.rows, device) + REPLENISH_COUNT)
  {
    added := [];
    var unconsumed, start := table.GetKeyStatus(device);
    if unconsumed < REPLENISH_THRESHOLD {
      var entries := GenerateOneTimePrekeys(pairs, start);
      if start + REPLENISH_COUNT - 1 <= MAX_KEY_ID {
        var keys := seq(|entries|, i requires 0 <= i < |entries| => entries[i].keyId);
        assert keys == Batch(REPLENISH_COUNT, start);
        ghost var before := table.State();
        AllAreInsertedExactly(before, device, keys);
        ReportedIdsAreFreeExactly(before.rows, device, REPLENISH_COUNT);
        var r := table.UpdateKeys(device, keys);
        if r.Done? {
          added := entries;
        }
      }
    }
  }
}
