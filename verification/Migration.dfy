/**
 * Encrypting existing columns in place. Any call of the database or of the
 * random source may fail, so a run may stop after any update, and the end of a
 * result set may be a lost connection that goes unnoticed.
 */
module Migration {
  import opened Buffers
  import opened ColumnEncryption
  import opened Wrappers

  /** identity_key, signed_prekey and signed_prekey_sig. */
  datatype Device = Device(identityKey: Bytes, signedPrekey: Bytes, signature: Bytes)

  /** one_time_prekeys.prekey, access_tokens.token_hash, backup_salts.salt. */
  datatype Column = Prekeys | TokenHashes | Salts

  /** The tables by row; a password hash may be null, and a table may be missing. */
  datatype Tables = Tables(hashes: seq<Option<Bytes>>, devices: seq<Device>, columns: map<Column, seq<Bytes>>)

  type Faults = nat -> bool

  predicate Fails(faults: Faults, call: nat) {
    faults(call)
  }

  ghost predicate NoFault(faults: Faults, first: nat, end: nat) {
    forall k: nat | first <= k < end :: !Fails(faults, k)
  }

  type Draws = nat -> Nonce

  function Draw(draws: Draws, call: nat): Nonce {
    draws(call)
  }

  // -------------------------------------------------- what an update may do to a value

  /** The value stays, or a plaintext becomes an encrypted value that decrypts to it. */
  ghost predicate Moved(c: ColumnCipher, before: Bytes, after: Bytes) {
    || after == before
    || (!IsEncrypted(before) && IsEncrypted(after) && Decrypt(Some(c), after) == Some(before))
  }

  ghost predicate HashMoved(c: ColumnCipher, before: Option<Bytes>, after: Option<Bytes>) {
    || after == before
    || (Selected(before) && after.Some? && Moved(c, before.value, after.value))
  }

  ghost predicate DeviceMoved(c: ColumnCipher, before: Device, after: Device) {
    && Moved(c, before.identityKey, after.identityKey)
    && Moved(c, before.signedPrekey, after.signedPrekey)
    && Moved(c, before.signature, after.signature)
  }

  ghost predicate ColumnMoved(c: ColumnCipher, before: seq<Bytes>, after: seq<Bytes>) {
    |after| == |before| && forall i | 0 <= i < |before| :: Moved(c, before[i], after[i])
  }

  ghost predicate HashesMoved(c: ColumnCipher, before: seq<Option<Bytes>>, after: seq<Option<Bytes>>) {
    |after| == |before| && forall i | 0 <= i < |before| :: HashMoved(c, before[i], after[i])
  }

  ghost predicate DevicesMoved(c: ColumnCipher, before: seq<Device>, after: seq<Device>) {
    |after| == |before| && forall i | 0 <= i < |before| :: DeviceMoved(c, before[i], after[i])
  }

  ghost predicate TablesMoved(c: ColumnCipher, before: Tables, after: Tables) {
    && HashesMoved(c, before.hashes, after.hashes)
    && DevicesMoved(c, before.devices, after.devices)
    && ColumnsMoved(c, before.columns, after.columns)
  }

  ghost predicate ColumnsMoved(c: ColumnCipher, before: map<Column, seq<Bytes>>, after: map<Column, seq<Bytes>>) {
    && after.Keys == before.Keys
    && (Prekeys in before ==> ColumnMoved(c, before[Prekeys], after[Prekeys]))
    && (TokenHashes in before ==> ColumnMoved(c, before[TokenHashes], after[TokenHashes]))
    && (Salts in before ==> ColumnMoved(c, before[Salts], after[Salts]))
  }

  // ------------------------------------------------------------ nothing left to do

  /** WHERE password_hash IS NOT NULL AND length(password_hash) > 0. */
  predicate Selected(hash: Option<Bytes>) {
    hash.Some? && |hash.value| > 0
  }

  predicate HashDone(hash: Option<Bytes>) {
    hash.None? || hash.value == [] || IsEncrypted(hash.value)
  }

  predicate DeviceDone(d: Device) {
    IsEncrypted(d.identityKey) && IsEncrypted(d.signedPrekey) && IsEncrypted(d.signature)
  }

  ghost predicate ColumnDone(values: seq<Bytes>) {
    forall v | v in values :: IsEncrypted(v)
  }

  ghost predicate ColumnsDone(columns: map<Column, seq<Bytes>>) {
    && (Prekeys in columns ==> ColumnDone(columns[Prekeys]))
    && (TokenHashes in columns ==> ColumnDone(columns[TokenHashes]))
    && (Salts in columns ==> ColumnDone(columns[Salts]))
  }

  ghost predicate Done(t: Tables) {
    && (forall h | h in t.hashes :: HashDone(h))
    && (forall d | d in t.devices :: DeviceDone(d))
    && ColumnsDone(t.columns)
  }

  // ---------------------------------------------------------------------- database

  class Database {
    const faults: Faults
    const draws: Draws
    var hashes: seq<Option<Bytes>>
    var devices: seq<Device>
    var columns: map<Column, seq<Bytes>>
    /** Fallible calls made so far. */
    var calls: nat

    function State(): Tables
      reads this
    {
      Tables(hashes, devices, columns)
    }

    constructor (faults: Faults, draws: Draws, tables: Tables)
      ensures this.faults == faults && this.draws == draws && State() == tables && calls == 0
    {
      this.faults, this.draws := faults, draws;
      hashes, devices, columns := tables.hashes, tables.devices, tables.columns;
      calls := 0;
    }

    method Call() returns (ok: bool)
      modifies `calls
      ensures calls == old(calls) + 1 && ok == !Fails(faults, old(calls))
    {
      ok := !Fails(faults, calls);
      calls := calls + 1;
    }

    method EncryptValue(c: ColumnCipher, value: Bytes) returns (r: Option<Bytes>)
      requires !IsEncrypted(value)
      modifies `calls
      ensures calls == old(calls) + 1
      ensures r.None? <==> Fails(faults, old(calls))
      ensures r.Some? ==> IsEncrypted(r.value) && Moved(c, value, r.value)
      ensures r.Some? ==> r.value == MAGIC + Draw(draws, old(calls)) + c.box.seal(value, Draw(draws, old(calls)), c.key)
    {
      var nonce := Draw(draws, calls);
      var ok := Call();
      if !ok {
        return None;
      }
      DecryptsWhatWasEncrypted(Some(c), value, nonce);
      return Some(Encrypt(Some(c), value, nonce));
    }

    /** The value unchanged if it is encrypted already. */
    method EncryptIfNeeded(c: ColumnCipher, value: Bytes) returns (r: Option<Bytes>)
      modifies `calls
      ensures old(calls) <= calls
      ensures NoFault(faults, old(calls), calls) ==> r.Some?
      ensures r.Some? ==> IsEncrypted(r.value) && Moved(c, value, r.value)
    {
      if IsEncrypted(value) {
        return Some(value);
      }
      r := EncryptValue(c, value);
      if r.None? {
        assert Fails(faults, old(calls));
      }
    }

    /** One loop over a table of single values. */
    method EncryptColumn(c: ColumnCipher, t: Column) returns (ok: bool)
      requires t in columns
      modifies `columns, `calls
      ensures t in columns && columns == old(columns)[t := columns[t]] && old(calls) <= calls
      ensures ColumnMoved(c, old(columns)[t], columns[t])
      ensures NoFault(faults, old(calls), calls) ==> ok && ColumnDone(columns[t])
    {
      var rows := columns[t];
      for i := 0 to |rows|
        invariant t in columns && columns == old(columns)[t := columns[t]] && old(calls) <= calls
        invariant |columns[t]| == |rows| && columns[t][i..] == rows[i..]
        invariant ColumnMoved(c, rows, columns[t])
        invariant NoFault(faults, old(calls), calls) ==> ColumnDone(columns[t][..i])
      {
        label Row:
        var more := Call();
        if !more {
          assert Fails(faults, old@Row(calls));
          return true;
        }
        var scanned := Call();
        if !scanned {
          assert Fails(faults, old@Row(calls) + 1);
          return false;
        }
        if !IsEncrypted(rows[i]) {
          var encrypted := EncryptValue(c, rows[i]);
          if encrypted.None? {
            assert Fails(faults, old@Row(calls) + 2);
            return false;
          }
          var updated := Call();
          if !updated {
            assert Fails(faults, old@Row(calls) + 3);
            return false;
          }
          columns := columns[t := columns[t][i := encrypted.value]];
        }
        assert columns[t][i] == old@Row(columns[t])[i] || IsEncrypted(columns[t][i]);
        assert columns[t][..i + 1] == old@Row(columns[t])[..i] + [columns[t][i]];
      }
      assert columns[t][..|rows|] == columns[t];
      return true;
    }

    method EncryptHashes(c: ColumnCipher) returns (ok: bool)
      modifies `hashes, `calls
      ensures old(calls) <= calls && HashesMoved(c, old(hashes), hashes)
      ensures NoFault(faults, old(calls), calls) ==> ok && forall h | h in hashes :: HashDone(h)
    {
      var rows := hashes;
      for i := 0 to |rows|
        invariant old(calls) <= calls && |hashes| == |rows| && hashes[i..] == rows[i..]
        invariant HashesMoved(c, rows, hashes)
        invariant NoFault(faults, old(calls), calls) ==> forall h | h in hashes[..i] :: HashDone(h)
      {
        label Row:
        if Selected(rows[i]) {
          var more := Call();
          if !more {
            assert Fails(faults, old@Row(calls));
            return true;
          }
          var scanned := Call();
          if !scanned {
            assert Fails(faults, old@Row(calls) + 1);
            return false;
          }
          if !IsEncrypted(rows[i].value) {
            var encrypted := EncryptValue(c, rows[i].value);
            if encrypted.None? {
              assert Fails(faults, old@Row(calls) + 2);
              return false;
            }
            var updated := Call();
            if !updated {
              assert Fails(faults, old@Row(calls) + 3);
              return false;
            }
            hashes := hashes[i := encrypted];
          }
        }
        assert HashDone(hashes[i]);
        assert hashes[..i + 1] == old@Row(hashes)[..i] + [hashes[i]];
      }
      assert hashes[..|rows|] == hashes;
      return true;
    }

    /** The three columns of a row are encrypted where needed and stored by one update. */
    method EncryptDevice(c: ColumnCipher, d: Device) returns (r: Option<Device>)
      modifies `calls
      ensures old(calls) <= calls
      ensures NoFault(faults, old(calls), calls) ==> r.Some?
      ensures r.Some? ==> DeviceDone(r.value) && DeviceMoved(c, d, r.value)
    {
      var identityKey := EncryptIfNeeded(c, d.identityKey);
      if identityKey.None? {
        return None;
      }
      var signedPrekey := EncryptIfNeeded(c, d.signedPrekey);
      if signedPrekey.None? {
        return None;
      }
      var signature := EncryptIfNeeded(c, d.signature);
      if signature.None? {
        return None;
      }
      return Some(Device(identityKey.value, signedPrekey.value, signature.value));
    }

    method EncryptDevices(c: ColumnCipher) returns (ok: bool)
      modifies `devices, `calls
      ensures old(calls) <= calls && DevicesMoved(c, old(devices), devices)
      ensures NoFault(faults, old(calls), calls) ==> ok && forall d | d in devices :: DeviceDone(d)
    {
      var rows := devices;
      for i := 0 to |rows|
        invariant old(calls) <= calls && |devices| == |rows| && devices[i..] == rows[i..]
        invariant DevicesMoved(c, rows, devices)
        invariant NoFault(faults, old(calls), calls) ==> forall d | d in devices[..i] :: DeviceDone(d)
      {
        label Row:
        var more := Call();
        if !more {
          assert Fails(faults, old@Row(calls));
          return true;
        }
        var scanned := Call();
        if !scanned {
          assert Fails(faults, old@Row(calls) + 1);
          return false;
        }
        if !DeviceDone(rows[i]) {
          var encrypted := EncryptDevice(c, rows[i]);
          if encrypted.None? {
            return false;
          }
          var last := calls;
          var updated := Call();
          if !updated {
            assert Fails(faults, last);
            return false;
          }
          devices := devices[i := encrypted.value];
        }
        assert DeviceDone(devices[i]);
        assert devices[..i + 1] == old@Row(devices)[..i] + [devices[i]];
      }
      assert devices[..|rows|] == devices;
      return true;
    }

    method Query(t: Column) returns (ok: bool)
      modifies `calls
      ensures old(calls) <= calls
      ensures ok ==> t in columns
      ensures NoFault(faults, old(calls), calls) && t in columns ==> ok
    {
      ok := Call();
      if !ok {
        assert Fails(faults, old(calls));
      }
      ok := ok && t in columns;
    }

    method EncryptTwoTables(c: ColumnCipher) returns (ok: bool)
      modifies `hashes, `devices, `calls
      ensures old(calls) <= calls
      ensures HashesMoved(c, old(hashes), hashes) && DevicesMoved(c, old(devices), devices)
      ensures NoFault(faults, old(calls), calls) ==>
        && ok
        && (forall h | h in hashes :: HashDone(h))
        && forall d | d in devices :: DeviceDone(d)
    {
      ok := Call();
      if !ok {
        assert Fails(faults, old(calls));
        return;
      }
      ok := EncryptHashes(c);
      if !ok {
        return;
      }
      label Devices:
      ok := Call();
      if !ok {
        assert Fails(faults, old@Devices(calls));
        return;
      }
      ok := EncryptDevices(c);
    }

    /** The query for a table and the loop over its rows. */
    method EncryptTable(c: ColumnCipher, t: Column) returns (found: bool, ok: bool)
      modifies `columns, `calls
      ensures old(calls) <= calls && columns.Keys == old(columns.Keys)
      ensures forall u | u in columns && u != t :: columns[u] == old(columns)[u]
      ensures t in columns ==> ColumnMoved(c, old(columns)[t], columns[t])
      ensures found ==> t in columns
      ensures NoFault(faults, old(calls), calls) && t in columns ==> found && ok && ColumnDone(columns[t])
    {
      ok := false;
      found := Query(t);
      if found {
        ok := EncryptColumn(c, t);
      }
    }

    /** A missing or unreadable last table is not an error. */
    method EncryptThreeColumns(c: ColumnCipher) returns (ok: bool)
      modifies `columns, `calls
      ensures old(calls) <= calls && columns.Keys == old(columns.Keys)
      ensures ColumnsMoved(c, old(columns), columns)
      ensures NoFault(faults, old(calls), calls) && Prekeys in columns && TokenHashes in columns
        ==> ok && ColumnsDone(columns)
    {
      var found;
      found, ok := EncryptTable(c, Prekeys);
      if !ok {
        return;
      }
      found, ok := EncryptTable(c, TokenHashes);
      if !ok {
        return;
      }
      found, ok := EncryptTable(c, Salts);
      ok := ok || !found;
    }

    /**
     * However the run ends, every value has stayed or been encrypted to what it
     * was; a run in which no call fails leaves no plaintext and reports success.
     */
    method EncryptExisting(cipher: Option<ColumnCipher>) returns (ok: bool)
      modifies `hashes, `devices, `columns, `calls
      ensures old(calls) <= calls
      ensures cipher.None? ==> ok && State() == old(State())
      ensures cipher.Some? ==> TablesMoved(cipher.value, old(State()), State())
      ensures cipher.Some? && NoFault(faults, old(calls), calls) && Prekeys in columns && TokenHashes in columns
        ==> ok && Done(State())
    {
      if cipher.None? {
        return true;
      }
      ok := EncryptTwoTables(cipher.value);
      if ok {
        ok := EncryptThreeColumns(cipher.value);
      }
    }

    /** The start after an interrupted one: contents are kept by both, and finished if no call fails now. */
    method EncryptTwice(c: ColumnCipher) returns (between: Tables, callsBetween: nat, ok: bool)
      modifies `hashes, `devices, `columns, `calls
      ensures ContentsOf(c, State()) == ContentsOf(c, between) == ContentsOf(c, old(State()))
      ensures old(calls) <= callsBetween <= calls
      ensures NoFault(faults, callsBetween, calls) && Prekeys in columns && TokenHashes in columns ==> ok && Done(State())
      ensures NoFault(faults, old(calls), callsBetween) && Prekeys in columns && TokenHashes in columns
        ==> State() == between
    {
      ghost var first := State();
      var _ := EncryptExisting(Some(c));
      between, callsBetween := State(), calls;
      ok := EncryptExisting(Some(c));
      MovedKeepsContents(c, first, between);
      MovedKeepsContents(c, between, State());
      if NoFault(faults, old(calls), callsBetween) && Prekeys in columns && TokenHashes in columns {
        DoneIsFixed(c, between, State());
      }
    }
  }

  // -------------------------------------------------------------------- properties

  /** What every value decrypts to; None where decryption fails. */
  datatype Contents = Contents(
    hashes: seq<Option<Option<Bytes>>>, devices: seq<seq<Option<Bytes>>>, columns: map<Column, seq<Option<Bytes>>>)

  function HashContent(c: ColumnCipher, hash: Option<Bytes>): Option<Option<Bytes>> {
    if hash.None? then None else Some(Decrypt(Some(c), hash.value))
  }

  function DeviceContent(c: ColumnCipher, d: Device): seq<Option<Bytes>> {
    [Decrypt(Some(c), d.identityKey), Decrypt(Some(c), d.signedPrekey), Decrypt(Some(c), d.signature)]
  }

  function ColumnContents(c: ColumnCipher, values: seq<Bytes>): seq<Option<Bytes>> {
    seq(|values|, i requires 0 <= i < |values| => Decrypt(Some(c), values[i]))
  }

  function ContentsOf(c: ColumnCipher, t: Tables): Contents {
    Contents(
      seq(|t.hashes|, i requires 0 <= i < |t.hashes| => HashContent(c, t.hashes[i])),
      seq(|t.devices|, i requires 0 <= i < |t.devices| => DeviceContent(c, t.devices[i])),
      map k | k in t.columns :: ColumnContents(c, t.columns[k]))
  }

  lemma ColumnKeepsContents(c: ColumnCipher, before: seq<Bytes>, after: seq<Bytes>)
    requires ColumnMoved(c, before, after)
    ensures ColumnContents(c, after) == ColumnContents(c, before)
  {
  }

  /** A run that stops anywhere leaves what every column decrypts to. */
  lemma MovedKeepsContents(c: ColumnCipher, before: Tables, after: Tables)
    requires TablesMoved(c, before, after)
    ensures ContentsOf(c, after) == ContentsOf(c, before)
  {
    var x, y := ContentsOf(c, before), ContentsOf(c, after);
    forall i | 0 <= i < |before.hashes|
      ensures x.hashes[i] == y.hashes[i]
    {
      assert HashMoved(c, before.hashes[i], after.hashes[i]);
    }
    forall i | 0 <= i < |before.devices|
      ensures x.devices[i] == y.devices[i]
    {
      assert DeviceMoved(c, before.devices[i], after.devices[i]);
    }
    assert x.hashes == y.hashes && x.devices == y.devices;
    forall t | t in before.columns
      ensures x.columns[t] == y.columns[t]
    {
      ColumnOf(c, before.columns, after.columns, t);
      ColumnKeepsContents(c, before.columns[t], after.columns[t]);
    }
    assert x.columns == y.columns;
  }

  lemma ColumnOf(c: ColumnCipher, before: map<Column, seq<Bytes>>, after: map<Column, seq<Bytes>>, t: Column)
    requires ColumnsMoved(c, before, after) && t in before
    ensures ColumnMoved(c, before[t], after[t])
    ensures ColumnsDone(before) ==> ColumnDone(before[t])
  {
  }

  lemma DoneColumnIsFixed(c: ColumnCipher, before: map<Column, seq<Bytes>>, after: map<Column, seq<Bytes>>, t: Column)
    requires ColumnsMoved(c, before, after) && ColumnsDone(before) && t in before
    ensures after[t] == before[t]
  {
  }

  /** Once nothing is left to do, a further run changes no byte. */
  lemma DoneIsFixed(c: ColumnCipher, before: Tables, after: Tables)
    requires TablesMoved(c, before, after) && Done(before)
    ensures after == before
  {
    forall i | 0 <= i < |before.hashes|
      ensures after.hashes[i] == before.hashes[i]
    {
      assert before.hashes[i] in before.hashes && HashMoved(c, before.hashes[i], after.hashes[i]);
    }
    forall i | 0 <= i < |before.devices|
      ensures after.devices[i] == before.devices[i]
    {
      assert before.devices[i] in before.devices && DeviceMoved(c, before.devices[i], after.devices[i]);
    }
    forall t | t in before.columns
      ensures after.columns[t] == before.columns[t]
    {
      DoneColumnIsFixed(c, before.columns, after.columns, t);
    }
    assert after.columns == before.columns;
  }
}
