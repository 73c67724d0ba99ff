/** What each prekey operation answers, and all that it changes. */
module PrekeyAnswers {
  import opened Prekeys
  import opened PrekeyRuns
  import opened Wrappers

  // ------------------------------------------------------------------------ inserts

  /** A row of the list of inserts that met no taken id. */
  ghost predicate NewRowOf(s: Store, device: DeviceId, keys: seq<KeyId>, r: Row) {
    r.device == device && r.key in keys && r.consumed == None && !Has(s.rows, device, r.key) && r.id >= s.next
  }

  /** Inserts leave what is there in front and add a row for each id that was not taken, the first time it occurs. */
  lemma {:induction false} InsertsExactly(s: Store, device: DeviceId, keys: seq<KeyId>)
    ensures var t := InsertAll(s, device, keys);
            && s.rows <= t.rows && t.next - s.next == |t.rows| - |s.rows|
            && (forall r | r in t.rows[|s.rows|..] :: NewRowOf(s, device, keys, r))
            && (forall k | k in keys :: Has(t.rows, device, k))
  {
    if keys != [] {
      var front, last := keys[..|keys| - 1], keys[|keys| - 1];
      InsertsExactly(s, device, front);
      var u := InsertAll(s, device, front);
      assert keys == front + [last];
      LastInsert(s, u, device, front, last);
    }
  }

  lemma LastInsert(s: Store, u: Store, device: DeviceId, front: seq<KeyId>, last: KeyId)
    requires s.rows <= u.rows && u.next - s.next == |u.rows| - |s.rows|
    requires forall r | r in u.rows[|s.rows|..] :: NewRowOf(s, device, front, r)
    requires forall k | k in front :: Has(u.rows, device, k)
    ensures var t := Insert(u, device, last);
            && s.rows <= t.rows && t.next - s.next == |t.rows| - |s.rows|
            && (forall r | r in t.rows[|s.rows|..] :: NewRowOf(s, device, front + [last], r))
            && (forall k | k in front + [last] :: Has(t.rows, device, k))
  {
    var t := Insert(u, device, last);
    if !Has(u.rows, device, last) {
      var row := Row(u.next, device, last, None);
      assert t.rows == u.rows + [row] && row in t.rows;
      assert t.rows[|s.rows|..] == u.rows[|s.rows|..] + [row];
      assert forall r | r in s.rows :: r in u.rows;
      assert forall r | r in u.rows :: r in t.rows;
    }
  }

  // ----------------------------------------------------------------------- operations

  /** An upload is done exactly within the quota for an existing device; otherwise nothing changes. */
  lemma UploadExactly(s: Store, device: DeviceId, keys: seq<KeyId>)
    ensures var (t, answer) := Step(s, Upload(device, keys));
            if keys == [] then t == s && answer == Done
            else if Open(s.rows, device) + |keys| > 500 then t == s && answer == QuotaExceeded
            else if device !in s.devices then t == s && answer == Refused
            else t == InsertAll(s, device, keys) && answer == Done
  {
  }

  /** A registration is done exactly for a new device with at most 500 distinct ids, and otherwise undone. */
  lemma RegistrationExactly(s: Store, device: DeviceId, keys: seq<KeyId>)
    requires forall r | r in s.rows :: r.device in s.devices
    ensures var (t, answer) := Step(s, Register(device, keys));
            if device in s.devices then t == s && answer == Refused
            else if |keys| > 500 then t == s && answer == TooMany
            else if !AllDistinct(keys) then t == s && answer == Refused
            else t == InsertAll(s.(devices := s.devices + {device}), device, keys) && answer == Done
  {
    if device !in s.devices {
      StrictExactly(s.(devices := s.devices + {device}), device, keys);
    }
  }

  predicate AllDistinct(keys: seq<KeyId>) {
    keys == [] || (AllDistinct(keys[..|keys| - 1]) && keys[|keys| - 1] !in keys[..|keys| - 1])
  }

  lemma {:induction false} StrictExactly(s: Store, device: DeviceId, keys: seq<KeyId>)
    requires forall r | r in s.rows :: r.device != device
    ensures InsertOrFail(s, device, keys) == if AllDistinct(keys) then Some(InsertAll(s, device, keys)) else None
  {
    if keys != [] {
      var front, last := keys[..|keys| - 1], keys[|keys| - 1];
      StrictExactly(s, device, front);
      InsertsExactly(s, device, front);
      var u := InsertAll(s, device, front);
      assert u.rows == s.rows + u.rows[|s.rows|..];
    }
  }

  /** A login on a new device adds it even when its keys are too many, and passes over repeated ids. */
  lemma LoginExactly(s: Store, device: DeviceId, keys: seq<KeyId>)
    ensures var (t, answer) := Step(s, Login(device, keys));
            var added := s.(devices := s.devices + {device});
            if device in s.devices then t == s && answer == Done
            else if |keys| > 500 then t == added && answer == TooMany
            else t == InsertAll(added, device, keys) && answer == Done
  {
  }

  /** Row `i` is the open row of the device with the least key id. */
  ghost predicate IsNext(rows: seq<Row>, device: DeviceId, i: nat) {
    && i < |rows| && rows[i].device == device && rows[i].consumed == None
    && forall r | r in rows && r.device == device && r.consumed == None :: rows[i].key <= r.key
  }

  /** A bundle takes the next open row, marks it with the time, and names it if its key decrypts; nothing else changes. */
  lemma FetchExactly(s: Store, device: DeviceId, opens: bool)
    ensures var (t, answer) := Step(s, Fetch(device, opens));
            if device !in s.devices then t == s && answer == NotFound
            else if forall r | r in s.rows && r.device == device :: r.consumed.Some? then t == s && answer == Bundle(None)
            else exists i :: IsNext(s.rows, device, i) && Takes(s, t, answer, i, opens)
  {
    PickIsLeast(s.rows, device);
    var p := Pick(s.rows, device);
    if device in s.devices && p.Some? {
      assert s.rows[p.value] in s.rows;
      assert IsNext(s.rows, device, p.value) && Takes(s, Step(s, Fetch(device, opens)).0, Step(s, Fetch(device, opens)).1,
                                                      p.value, opens);
    }
  }

  ghost predicate Takes(s: Store, t: Store, answer: Answer, i: nat, opens: bool)
    requires i < |s.rows|
  {
    var r := s.rows[i];
    && t == s.(rows := s.rows[i := Row(r.id, r.device, r.key, Some(s.now))])
    && answer == if opens then Bundle(Some((r.id, r.key))) else BadPrekey
  }

  /** A cleanup deletes exactly the rows consumed more than thirty days ago. */
  lemma CleanupExactly(s: Store, r: Row)
    ensures var t := Step(s, Cleanup).0;
            && t.next == s.next && t.devices == s.devices && t.now == s.now
            && (r in t.rows <==>
                  r in s.rows && (r.consumed.Some? ==> r.consumed.value >= s.now - 30 * 24 * 60 * 60))
  {
    DeleteKeeps(s.rows, OldConsumed(s.now - KEPT), r);
  }

  /** A revoked device takes its rows with it, and no others. */
  lemma RevocationExactly(s: Store, device: DeviceId, r: Row)
    requires forall r | r in s.rows :: r.device in s.devices
    ensures var t := Step(s, RevokeDevice(device)).0;
            && t.next == s.next && t.devices == s.devices - {device} && t.now == s.now
            && (r in t.rows <==> r in s.rows && r.device != device)
  {
    DeleteKeeps(s.rows, OfDevice(device), r);
  }
}
