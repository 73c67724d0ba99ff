/**
 * The resumable download: up to five attempts, each asking for the bytes after
 * those already received. The server is any function from attempt and offset to
 * what happens, so every pattern of failures is covered.
 */
module Download {
  import opened Buffers
  import opened Decimal
  import opened Strings
  import opened Wrappers

  const MAX_ATTEMPTS := 5

  /** What reading a body gives: the pieces read, then the end or an exception. */
  datatype Body = Body(pieces: seq<Bytes>, fails: bool)

  datatype Response = Response(status: int, body: Option<Body>, contentRange: Option<string>)

  datatype Attempt = NetworkError | Answered(response: Response)

  type Server = (nat, nat) -> Attempt

  datatype Outcome =
    | Finished(bytes: Bytes, total: Option<nat>)
    | LeftOver(bytes: Bytes)
    | Passed(response: Response)
    | Thrown
    | DownloadFailed

  predicate Ok(res: Response) {
    200 <= res.status <= 299
  }

  predicate Retryable(status: int) {
    status in {408, 429, 500, 502, 503, 504}
  }

  /** The number after the last slash of a Content-Range, if it is one. */
  function TotalOf(contentRange: Option<string>): Option<nat> {
    if contentRange.None? then None
    else
      var tail := AfterLastSlash(contentRange.value);
      if tail.Some? && TrimSpace(tail.value) != "" && AllDigits(TrimSpace(tail.value))
      then Some(Value(TrimSpace(tail.value))) else None
  }

  function AfterLastSlash(s: string): Option<string> {
    if s == "" then None
    else if s[|s| - 1] == '/' then Some("")
    else
      var t := AfterLastSlash(s[..|s| - 1]);
      if t.None? then None else Some(t.value + [s[|s| - 1]])
  }

  /** What the download ends with, from the given attempt on. */
  function From(server: Server, attempt: nat, chunks: seq<Bytes>): Outcome
    decreases MAX_ATTEMPTS + 1 - attempt
  {
    if attempt > MAX_ATTEMPTS then
      if chunks != [] then LeftOver(Flatten(chunks)) else DownloadFailed
    else
      var received := |Flatten(chunks)|;
      var a := server(attempt, received);
      if a.NetworkError? then
        if attempt == MAX_ATTEMPTS then Thrown else From(server, attempt + 1, chunks)
      else if !Ok(a.response) && (received == 0 || a.response.status != 206) then
        if !Retryable(a.response.status) || attempt == MAX_ATTEMPTS then Passed(a.response)
        else From(server, attempt + 1, chunks)
      else if a.response.body.None? then Passed(a.response)
      else
        var body, more := a.response.body.value, chunks + a.response.body.value.pieces;
        if body.fails then
          if attempt == MAX_ATTEMPTS then Thrown else From(server, attempt + 1, more)
        else
          var total := TotalOf(a.response.contentRange);
          if total.None? || |Flatten(more)| >= total.value then Finished(Flatten(more), total)
          else From(server, attempt + 1, more)
  }

  // -------------------------------------------------------------- attempt by attempt

  /** The pieces read before attempt `k`, whose offset is their length. */
  function Before(server: Server, k: nat): seq<Bytes>
    decreases k, 0
  {
    if k <= 1 then []
    else
      var a := Attempted(server, k - 1);
      if IsRead(a) then Before(server, k - 1) + a.response.body.value.pieces else Before(server, k - 1)
  }

  function Attempted(server: Server, k: nat): Attempt
    decreases k, 1
  {
    server(k, |Flatten(Before(server, k))|)
  }

  predicate IsRead(a: Attempt) {
    a.Answered? && 200 <= a.response.status <= 299 && a.response.body.Some?
  }

  /** A network error, or a body that breaks off. */
  predicate Raises(server: Server, k: nat) {
    var a := Attempted(server, k);
    a.NetworkError? || (IsRead(a) && a.response.body.value.fails)
  }

  predicate AsksAgain(server: Server, k: nat) {
    var a := Attempted(server, k);
    a.Answered? && a.response.status in {408, 429, 500, 502, 503, 504}
  }

  /** A body read to its end that is shorter than the total it names. */
  predicate FallsShort(server: Server, k: nat) {
    var a := Attempted(server, k);
    && IsRead(a) && !a.response.body.value.fails && TotalOf(a.response.contentRange).Some?
    && |Flatten(Before(server, k) + a.response.body.value.pieces)| < TotalOf(a.response.contentRange).value
  }

  /** Attempt `k` completes the file: all that came before is its front, and it names the right total or none. */
  ghost predicate Completes(server: Server, k: nat, file: Bytes) {
    var a := Attempted(server, k);
    && IsRead(a) && !a.response.body.value.fails
    && Flatten(Before(server, k) + a.response.body.value.pieces) == file
    && (TotalOf(a.response.contentRange).Some? ==> TotalOf(a.response.contentRange).value == |file|)
  }

  /** The download goes on to the next attempt. */
  predicate GoesOn(server: Server, j: nat) {
    (j < 5 && (Raises(server, j) || AsksAgain(server, j))) || FallsShort(server, j)
  }

  ghost predicate AllGoOn(server: Server, k: nat) {
    forall j: nat | 1 <= j < k :: GoesOn(server, j)
  }

  ghost predicate Succeeds(server: Server, k: nat, file: Bytes) {
    1 <= k <= 5 && AllGoOn(server, k) && Completes(server, k, file)
  }

  /** Attempt `k` was answered with something that is handed on as it is. */
  predicate HandsOn(server: Server, k: nat, res: Response) {
    && 1 <= k <= 5 && Attempted(server, k) == Answered(res)
    && if 200 <= res.status <= 299 then res.body.None?
       else k == 5 || res.status !in {408, 429, 500, 502, 503, 504}
  }

  /** How the download ends from attempt `k` on. */
  function EndFrom(server: Server, k: nat): Outcome {
    From(server, k, Before(server, k))
  }

  lemma OneAttempt(server: Server, k: nat)
    requires 1 <= k <= 5 && GoesOn(server, k)
    ensures EndFrom(server, k) == EndFrom(server, k + 1)
  {
  }

  lemma LastGoesOn(server: Server, k: nat)
    requires k >= 1 && AllGoOn(server, k + 1)
    ensures AllGoOn(server, k) && GoesOn(server, k)
  {
  }

  lemma {:induction false} ReachesAttempt(server: Server, k: nat)
    requires 1 <= k <= 6 && AllGoOn(server, k)
    ensures EndFrom(server, 1) == EndFrom(server, k)
  {
    if k > 1 {
      LastGoesOn(server, k - 1);
      ReachesAttempt(server, k - 1);
      OneAttempt(server, k - 1);
    }
  }

  lemma SuccessIsFinished(server: Server, k: nat, file: Bytes)
    requires Succeeds(server, k, file)
    ensures From(server, 1, []).Finished? && From(server, 1, []).bytes == file
  {
    ReachesAttempt(server, k);
  }

  /** Attempt `j` was read to its end and reached the total it names, if any. */
  predicate Ends(server: Server, j: nat, bytes: Bytes) {
    var a := Attempted(server, j);
    && 1 <= j <= 5 && IsRead(a) && !a.response.body.value.fails && !FallsShort(server, j)
    && bytes == Flatten(Before(server, j) + a.response.body.value.pieces)
  }

  /** The ways the download can end. */
  ghost predicate EndsWith(server: Server, o: Outcome) {
    match o
    case Finished(bytes, _) => exists j: nat :: Ends(server, j, bytes)
    case Passed(res) => exists j: nat :: HandsOn(server, j, res)
    case Thrown => Raises(server, 5)
    case LeftOver(bytes) => FallsShort(server, 5) && bytes == Flatten(Before(server, 6))
    case DownloadFailed => FallsShort(server, 5) && Before(server, 6) == []
  }

  lemma {:induction false} EndsOnlySo(server: Server, k: nat, o: Outcome)
    requires 1 <= k <= 6 && AllGoOn(server, k) && o == From(server, k, Before(server, k))
    ensures EndsWith(server, o)
    decreases 6 - k
  {
    if k == 6 {
      RunsOut(server);
    } else if GoesOn(server, k) {
      OneAttempt(server, k);
      OneMoreGoesOn(server, k);
      EndsOnlySo(server, k + 1, o);
    } else {
      StopsAt(server, k);
    }
  }

  lemma OneMoreGoesOn(server: Server, k: nat)
    requires k >= 1 && AllGoOn(server, k) && GoesOn(server, k)
    ensures AllGoOn(server, k + 1)
  {
  }

  lemma RunsOut(server: Server)
    requires AllGoOn(server, 6)
    ensures EndsWith(server, From(server, 6, Before(server, 6)))
  {
    assert GoesOn(server, 5);
  }

  lemma StopsAt(server: Server, k: nat)
    requires 1 <= k <= 5 && !GoesOn(server, k)
    ensures EndsWith(server, From(server, k, Before(server, k)))
  {
    var a := Attempted(server, k);
    if Raises(server, k) {
      assert k == 5;
    } else if IsRead(a) {
      assert Ends(server, k, Flatten(Before(server, k) + a.response.body.value.pieces));
    } else {
      assert HandsOn(server, k, a.response);
    }
  }

  lemma HowItEnds(server: Server)
    ensures EndsWith(server, From(server, 1, []))
    ensures forall k, file :: Succeeds(server, k, file) ==>
              From(server, 1, []).Finished? && From(server, 1, []).bytes == file
  {
    EndsOnlySo(server, 1, From(server, 1, []));
    forall k, file | Succeeds(server, k, file)
      ensures From(server, 1, []).Finished? && From(server, 1, []).bytes == file
    {
      SuccessIsFinished(server, k, file);
    }
  }

  method DownloadFile(server: Server) returns (r: Outcome)
    ensures r == From(server, 1, [])
    ensures forall k, file :: Succeeds(server, k, file) ==> r.Finished? && r.bytes == file
    ensures EndsWith(server, r)
  {
    HowItEnds(server);
    r := TryAttempts(server);
  }

  /** The loop over the attempts. */
  method TryAttempts(server: Server) returns (r: Outcome)
    ensures r == From(server, 1, [])
  {
    var received := 0;
    var chunks: seq<Bytes> := [];
    var attempt := 1;
    while attempt <= MAX_ATTEMPTS
      invariant 1 <= attempt
      invariant received == |Flatten(chunks)|
      invariant From(server, 1, []) == From(server, attempt, chunks)
      decreases MAX_ATTEMPTS + 1 - attempt
    {
      var a := server(attempt, received);
      if a.NetworkError? {
        if attempt == MAX_ATTEMPTS {
          return Thrown;
        }
      } else {
        var res := a.response;
        if !Ok(res) && (received == 0 || res.status != 206) {
          if !Retryable(res.status) || attempt == MAX_ATTEMPTS {
            return Passed(res);
          }
        } else {
          if res.body.None? {
            return Passed(res);
          }
          var body := res.body.value;
          chunks, received := ReadBody(body.pieces, chunks, received);
          if body.fails {
            if attempt == MAX_ATTEMPTS {
              return Thrown;
            }
          } else {
            var parsed := TotalOf(res.contentRange);
            var total := if parsed.Some? then parsed.value else received;
            if received >= total {
              var blob := Concatenate(chunks);
              return Finished(blob, parsed);
            }
          }
        }
      }
      attempt := attempt + 1;
    }
    if |chunks| > 0 {
      var blob := Concatenate(chunks);
      return LeftOver(blob);
    }
    return DownloadFailed;
  }

  /** Pushes every piece and counts its bytes. */
  method ReadBody(pieces: seq<Bytes>, before: seq<Bytes>, receivedBefore: nat) returns (chunks: seq<Bytes>, received: nat)
    requires receivedBefore == |Flatten(before)|
    ensures chunks == before + pieces && received == |Flatten(chunks)|
  {
    chunks, received := before, receivedBefore;
    for k := 0 to |pieces|
      invariant chunks == before + pieces[..k] && received == |Flatten(chunks)|
    {
      FlattenPush(chunks, pieces[k]);
      chunks := chunks + [pieces[k]];
      received := received + |pieces[k]|;
    }
  }

  // ------------------------------------------------------------------- properties

  /** An answer to offset `r` with bytes of the file from `r` on, and a total that is the length of the file. */
  ghost predicate HonestAnswer(file: Bytes, r: nat, res: Response) {
    && (Ok(res) && res.body.Some? && r <= |file| ==> Flatten(res.body.value.pieces) <= file[r..])
    && (Ok(res) && TotalOf(res.contentRange).Some? ==> TotalOf(res.contentRange).value == |file|)
  }

  ghost predicate Honest(server: Server, file: Bytes) {
    forall k: nat, r: nat :: server(k, r).Answered? ==> HonestAnswer(file, r, server(k, r).response)
  }

  /** Moreover a body that ends without an exception is complete. */
  ghost predicate Framed(server: Server, file: Bytes) {
    forall k: nat, r: nat :: server(k, r).Answered? && Ok(server(k, r).response) && server(k, r).response.body.Some?
                   && !server(k, r).response.body.value.fails && r <= |file|
      ==> Flatten(server(k, r).response.body.value.pieces) == file[r..]
  }

  lemma PrefixExtends(file: Bytes, chunks: seq<Bytes>, pieces: seq<Bytes>)
    requires Flatten(chunks) <= file && Flatten(pieces) <= file[|Flatten(chunks)|..]
    ensures Flatten(chunks + pieces) <= file
    ensures Flatten(pieces) == file[|Flatten(chunks)|..] ==> Flatten(chunks + pieces) == file
  {
    FlattenAppend(chunks, pieces);
    var r := |Flatten(chunks)|;
    assert file == file[..r] + file[r..];
  }

  /** What the download has collected is always the front of the file. */
  ghost predicate FrontOf(file: Bytes, o: Outcome) {
    && (o.Finished? ==> o.bytes <= file && (o.total.Some? ==> o.bytes == file))
    && (o.LeftOver? ==> o.bytes <= file)
  }

  /**
   * After any failures and resumptions the bytes handed out are the front of
   * the file, and the whole file when the last answer named its total.
   */
  lemma {:induction false} CollectsTheFront(server: Server, file: Bytes, attempt: nat, chunks: seq<Bytes>)
    requires Honest(server, file) && Flatten(chunks) <= file
    ensures FrontOf(file, From(server, attempt, chunks))
    decreases MAX_ATTEMPTS + 1 - attempt
  {
    if attempt <= MAX_ATTEMPTS {
      var received := |Flatten(chunks)|;
      var a := server(attempt, received);
      if a.NetworkError? || !Ok(a.response) {
        CollectsTheFront(server, file, attempt + 1, chunks);
      } else if a.response.body.Some? {
        var pieces := a.response.body.value.pieces;
        assert HonestAnswer(file, received, a.response);
        PrefixExtends(file, chunks, pieces);
        CollectsTheFront(server, file, attempt + 1, chunks + pieces);
      }
    }
  }

  /** If the network reports every cut body as an exception, whatever is handed out is the whole file. */
  lemma {:induction false} HandsOutWholeFile(server: Server, file: Bytes, attempt: nat, chunks: seq<Bytes>)
    requires Honest(server, file) && Framed(server, file) && Flatten(chunks) <= file
    requires attempt > MAX_ATTEMPTS ==> chunks == []
    ensures var o := From(server, attempt, chunks);
            (o.Finished? ==> o.bytes == file) && !o.LeftOver?
    decreases MAX_ATTEMPTS + 1 - attempt
  {
    if attempt <= MAX_ATTEMPTS {
      var received := |Flatten(chunks)|;
      var a := server(attempt, received);
      if a.NetworkError? || !Ok(a.response) {
        if attempt < MAX_ATTEMPTS {
          HandsOutWholeFile(server, file, attempt + 1, chunks);
        }
      } else if a.response.body.Some? {
        var pieces := a.response.body.value.pieces;
        assert HonestAnswer(file, received, a.response);
        PrefixExtends(file, chunks, pieces);
        if attempt < MAX_ATTEMPTS {
          HandsOutWholeFile(server, file, attempt + 1, chunks + pieces);
        }
      }
    }
  }

  lemma DigitsAreTrimmed(digits: string)
    requires digits != "" && AllDigits(digits)
    ensures TrimSpace(digits) == digits
  {
    assert IsDigit(digits[0]) && IsDigit(digits[|digits| - 1]);
    TrimmedIsKept(digits);
  }

  lemma TotalAfterSlash(front: string, digits: string)
    requires digits != "" && AllDigits(digits)
    ensures TotalOf(Some(front + "/" + digits)) == Some(Value(digits))
  {
    SlashBeforeDigits(front, digits);
    DigitsAreTrimmed(digits);
  }

  /** The Content-Range a server sends for `first`-`last` of `total` bytes gives the total back. */
  lemma TotalOfContentRange(first: nat, last: nat, total: nat)
    ensures TotalOf(Some("bytes " + ToDecimal(first) + "-" + ToDecimal(last) + "/" + ToDecimal(total))) == Some(total)
  {
    TotalAfterSlash("bytes " + ToDecimal(first) + "-" + ToDecimal(last), ToDecimal(total));
    ValueOfDecimal(total);
  }

  lemma {:induction false} SlashBeforeDigits(front: string, digits: string)
    requires AllDigits(digits)
    ensures AfterLastSlash(front + "/" + digits) == Some(digits)
  {
    var s := front + "/" + digits;
    if digits == "" {
      assert s[|s| - 1] == '/';
    } else {
      assert s[|s| - 1] == digits[|digits| - 1];
      SlashBeforeDigits(front, digits[..|digits| - 1]);
      assert s[..|s| - 1] == front + "/" + digits[..|digits| - 1];
      assert digits == digits[..|digits| - 1] + [digits[|digits| - 1]];
    }
  }
}
