/**
 * Signed requests between servers: the client signs a payload built from the
 * URL text, the verifier rebuilds it from what the HTTP library delivers.
 */
module RequestSigning {
  import opened Arithmetic
  import opened Decimal
  import opened Strings
  import opened Wrappers

  const WINDOW := 300
  const MAX_INT64 := 0x7FFF_FFFF_FFFF_FFFF
  const TWO_TO_64 := 0x1_0000_0000_0000_0000

  type Signature = seq<int>

  /** A server's key pair, with base64 for the header. */
  datatype Keys = Keys(
    sign: string -> Signature, verify: (string, Signature) -> bool,
    encode: Signature -> string, decode: string -> Option<Signature>)

  /** A signature verifies for the payload it was made for and for no other. */
  ghost predicate Ideal(k: Keys) {
    && (forall m, n {:trigger k.verify(n, k.sign(m))} :: k.verify(n, k.sign(m)) <==> n == m)
    && (forall s {:trigger k.encode(s)} :: k.encode(s) != "" && k.decode(k.encode(s)) == Some(s))
  }

  datatype Headers = Headers(origin: string, destination: string, timestamp: string, signature: string)

  datatype VerifyError = MissingHeaders | InvalidTimestamp | OutOfWindow | BadEncoding | InvalidSignature

  function Payload(origin: string, dest: string, ts: string, verb: string, path: string, bodyHash: string): string {
    origin + ("\n" + (dest + ("\n" + (ts + ("\n" + (verb + ("\n" + (path + "\n" + bodyHash))))))))
  }

  /** The hash in hexadecimal, or nothing for no body. */
  function BodyHash(hexHash: string -> string, body: string): string {
    if body == "" then "" else hexHash(body)
  }

  // ------------------------------------------------------------------------ client

  function Destination(url: string): string {
    if "https://" <= url then UpTo(url[8..], '/')
    else if "http://" <= url then UpTo(url[7..], '/')
    else ""
  }

  /** The position of the first "://", or the length when there is none. */
  function SchemeEnd(url: string): (i: nat)
    ensures i <= |url|
    ensures i < |url| ==> "://" <= url[i..]
  {
    if url == "" || "://" <= url then 0 else 1 + SchemeEnd(url[1..])
  }

  function SignedPath(url: string): string {
    var i := SchemeEnd(url);
    if i == |url| then "/"
    else
      var rest := url[i + 3..];
      var slash := IndexOf(rest, '/');
      if slash == |rest| then "/" else "/" + rest[slash + 1..]
  }

  /** strconv.FormatInt(v, 10). */
  function FormatInt(v: int): (s: string)
    ensures s != ""
  {
    if v < 0 then "-" + ToDecimal(-v) else ToDecimal(v)
  }

  function SignRequest(k: Keys, hexHash: string -> string, domain: string, now: int, verb: string, url: string,
                       body: string): Headers
  {
    var ts, dest := FormatInt(now), Destination(url);
    var payload := Payload(domain, dest, ts, verb, SignedPath(url), BodyHash(hexHash, body));
    Headers(domain, dest, ts, k.encode(k.sign(payload)))
  }

  // ---------------------------------------------------------------------- delivery

  predicate IsHex(c: char) {
    '0' <= c <= '9' || 'a' <= c <= 'f' || 'A' <= c <= 'F'
  }

  function HexValue(c: char): (v: nat)
    requires IsHex(c)
    ensures v < 16 && (c == "0123456789ABCDEF"[v] || c == "0123456789abcdef"[v])
  {
    if '0' <= c <= '9' then c as int - '0' as int
    else if 'a' <= c <= 'f' then c as int - 'a' as int + 10
    else c as int - 'A' as int + 10
  }

  lemma HexCharacters(c: char)
    ensures IsHex(c) <==> c in "0123456789abcdefABCDEF"
  {
  }

  /** Percent-decoding of a path; None for a broken escape. */
  function Unescape(s: string): Option<string> {
    if s == "" then Some("")
    else if s[0] == '%' then
      if |s| < 3 || !IsHex(s[1]) || !IsHex(s[2]) then None
      else
        var t := Unescape(s[3..]);
        if t.None? then None else Some([(16 * HexValue(s[1]) + HexValue(s[2])) as char] + t.value)
    else
      var t := Unescape(s[1..]);
      if t.None? then None else Some([s[0]] + t.value)
  }

  /** What the server's HTTP library makes of the URL: the decoded path and the raw query, without the fragment. */
  function Delivered(url: string): Option<(string, string)> {
    var i := SchemeEnd(url);
    if i == |url| then None
    else
      var rest := UpTo(url[i + 3..], '#');
      var path := From(UpTo(rest, '?'), '/');
      var decoded := Unescape(if path == "" then "/" else path);
      if decoded.None? then None else Some((decoded.value, After(rest, '?')))
  }

  // ---------------------------------------------------------------------- verifier

  function ServerPath(path: string, rawQuery: string): string {
    if rawQuery != "" then path + "?" + rawQuery else path
  }

  /** strconv.ParseInt(s, 10, 64). */
  function ParseInt(s: string): Option<int> {
    var negative := s != "" && s[0] == '-';
    var digits := if s != "" && (s[0] == '-' || s[0] == '+') then s[1..] else s;
    if digits == "" || !AllDigits(digits) then None
    else
      var magnitude: int := Value(digits);
      var v := if negative then -magnitude else magnitude;
      if -MAX_INT64 - 1 <= v <= MAX_INT64 then Some(v) else None
  }

  /** The 64-bit result of an addition or subtraction. */
  function Wrap(x: int): int {
    (x + MAX_INT64 + 1) % TWO_TO_64 - MAX_INT64 - 1
  }

  predicate InWindow(now: int, timestamp: int) {
    Wrap(now - timestamp) <= WINDOW && Wrap(timestamp - now) <= WINDOW
  }

  function VerifyRequest(k: Keys, hexHash: string -> string, now: int, h: Headers, verb: string,
                         path: string, rawQuery: string, body: string): Result<(), VerifyError>
  {
    if h.origin == "" || h.destination == "" || h.timestamp == "" || h.signature == "" then Failure(MissingHeaders)
    else
      var timestamp := ParseInt(h.timestamp);
      if timestamp.None? then Failure(InvalidTimestamp)
      else if !InWindow(now, timestamp.value) then Failure(OutOfWindow)
      else
        var payload := Payload(h.origin, h.destination, h.timestamp, verb, ServerPath(path, rawQuery),
                               BodyHash(hexHash, body));
        var sig := k.decode(h.signature);
        if sig.None? then Failure(BadEncoding)
        else if !k.verify(payload, sig.value) then Failure(InvalidSignature)
        else Success(())
  }

  // ---------------------------------------------------------------------- payloads

  predicate OneLine(s: string) {
    '\n' !in s
  }

  /**
   * Equal payloads mean equal origin, destination, time, method, path and body
   * hash. The path may hold newlines: the five other fields fix where it ends.
   */
  lemma PayloadIsInjective(o: string, d: string, t: string, v: string, p: string, b: string,
                           o': string, d': string, t': string, v': string, p': string, b': string)
    requires OneLine(o) && OneLine(d) && OneLine(t) && OneLine(v) && OneLine(b)
    requires OneLine(o') && OneLine(d') && OneLine(t') && OneLine(v') && OneLine(b')
    requires Payload(o, d, t, v, p, b) == Payload(o', d', t', v', p', b')
    ensures o == o' && d == d' && t == t' && v == v' && p == p' && b == b'
  {
    var x4, y4 := p + "\n" + b, p' + "\n" + b';
    var x3, y3 := v + ("\n" + x4), v' + ("\n" + y4);
    var x2, y2 := t + ("\n" + x3), t' + ("\n" + y3);
    var x1, y1 := d + ("\n" + x2), d' + ("\n" + y2);
    FirstSeparator(o, x1, o', y1, '\n');
    FirstSeparator(d, x2, d', y2, '\n');
    FirstSeparator(t, x3, t', y3, '\n');
    FirstSeparator(v, x4, v', y4, '\n');
    LastSeparator(p, b, p', b', '\n');
  }

  // -------------------------------------------------------- the path that was signed

  lemma {:induction false} UnescapeLength(s: string)
    ensures Unescape(s).Some? ==> |Unescape(s).value| <= |s|
    ensures Unescape(s).Some? && '%' in s ==> |Unescape(s).value| < |s|
    ensures '%' !in s ==> Unescape(s) == Some(s)
  {
    if s == "" {
    } else if s[0] == '%' {
      if |s| >= 3 {
        UnescapeLength(s[3..]);
      }
    } else {
      UnescapeLength(s[1..]);
      assert s == [s[0]] + s[1..];
    }
  }

  /** A URL whose host is followed by a path. */
  predicate PlainUrl(scheme: string, host: string, tail: string) {
    && scheme in {"http", "https"}
    && '/' !in host && '?' !in host && '#' !in host
    && tail != "" && tail[0] == '/'
  }

  function Url(scheme: string, host: string, tail: string): string {
    scheme + ("://" + (host + tail))
  }

  lemma RestOfUrl(scheme: string, host: string, tail: string)
    requires PlainUrl(scheme, host, tail)
    ensures var url := Url(scheme, host, tail);
            SchemeEnd(url) == |scheme| && |scheme| + 3 <= |url| && url[|scheme| + 3..] == host + tail
  {
    var mid := "://" + (host + tail);
    NoColonNoEnd(scheme, mid);
    assert mid[3..] == host + tail && (scheme + mid)[|scheme|..] == mid;
  }

  lemma HostEnds(host: string, tail: string)
    requires '/' !in host && tail != "" && tail[0] == '/'
    ensures IndexOf(host + tail, '/') == |host|
    ensures UpTo(host + tail, '/') == host
    ensures "/" + (host + tail)[|host| + 1..] == tail
  {
  }

  lemma SignedPathOfUrl(scheme: string, host: string, tail: string)
    requires PlainUrl(scheme, host, tail)
    ensures SignedPath(Url(scheme, host, tail)) == tail
  {
    RestOfUrl(scheme, host, tail);
    HostEnds(host, tail);
  }

  lemma DestinationOfText(rest: string)
    ensures Destination("https://" + rest) == UpTo(rest, '/') == Destination("http://" + rest)
  {
    assert ("https://" + rest)[8..] == rest;
    assert ("http://" + rest)[7..] == rest && ("http://" + rest)[4] == ':';
  }

  lemma DestinationOfUrl(scheme: string, host: string, tail: string)
    requires PlainUrl(scheme, host, tail)
    ensures Destination(Url(scheme, host, tail)) == host
  {
    var rest := host + tail;
    assert "https" + ("://" + rest) == "https://" + rest && "http" + ("://" + rest) == "http://" + rest;
    DestinationOfText(rest);
    HostEnds(host, tail);
  }

  lemma {:induction false} NoColonNoEnd(x: string, y: string)
    requires ':' !in x && "://" <= y
    ensures SchemeEnd(x + y) == |x|
  {
    if x == "" {
      assert x + y == y;
    } else {
      assert (x + y)[0] == x[0];
      assert (x + y)[1..] == x[1..] + y;
      NoColonNoEnd(x[1..], y);
    }
  }

  /** Checked on the text: no fragment, no escape in the path, no empty query. */
  predicate Clean(tail: string) {
    && '#' !in tail
    && '%' !in UpTo(tail, '?')
    && (tail == "" || IndexOf(tail, '?') != |tail| - 1)
  }

  function RebuiltPath(tail: string): Option<string> {
    var rest := UpTo(tail, '#');
    var decoded := Unescape(UpTo(rest, '?'));
    if decoded.None? then None else Some(ServerPath(decoded.value, After(rest, '?')))
  }

  lemma DeliveredPath(scheme: string, host: string, tail: string)
    requires PlainUrl(scheme, host, tail)
    ensures var d := Delivered(Url(scheme, host, tail));
            if d.None? then RebuiltPath(tail).None?
            else RebuiltPath(tail) == Some(ServerPath(d.value.0, d.value.1))
  {
    RestOfUrl(scheme, host, tail);
    var rest := UpTo(tail, '#');
    CutsOfAppend(host, tail, '#');
    CutsOfAppend(host, rest, '?');
    CutsOfAppend(host, UpTo(rest, '?'), '/');
    var path := UpTo(rest, '?');
    assert rest[0] == '/' && path[0] == '/';
    assert From(path, '/') == path;
  }

  lemma RebuiltExactly(tail: string)
    requires RebuiltPath(tail).Some?
    ensures RebuiltPath(tail).value == tail <==> Clean(tail)
  {
    var rest := UpTo(tail, '#');
    UnescapeLength(UpTo(rest, '?'));
    if '#' !in tail {
      NotFound(tail, '#');
      CutAgain(tail, '?');
    }
  }

  lemma CutAgain(s: string, c: char)
    ensures IndexOf(s, c) < |s| ==> s == UpTo(s, c) + [c] + After(s, c)
    ensures IndexOf(s, c) == |s| ==> s == UpTo(s, c) && After(s, c) == ""
  {
    var i := IndexOf(s, c);
    assert s[..i] + s[i..] == s;
    if i < |s| {
      assert s[i..] == [c] + s[i + 1..];
    }
  }

  /** The verifier rebuilds the payload's path exactly for clean URLs. */
  lemma PathSurvivesExactly(scheme: string, host: string, tail: string)
    requires PlainUrl(scheme, host, tail) && Delivered(Url(scheme, host, tail)).Some?
    ensures var d := Delivered(Url(scheme, host, tail)).value;
            ServerPath(d.0, d.1) == SignedPath(Url(scheme, host, tail)) <==> Clean(tail)
  {
    SignedPathOfUrl(scheme, host, tail);
    DeliveredPath(scheme, host, tail);
    RebuiltExactly(tail);
  }

  // ------------------------------------------------------------------- end to end

  /**
   * The window admits exactly the timestamps at most 300 seconds away, and the
   * one 2^63 seconds back, for which both differences wrap to the same value.
   */
  lemma WindowExactly(now: int, timestamp: int)
    requires 0 <= now <= MAX_INT64 - WINDOW - 1
    requires -MAX_INT64 - 1 <= timestamp <= MAX_INT64
    ensures InWindow(now, timestamp) <==> -300 <= now - timestamp <= 300 || now - timestamp == 0x8000_0000_0000_0000
  {
  }

  lemma ParseUnsigned(digits: string)
    requires digits != "" && AllDigits(digits) && Value(digits) <= MAX_INT64
    ensures ParseInt(digits) == Some(Value(digits))
  {
    assert IsDigit(digits[0]);
  }

  lemma ParseNegative(digits: string)
    requires digits != "" && AllDigits(digits) && Value(digits) <= MAX_INT64 + 1
    ensures ParseInt("-" + digits) == Some(-(Value(digits) as int))
  {
    assert ("-" + digits)[1..] == digits;
  }

  lemma ParsedTimestamp(v: int)
    requires -MAX_INT64 - 1 <= v <= MAX_INT64
    ensures ParseInt(FormatInt(v)) == Some(v)
  {
    if v < 0 {
      ValueOfDecimal(-v);
      ParseNegative(ToDecimal(-v));
    } else {
      ValueOfDecimal(v);
      ParseUnsigned(ToDecimal(v));
    }
  }

  /**
   * A request signed at one time and delivered is accepted at another exactly
   * when it names both servers, the time is in the window and the URL is clean.
   */
  lemma SignedRequestIsAcceptedExactly(k: Keys, hexHash: string -> string, domain: string, sent: int, now: int,
                                       verb: string, scheme: string, host: string, tail: string, body: string)
    requires Ideal(k)
    requires -MAX_INT64 - 1 <= sent <= MAX_INT64 && 0 <= now <= MAX_INT64 - WINDOW - 1
    requires PlainUrl(scheme, host, tail) && Delivered(Url(scheme, host, tail)).Some?
    ensures var url := Url(scheme, host, tail);
            var d := Delivered(url).value;
            VerifyRequest(k, hexHash, now, SignRequest(k, hexHash, domain, sent, verb, url, body), verb, d.0, d.1, body)
              == Success(())
            <==>
            && domain != "" && host != "" && Clean(tail)
            && (-300 <= now - sent <= 300 || now - sent == 0x8000_0000_0000_0000)
  {
    var url := Url(scheme, host, tail);
    var d := Delivered(url).value;
    var path := ServerPath(d.0, d.1);
    DestinationOfUrl(scheme, host, tail);
    PathSurvivesExactly(scheme, host, tail);
    ParsedTimestamp(sent);
    WindowExactly(now, sent);
    var ts, hash := FormatInt(sent), BodyHash(hexHash, body);
    SamePayloadExactly(domain, host, ts, verb, SignedPath(url), path, hash);
    var payload := Payload(domain, host, ts, verb, SignedPath(url), hash);
    assert k.decode(k.encode(k.sign(payload))) == Some(k.sign(payload));
  }

  lemma SamePayloadExactly(o: string, d: string, t: string, v: string, p: string, p': string, b: string)
    ensures Payload(o, d, t, v, p, b) == Payload(o, d, t, v, p', b) <==> p == p'
  {
    var x, y := Payload(o, d, t, v, p, b), Payload(o, d, t, v, p', b);
    var front := o + "\n" + d + "\n" + t + "\n" + v + "\n";
    assert x == front + p + ("\n" + b) && y == front + p' + ("\n" + b);
    assert x[|front|..|x| - |b| - 1] == p && y[|front|..|y| - |b| - 1] == p';
  }

  /** A signature made for one request is accepted only with the very same fields. */
  lemma SignatureBindsFields(k: Keys, hexHash: string -> string, now: int, verb: string, path: string, rawQuery: string,
                             body: string, h: Headers, o: string, d: string, t: string, v: string, p: string, b: string)
    requires Ideal(k)
    requires OneLine(o) && OneLine(d) && OneLine(t) && OneLine(v) && OneLine(b)
    requires OneLine(h.origin) && OneLine(h.destination) && OneLine(h.timestamp) && OneLine(verb)
    requires OneLine(BodyHash(hexHash, body))
    requires h.signature == k.encode(k.sign(Payload(o, d, t, v, p, b)))
    requires VerifyRequest(k, hexHash, now, h, verb, path, rawQuery, body) == Success(())
    ensures h.origin == o && h.destination == d && h.timestamp == t && verb == v
    ensures ServerPath(path, rawQuery) == p && BodyHash(hexHash, body) == b
  {
    var signed := Payload(o, d, t, v, p, b);
    var rebuilt := Payload(h.origin, h.destination, h.timestamp, verb, ServerPath(path, rawQuery),
                           BodyHash(hexHash, body));
    assert k.decode(k.encode(k.sign(signed))) == Some(k.sign(signed));
    PayloadIsInjective(h.origin, h.destination, h.timestamp, verb, ServerPath(path, rawQuery), BodyHash(hexHash, body),
                       o, d, t, v, p, b);
  }

  /** The text that is signed: six lines, with the host and what follows it in the URL. */
  lemma SignedTextExactly(k: Keys, hexHash: string -> string, domain: string, now: nat, verb: string,
                          scheme: string, host: string, tail: string, body: string)
    requires PlainUrl(scheme, host, tail)
    ensures var h := SignRequest(k, hexHash, domain, now, verb, Url(scheme, host, tail), body);
            && h.origin == domain && h.destination == host && h.timestamp == ToDecimal(now)
            && h.signature == k.encode(k.sign(
                 domain + "\n" + host + "\n" + ToDecimal(now) + "\n" + verb + "\n" + tail + "\n" +
                 if body == "" then "" else hexHash(body)))
  {
    SignedPathOfUrl(scheme, host, tail);
    DestinationOfUrl(scheme, host, tail);
    PayloadText(domain, host, ToDecimal(now), verb, tail, BodyHash(hexHash, body));
  }

  lemma PayloadText(o: string, d: string, t: string, v: string, p: string, b: string)
    ensures Payload(o, d, t, v, p, b) == o + "\n" + d + "\n" + t + "\n" + v + "\n" + p + "\n" + b
  {
    assert v + "\n" + p + "\n" + b == v + ("\n" + (p + "\n" + b));
    assert t + "\n" + v + "\n" + p + "\n" + b == t + ("\n" + (v + "\n" + p + "\n" + b));
    assert d + "\n" + t + "\n" + v + "\n" + p + "\n" + b == d + ("\n" + (t + "\n" + v + "\n" + p + "\n" + b));
  }

  /** A hash that gives non-empty single lines, different ones for these two texts. */
  predicate TellsApart(hexHash: string -> string, x: string, y: string) {
    && OneLine(hexHash(x)) && OneLine(hexHash(y)) && hexHash(x) != "" && hexHash(y) != ""
    && (hexHash(x) == hexHash(y) ==> x == y)
  }

  /**
   * With the signature of one request, a request is accepted only if all its
   * headers, its method, path, query and body are those that were signed.
   */
  lemma AcceptedIsWhatWasSigned(k: Keys, hexHash: string -> string, domain: string, sent: int, verb: string, url: string,
                                body: string, now: int, h: Headers, verb': string, path: string, rawQuery: string,
                                body': string)
    requires Ideal(k) && TellsApart(hexHash, body, body')
    requires OneLine(domain) && OneLine(Destination(url)) && OneLine(verb)
    requires OneLine(h.origin) && OneLine(h.destination) && OneLine(h.timestamp) && OneLine(verb')
    requires h.signature == SignRequest(k, hexHash, domain, sent, verb, url, body).signature
    requires VerifyRequest(k, hexHash, now, h, verb', path, rawQuery, body').Success?
    ensures h == SignRequest(k, hexHash, domain, sent, verb, url, body)
    ensures verb' == verb && body' == body
    ensures SignedPath(url) == if rawQuery == "" then path else path + "?" + rawQuery
  {
    TimestampIsOneLine(sent);
    SignatureBindsFields(k, hexHash, now, verb', path, rawQuery, body', h, domain, Destination(url), FormatInt(sent),
                         verb, SignedPath(url), BodyHash(hexHash, body));
  }

  lemma TimestampIsOneLine(v: int)
    ensures OneLine(FormatInt(v))
  {
    var digits := ToDecimal(if v < 0 then -v else v);
    forall i | 0 <= i < |digits|
      ensures digits[i] != '\n'
    {
      assert IsDigit(digits[i]);
    }
  }

  /** A time is read only from digits, perhaps signed, whose number fits in 64 bits. */
  lemma ParsesOnlyNumbers(s: string)
    requires ParseInt(s).Some?
    ensures var v := ParseInt(s).value;
            && -0x8000_0000_0000_0000 <= v < 0x8000_0000_0000_0000
            && exists digits | digits != "" && AllDigits(digits) ::
                 || (s in [digits, "+" + digits] && v == Value(digits))
                 || (s == "-" + digits && v == -(Value(digits) as int))
  {
    if s[0] == '-' || s[0] == '+' {
      assert s == [s[0]] + s[1..];
    }
  }

  /** Each way a request is refused, in the order of the checks. */
  lemma RefusedExactly(k: Keys, hexHash: string -> string, now: int, h: Headers, verb: string, path: string,
                       rawQuery: string, body: string)
    ensures var r := VerifyRequest(k, hexHash, now, h, verb, path, rawQuery, body);
            var named := "" !in {h.origin, h.destination, h.timestamp, h.signature};
            && (r == Failure(MissingHeaders) <==> !named)
            && (r == Failure(InvalidTimestamp) <==> named && ParseInt(h.timestamp).None?)
            && (r in {Failure(OutOfWindow), Failure(MissingHeaders), Failure(InvalidTimestamp)} <==>
                !named || ParseInt(h.timestamp).None? || !InWindow(now, ParseInt(h.timestamp).value))
            && (r == Failure(BadEncoding) ==> k.decode(h.signature).None?)
            && (r in {Failure(InvalidSignature), Success(())} ==> k.decode(h.signature).Some?)
  {
  }

  // ---------------------------------------------------------- names in the path

  /** What url.PathEscape leaves as it is. */
  predicate Unreserved(c: char) {
    'a' <= c <= 'z' || 'A' <= c <= 'Z' || '0' <= c <= '9' || c in "-_.~$&+:=@"
  }

  lemma LettersAreUnreserved(i: nat)
    requires i < 26
    ensures Unreserved("abcdefghijklmnopqrstuvwxyz"[i]) && Unreserved("ABCDEFGHIJKLMNOPQRSTUVWXYZ"[i])
    ensures i < 10 ==> Unreserved("0123456789"[i])
  {
  }

  lemma DelimitersAreEscaped(c: char)
    requires Unreserved(c)
    ensures c !in "/?#%;,!*'()<>[]{} " && ' ' < c <= '~'
  {
  }

  predicate AllUnreserved(s: string) {
    forall c | c in s :: Unreserved(c)
  }

  type ByteChar = c: char | c as int < 256 witness 'a'

  /** A Go string, one character for each byte. */
  type ByteString = seq<ByteChar>

  function HexDigit(v: nat): (c: char)
    requires v < 16
    ensures IsHex(c) && HexValue(c) == v && c == "0123456789ABCDEF"[v]
  {
    if v < 10 then ('0' as int + v) as char else ('A' as int + v - 10) as char
  }

  function PathEscape(s: ByteString): string {
    if s == "" then ""
    else if Unreserved(s[0]) then [s[0]] + PathEscape(s[1..])
    else ['%', HexDigit(s[0] as int / 16), HexDigit(s[0] as int % 16)] + PathEscape(s[1..])
  }

  lemma {:induction false} UnescapeEscaped(s: ByteString)
    ensures Unescape(PathEscape(s)) == Some(s)
  {
    if s != "" {
      UnescapeEscaped(s[1..]);
      assert s == [s[0]] + s[1..];
      var rest := PathEscape(s[1..]);
      if Unreserved(s[0]) {
        assert ([s[0]] + rest)[1..] == rest;
      } else {
        var front := ['%', HexDigit(s[0] as int / 16), HexDigit(s[0] as int % 16)];
        assert (front + rest)[3..] == rest;
      }
    }
  }

  /** A byte that must be escaped becomes a percent sign and its two hexadecimal digits, the high one first. */
  lemma EscapeOfByte(c: ByteChar, rest: ByteString)
    requires !Unreserved(c)
    ensures var digits := "0123456789ABCDEF";
            PathEscape([c] + rest) == ['%', digits[c as int / 16], digits[c as int % 16]] + PathEscape(rest)
  {
    assert ([c] + rest)[1..] == rest;
  }

  lemma {:induction false} EscapedCharacters(s: ByteString)
    ensures '#' !in PathEscape(s) && '?' !in PathEscape(s)
    ensures '%' !in PathEscape(s) <==> AllUnreserved(s)
  {
    if s != "" {
      EscapedCharacters(s[1..]);
      assert s == [s[0]] + s[1..];
      assert PathEscape(s)[0] == '%' || PathEscape(s)[0] == s[0];
    }
  }

  lemma {:induction false} UnescapeAppend(x: string, y: string)
    requires '%' !in x && Unescape(y).Some?
    ensures Unescape(x + y) == Some(x + Unescape(y).value)
  {
    if x == "" {
      assert x + y == y && x + Unescape(y).value == Unescape(y).value;
    } else {
      assert (x + y)[0] == x[0] && (x + y)[1..] == x[1..] + y;
      UnescapeAppend(x[1..], y);
      assert [x[0]] + (x[1..] + Unescape(y).value) == x + Unescape(y).value;
    }
  }

  /**
   * A path that ends in an escaped name, like those asking for a user's devices,
   * is delivered with the name itself, and verified exactly if the name needs no escape.
   */
  lemma NamedPathSurvivesExactly(scheme: string, host: string, front: string, name: ByteString)
    requires PlainUrl(scheme, host, front)
    requires '#' !in front && '?' !in front && '%' !in front
    ensures var url := Url(scheme, host, front + PathEscape(name));
            && Delivered(url) == Some((front + name, ""))
            && (ServerPath(front + name, "") == SignedPath(url) <==> AllUnreserved(name))
  {
    var tail := front + PathEscape(name);
    EscapedCharacters(name);
    UnescapeEscaped(name);
    UnescapeAppend(front, PathEscape(name));
    NotFound(tail, '#');
    NotFound(tail, '?');
    DeliveredPlain(scheme, host, tail);
    PathSurvivesExactly(scheme, host, tail);
  }

  lemma DeliveredPlain(scheme: string, host: string, tail: string)
    requires PlainUrl(scheme, host, tail) && '#' !in tail && '?' !in tail && Unescape(tail).Some?
    ensures Delivered(Url(scheme, host, tail)) == Some((Unescape(tail).value, ""))
  {
    RestOfUrl(scheme, host, tail);
    NotFound(host + tail, '#');
    NotFound(host + tail, '?');
    HostEnds(host, tail);
    assert From(host + tail, '/') == tail;
  }
}
