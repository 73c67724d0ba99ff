/**
 * The safety number two users compare: both keys in a fixed order, hashed, and
 * the hash written as sixty decimal digits in groups of five.
 */
module SafetyNumber {
  import opened Buffers
  import opened Decimal

  const DIGITS := 60
  const GROUP := 5

  /** The order of byte strings of equal length. */
  predicate Precedes(a: Bytes, b: Bytes)
    requires |a| == |b|
  {
    a == [] || a[0] < b[0] || (a[0] == b[0] && Precedes(a[1..], b[1..]))
  }

  predicate GoesFirst(a: Bytes, b: Bytes) {
    if |a| != |b| then |a| < |b| else Precedes(a, b)
  }

  /** The bytes hashed for a pair of keys. */
  function HashInput(ours: Bytes, theirs: Bytes): Bytes {
    if GoesFirst(ours, theirs) then ours + theirs else theirs + ours
  }

  /** The number a hash stands for, big endian. */
  function BigEndian(bytes: Bytes): nat {
    if bytes == [] then 0 else BigEndian(bytes[..|bytes| - 1]) * 256 + bytes[|bytes| - 1] as int
  }

  /** Sixty digits with a space after every fifth but the last. */
  /** The first byte is the most significant one. */
  lemma {:induction false} BigEndianFirst(x: Byte, rest: Bytes)
    ensures BigEndian([x] + rest) == x as int * Power256(|rest|) + BigEndian(rest)
  {
    var all := [x] + rest;
    if rest == [] {
      assert all[..0] == [];
    } else {
      var front, last := rest[..|rest| - 1], rest[|rest| - 1];
      BigEndianFirst(x, front);
      assert all[..|all| - 1] == [x] + front && all[|all| - 1] == last;
      Shift(x as int, Power256(|front|), BigEndian(front));
    }
  }

  lemma Shift(x: nat, p: nat, r: nat)
    ensures (x * p + r) * 256 == x * (p * 256) + r * 256
  {
  }

  function Power256(k: nat): nat {
    if k == 0 then 1 else Power256(k - 1) * 256
  }

  function Spaced(digits: string): (s: string)
    requires |digits| == DIGITS
    ensures |s| == DIGITS + DIGITS / GROUP - 1
  {
    seq(71, i requires 0 <= i < 71 => if i % 6 == 5 then ' ' else digits[i - i / 6])
  }

  function SafetyNumber(sha256: Bytes -> Bytes, ours: Bytes, theirs: Bytes): string {
    Spaced(LastDigits(BigEndian(sha256(HashInput(ours, theirs))), DIGITS))
  }

  function Join(parts: seq<string>): string {
    if parts == [] then ""
    else if |parts| == 1 then parts[0]
    else Join(parts[..|parts| - 1]) + " " + parts[|parts| - 1]
  }

  method ComputeSafetyNumber(sha256: Bytes -> Bytes, ours: Bytes, theirs: Bytes) returns (r: string)
    ensures r == SafetyNumber(sha256, ours, theirs)
  {
    var a, b;
    if |ours| != |theirs| {
      a := if |ours| < |theirs| then ours else theirs;
      b := if |ours| < |theirs| then theirs else ours;
    } else {
      var cmp := Compare(ours, theirs);
      a := if cmp <= 0 then ours else theirs;
      b := if cmp <= 0 then theirs else ours;
    }
    var combined := Combine(a, b);
    var num := ToNumber(sha256(combined));
    var str := LastSixty(num);
    r := Grouped(str);
  }

  method Combine(a: Bytes, b: Bytes) returns (r: Bytes)
    ensures r == a + b
  {
    var combined := new Byte[|a| + |b|];
    SetBytes(combined, a, 0);
    SetBytes(combined, b, |a|);
    r := combined[..];
  }

  method LastSixty(num: nat) returns (str: string)
    ensures str == LastDigits(num, DIGITS)
  {
    PaddedDecimal(num, DIGITS);
    str := PadAndCut(ToDecimal(num), DIGITS);
  }

  /** The first difference of two byte strings, or 0. */
  method Compare(ours: Bytes, theirs: Bytes) returns (cmp: int)
    requires |ours| == |theirs|
    ensures cmp <= 0 <==> Precedes(ours, theirs)
  {
    cmp := 0;
    var i := 0;
    assert ours[0..] == ours && theirs[0..] == theirs;
    while i < |ours| && cmp == 0
      invariant i <= |ours|
      invariant if cmp == 0 then Precedes(ours, theirs) == Precedes(ours[i..], theirs[i..])
                else cmp <= 0 <==> Precedes(ours, theirs)
    {
      assert ours[i..][1..] == ours[i + 1..] && theirs[i..][1..] == theirs[i + 1..];
      cmp := ours[i] as int - theirs[i] as int;
      i := i + 1;
    }
  }

  method ToNumber(hash: Bytes) returns (num: nat)
    ensures num == BigEndian(hash)
  {
    num := 0;
    for i := 0 to |hash|
      invariant num == BigEndian(hash[..i])
    {
      assert hash[..i + 1][..i] == hash[..i];
      num := num * 256 + hash[i] as int;
    }
    assert hash[..|hash|] == hash;
  }

  method Grouped(digits: string) returns (r: string)
    requires |digits| == DIGITS
    ensures r == Spaced(digits)
  {
    var parts: seq<string> := [];
    var i := 0;
    while i < DIGITS
      invariant i == GROUP * |parts| <= DIGITS
      invariant parts != [] ==> Join(parts) == Spaced(digits)[..6 * |parts| - 1]
    {
      ghost var before := parts;
      parts := parts + [digits[i..i + GROUP]];
      assert parts[..|before|] == before;
      i := i + GROUP;
    }
    r := Join(parts);
    assert Spaced(digits)[..71] == Spaced(digits);
  }

  // ------------------------------------------------------------------- properties

  lemma {:induction false} PrecedesOneWay(a: Bytes, b: Bytes)
    requires |a| == |b|
    ensures Precedes(a, b) || Precedes(b, a)
    ensures Precedes(a, b) && Precedes(b, a) ==> a == b
  {
    if a != [] {
      PrecedesOneWay(a[1..], b[1..]);
      assert a == [a[0]] + a[1..] && b == [b[0]] + b[1..];
    }
  }

  /** Both sides compute the same number, whatever their keys. */
  lemma SameOnBothSides(sha256: Bytes -> Bytes, a: Bytes, b: Bytes)
    ensures SafetyNumber(sha256, a, b) == SafetyNumber(sha256, b, a)
  {
    if |a| == |b| {
      PrecedesOneWay(a, b);
    }
  }

  /** The digits are those of the hash value modulo 10^60. */
  lemma NumberOfHash(sha256: Bytes -> Bytes, a: Bytes, b: Bytes) returns (digits: string)
    ensures |digits| == DIGITS && AllDigits(digits)
    ensures Value(digits) == BigEndian(sha256(HashInput(a, b))) % Power10(DIGITS)
    ensures SafetyNumber(sha256, a, b) == Spaced(digits)
  {
    var num := BigEndian(sha256(HashInput(a, b)));
    digits := LastDigits(num, DIGITS);
    ValueOfLastDigits(num, DIGITS);
  }

  /** Group `g` of the twelve shows digits 5g to 5g + 4 and is set off by a space. */
  lemma SpacedGroup(digits: string, g: nat)
    requires |digits| == DIGITS && g < 12
    ensures Spaced(digits)[6 * g..6 * g + GROUP] == digits[GROUP * g..GROUP * (g + 1)]
    ensures g < 11 ==> Spaced(digits)[6 * g + GROUP] == ' '
  {
    var shown, group := Spaced(digits)[6 * g..6 * g + GROUP], digits[GROUP * g..GROUP * (g + 1)];
    forall k | 0 <= k < GROUP
      ensures shown[k] == group[k]
    {
      assert (6 * g + k) / 6 == g && (6 * g + k) % 6 == k;
    }
  }

  /** Keys of one length give the same bytes to the hash only as the same unordered pair. */
  lemma InputDeterminesPair(a: Bytes, b: Bytes, c: Bytes, d: Bytes)
    requires |a| == |b| == |c| == |d|
    ensures HashInput(a, b) == HashInput(c, d) <==> (a == c && b == d) || (a == d && b == c)
  {
    PrecedesOneWay(a, b);
    PrecedesOneWay(c, d);
    SplitEqual(a, b, c, d);
    SplitEqual(a, b, d, c);
    SplitEqual(b, a, c, d);
    SplitEqual(b, a, d, c);
  }

  /** The shorter key goes first; of two equally long ones, that with the smaller byte where they first differ. */
  lemma OrderOfKeys(a: Bytes, b: Bytes, k: nat)
    requires |a| < |b| || (|a| == |b| && k < |a| && a[..k] == b[..k] && a[k] < b[k])
    ensures HashInput(a, b) == a + b && HashInput(b, a) == a + b
  {
    if |a| == |b| {
      FirstDifference(a, b, k);
    }
  }

  lemma {:induction false} FirstDifference(a: Bytes, b: Bytes, k: nat)
    requires |a| == |b| && k < |a| && a[..k] == b[..k] && a[k] < b[k]
    ensures Precedes(a, b) && !Precedes(b, a)
    decreases k
  {
    if k > 0 {
      assert a[0] == a[..k][0] && b[0] == b[..k][0];
      assert a[1..][..k - 1] == a[..k][1..] && b[1..][..k - 1] == b[..k][1..];
      FirstDifference(a[1..], b[1..], k - 1);
    }
  }

  lemma SplitEqual(a: Bytes, b: Bytes, c: Bytes, d: Bytes)
    requires |a| == |c|
    ensures a + b == c + d <==> a == c && b == d
  {
    if a + b == c + d {
      assert (a + b)[..|a|] == a && (c + d)[..|a|] == c;
      assert (a + b)[|a|..] == b && (c + d)[|a|..] == d;
    }
  }
}
