/** The string operations the server code uses. */
module Strings {

  /** The first position of `c`, or the length when it does not occur. */
  function IndexOf(s: string, c: char): (i: nat)
    ensures i <= |s|
    ensures c !in s[..i]
    ensures i < |s| ==> s[i] == c
  {
    if s == "" || s[0] == c then 0
    else
      var i := 1 + IndexOf(s[1..], c);
      assert s[..i] == [s[0]] + s[1..][..i - 1];
      i
  }

  predicate HasPrefix(s: string, prefix: string) {
    prefix <= s
  }

  predicate IsSpace(c: char) {
    c == ' ' || c == '\t' || c == '\n' || c == '\r'
  }

  function TrimLeft(s: string): (t: string)
    ensures t == "" || !IsSpace(t[0])
    ensures |t| <= |s|
  {
    if s != "" && IsSpace(s[0]) then TrimLeft(s[1..]) else s
  }

  function TrimRight(s: string): (t: string)
    ensures t == "" || !IsSpace(t[|t| - 1])
    ensures t <= s
  {
    if s != "" && IsSpace(s[|s| - 1]) then TrimRight(s[..|s| - 1]) else s
  }

  function TrimSpace(s: string): (t: string)
    ensures Trimmed(t)
  {
    TrimRight(TrimLeft(s))
  }

  predicate Trimmed(s: string) {
    s == "" || (!IsSpace(s[0]) && !IsSpace(s[|s| - 1]))
  }

  lemma TrimmedIsKept(s: string)
    requires Trimmed(s)
    ensures TrimSpace(s) == s
  {
  }

  /** What is trimmed is white space at the ends, and all of it. */
  lemma TrimSpaceIsMiddle(s: string) returns (i: nat, j: nat)
    ensures i <= j <= |s| && TrimSpace(s) == s[i..j]
    ensures forall k | 0 <= k < |s| && !(i <= k < j) :: s[k] in " \t\n\r"
    ensures i < j ==> s[i] !in " \t\n\r" && s[j - 1] !in " \t\n\r"
  {
    i := TrimLeftIsTail(s);
    j := i + |TrimSpace(s)|;
    TrimRightIsFront(s[i..]);
    assert s[i..][..|TrimSpace(s)|] == s[i..j];
    forall k | j <= k < |s|
      ensures s[k] in " \t\n\r"
    {
      assert IsSpace(s[i..][k - i]);
    }
  }

  lemma {:induction false} TrimLeftIsTail(s: string) returns (i: nat)
    ensures i <= |s| && TrimLeft(s) == s[i..] && forall k | 0 <= k < i :: IsSpace(s[k])
  {
    i := 0;
    if s != "" && IsSpace(s[0]) {
      i := TrimLeftIsTail(s[1..]);
      assert s[1..][i..] == s[i + 1..];
      forall k | 0 < k < i + 1
        ensures IsSpace(s[k])
      {
        assert s[k] == s[1..][k - 1];
      }
      i := i + 1;
    }
  }

  lemma {:induction false} TrimRightIsFront(s: string)
    ensures forall k | |TrimRight(s)| <= k < |s| :: IsSpace(s[k])
  {
    if s != "" && IsSpace(s[|s| - 1]) {
      TrimRightIsFront(s[..|s| - 1]);
      forall k | |TrimRight(s)| <= k < |s| - 1
        ensures IsSpace(s[k])
      {
        assert s[k] == s[..|s| - 1][k];
      }
    }
  }

  function LowerChar(c: char): char {
    if 'A' <= c <= 'Z' then (c as int + 32) as char else c
  }

  lemma LowerOfLetter(i: nat)
    requires i < 26
    ensures LowerChar("ABCDEFGHIJKLMNOPQRSTUVWXYZ"[i]) == "abcdefghijklmnopqrstuvwxyz"[i]
  {
  }

  function ToLower(s: string): (t: string)
    ensures |t| == |s| && forall i | 0 <= i < |s| :: t[i] == LowerChar(s[i])
  {
    seq(|s|, i requires 0 <= i < |s| => LowerChar(s[i]))
  }

  /** The text before the first `c`, or all of it. */
  function UpTo(s: string, c: char): (t: string)
    ensures c !in t && t <= s
  {
    s[..IndexOf(s, c)]
  }

  lemma {:induction false} IndexOfAppend(x: string, y: string, c: char)
    requires c !in x
    ensures IndexOf(x + y, c) == |x| + IndexOf(y, c)
  {
    if x == "" {
      assert x + y == y;
    } else {
      assert (x + y)[1..] == x[1..] + y;
      IndexOfAppend(x[1..], y, c);
    }
  }

  lemma {:induction false} Found(s: string, c: char)
    requires c in s
    ensures IndexOf(s, c) < |s|
  {
  }

  lemma NotFound(s: string, c: char)
    requires c !in s
    ensures IndexOf(s, c) == |s| && UpTo(s, c) == s && After(s, c) == ""
  {
  }

  /** The text after the first `c`, if there is one. */
  function After(s: string, c: char): string {
    if IndexOf(s, c) < |s| then s[IndexOf(s, c) + 1..] else ""
  }

  /** The text from the first `c` on. */
  function From(s: string, c: char): string {
    s[IndexOf(s, c)..]
  }

  lemma CutsOfAppend(x: string, y: string, c: char)
    requires c !in x
    ensures UpTo(x + y, c) == x + UpTo(y, c) && After(x + y, c) == After(y, c) && From(x + y, c) == From(y, c)
  {
    IndexOfAppend(x, y, c);
    var i := IndexOf(y, c);
    assert (x + y)[..|x| + i] == x + y[..i] && (x + y)[|x| + i..] == y[i..];
    if i < |y| {
      assert (x + y)[|x| + i + 1..] == y[i + 1..];
    }
  }

  /** Two texts joined by `c` agree exactly piece by piece when `c` is not in the first pieces. */
  lemma {:induction false} FirstSeparator(x: string, r: string, y: string, s: string, c: char)
    requires c !in x && c !in y
    ensures x + ([c] + r) == y + ([c] + s) <==> x == y && r == s
  {
    var p, q := x + ([c] + r), y + ([c] + s);
    assert p[0] == if x == "" then c else x[0];
    assert q[0] == if y == "" then c else y[0];
    if x == "" && y == "" {
      assert p[1..] == r && q[1..] == s;
    } else if x != "" && y != "" {
      FirstSeparator(x[1..], r, y[1..], s, c);
      assert p == [x[0]] + (x[1..] + ([c] + r)) && q == [y[0]] + (y[1..] + ([c] + s));
      assert p[1..] == x[1..] + ([c] + r) && q[1..] == y[1..] + ([c] + s);
      assert x == [x[0]] + x[1..] && y == [y[0]] + y[1..];
    }
  }

  /** The same when `c` is not in the last pieces. */
  lemma {:induction false} LastSeparator(r: string, d: string, s: string, e: string, c: char)
    requires c !in d && c !in e
    ensures r + [c] + d == s + [c] + e <==> r == s && d == e
    decreases d
  {
    var x, y := r + [c] + d, s + [c] + e;
    assert x[|x| - 1] == if d == "" then c else d[|d| - 1];
    assert y[|y| - 1] == if e == "" then c else e[|e| - 1];
    if d == "" && e == "" {
      assert x[..|x| - 1] == r && y[..|y| - 1] == s;
    } else if d != "" && e != "" {
      var f, g := d[..|d| - 1], e[..|e| - 1];
      LastSeparator(r, f, s, g, c);
      assert x == (r + [c] + f) + [d[|d| - 1]] && y == (s + [c] + g) + [e[|e| - 1]];
      assert x[..|x| - 1] == r + [c] + f && y[..|y| - 1] == s + [c] + g;
      assert d == f + [d[|d| - 1]] && e == g + [e[|e| - 1]];
    }
  }
}
