/** Comparing member lists by sorting both, as `memberSetEquals` does. */
module MemberLists {
  import opened Wrappers

  /** The order of the built-in sort on strings. */
  predicate AtMost(a: string, b: string) {
    a == "" || (b != "" && (a[0] < b[0] || (a[0] == b[0] && AtMost(a[1..], b[1..]))))
  }

  lemma {:induction false} AtMostTotal(a: string, b: string)
    ensures AtMost(a, b) || AtMost(b, a)
  {
    if a != "" && b != "" && a[0] == b[0] {
      AtMostTotal(a[1..], b[1..]);
    }
  }

  lemma {:induction false} AtMostAntisymmetric(a: string, b: string)
    requires AtMost(a, b) && AtMost(b, a)
    ensures a == b
  {
    if a != "" {
      AtMostAntisymmetric(a[1..], b[1..]);
      assert a == [a[0]] + a[1..] && b == [b[0]] + b[1..];
    }
  }

  lemma {:induction false} AtMostTransitive(a: string, b: string, c: string)
    requires AtMost(a, b) && AtMost(b, c)
    ensures AtMost(a, c)
  {
    if a != "" && a[0] == b[0] == c[0] {
      AtMostTransitive(a[1..], b[1..], c[1..]);
    }
  }

  ghost predicate Sorted(s: seq<string>) {
    s == [] || ((forall x | x in s[1..] :: AtMost(s[0], x)) && Sorted(s[1..]))
  }

  function InsertSorted(x: string, s: seq<string>): (r: seq<string>)
    ensures multiset(r) == multiset(s) + multiset{x}
  {
    if s == [] || AtMost(x, s[0]) then [x] + s
    else
      assert s == [s[0]] + s[1..];
      [s[0]] + InsertSorted(x, s[1..])
  }

  /** The sorted copy of a list. */
  function Sort(s: seq<string>): (r: seq<string>)
    ensures multiset(r) == multiset(s)
    ensures |r| == |s|
  {
    if s == [] then []
    else
      assert s == [s[0]] + s[1..];
      assert |multiset(InsertSorted(s[0], Sort(s[1..])))| == |multiset(s)|;
      InsertSorted(s[0], Sort(s[1..]))
  }

  lemma SameMembers(a: seq<string>, b: seq<string>, x: string)
    requires multiset(a) == multiset(b)
    ensures x in a <==> x in b
  {
    assert x in a <==> x in multiset(a);
    assert x in b <==> x in multiset(b);
  }

  lemma {:induction false} InsertSortedSorts(x: string, s: seq<string>)
    requires Sorted(s)
    ensures Sorted(InsertSorted(x, s))
  {
    if s != [] {
      if AtMost(x, s[0]) {
        forall y | y in s
          ensures AtMost(x, y)
        {
          if y != s[0] {
            assert y in s[1..];
            AtMostTransitive(x, s[0], y);
          }
        }
      } else {
        AtMostTotal(x, s[0]);
        InsertSortedSorts(x, s[1..]);
        forall y | y in InsertSorted(x, s[1..])
          ensures AtMost(s[0], y)
        {
          assert y in multiset(InsertSorted(x, s[1..]));
          assert y == x || y in multiset(s[1..]);
        }
      }
    }
  }

  lemma {:induction false} SortSorts(s: seq<string>)
    ensures Sorted(Sort(s))
  {
    if s != [] {
      SortSorts(s[1..]);
      InsertSortedSorts(s[0], Sort(s[1..]));
    }
  }

  lemma {:induction false} SortedIsUnique(a: seq<string>, b: seq<string>)
    requires Sorted(a) && Sorted(b) && multiset(a) == multiset(b)
    ensures a == b
  {
    SameLength(a, b);
    if a != [] {
      SameMembers(a, b, a[0]);
      SameMembers(a, b, b[0]);
      HeadIsLeast(a, b[0]);
      HeadIsLeast(b, a[0]);
      AtMostAntisymmetric(a[0], b[0]);
      WithoutHead(a);
      WithoutHead(b);
      SortedIsUnique(a[1..], b[1..]);
    }
  }

  lemma SameLength(a: seq<string>, b: seq<string>)
    requires multiset(a) == multiset(b)
    ensures |a| == |b|
  {
    assert |multiset(a)| == |a| && |multiset(b)| == |b|;
  }

  lemma WithoutHead(s: seq<string>)
    requires s != []
    ensures multiset(s[1..]) == multiset(s) - multiset{s[0]} && s == [s[0]] + s[1..]
  {
    assert s == [s[0]] + s[1..];
  }

  lemma HeadIsLeast(s: seq<string>, x: string)
    requires Sorted(s) && x in s
    ensures AtMost(s[0], x)
  {
    if x == s[0] {
      AtMostTotal(x, x);
    } else {
      assert x in s[1..];
    }
  }

  predicate MemberSetEquals(a: Option<seq<string>>, b: seq<string>) {
    a.Some? && |a.value| == |b| &&
    var sa, sb := Sort(a.value), Sort(b);
    forall i | 0 <= i < |sa| :: sa[i] == sb[i]
  }

  /** True exactly for a recorded list that is a permutation of the other one. */
  lemma MemberSetEqualsExactly(a: Option<seq<string>>, b: seq<string>)
    ensures MemberSetEquals(a, b) <==> a.Some? && multiset(a.value) == multiset(b)
  {
    if a.Some? {
      if multiset(a.value) == multiset(b) {
        SortSorts(a.value);
        SortSorts(b);
        SortedIsUnique(Sort(a.value), Sort(b));
        SameLength(a.value, b);
      }
      if MemberSetEquals(a, b) {
        assert Sort(a.value) == Sort(b);
      }
    }
  }
}
