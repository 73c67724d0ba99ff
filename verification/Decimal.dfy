/** Decimal notation of natural numbers. */
module Decimal {
  import opened Arithmetic

  function Digit(d: nat): (c: char)
    requires d < 10
    ensures '0' <= c <= '9'
  {
    ('0' as int + d) as char
  }

  predicate IsDigit(c: char) {
    '0' <= c <= '9'
  }

  function DigitValue(c: char): (d: nat)
    requires IsDigit(c)
    ensures d < 10 && Digit(d) == c
  {
    c as int - '0' as int
  }

  lemma DigitsInOrder(d: nat)
    requires d < 10
    ensures Digit(d) == "0123456789"[d]
  {
  }

  predicate AllDigits(s: string) {
    forall i | 0 <= i < |s| :: IsDigit(s[i])
  }

  /** The number a string of digits stands for. */
  function Value(s: string): nat
    requires AllDigits(s)
  {
    if s == "" then 0 else Value(s[..|s| - 1]) * 10 + DigitValue(s[|s| - 1])
  }

  /** The notation without leading zeros. */
  function ToDecimal(n: nat): (s: string)
    ensures s != "" && AllDigits(s)
  {
    if n < 10 then [Digit(n)] else ToDecimal(n / 10) + [Digit(n % 10)]
  }

  lemma {:induction false} ValueOfDecimal(n: nat)
    ensures Value(ToDecimal(n)) == n
  {
    if n >= 10 {
      ValueOfDecimal(n / 10);
      assert ToDecimal(n)[..|ToDecimal(n)| - 1] == ToDecimal(n / 10);
    } else {
      assert [Digit(n)][..0] == "";
    }
  }

  lemma DecimalInjective(m: nat, n: nat)
    requires ToDecimal(m) == ToDecimal(n)
    ensures m == n
  {
    ValueOfDecimal(m);
    ValueOfDecimal(n);
  }

  function Power10(k: nat): (p: nat)
    ensures p > 0
  {
    if k == 0 then 1 else 10 * Power10(k - 1)
  }

  /** The most significant digit stands first. */
  lemma {:induction false} ValueOfFirstDigit(c: char, s: string)
    requires IsDigit(c) && AllDigits(s)
    ensures AllDigits([c] + s)
    ensures Value([c] + s) == DigitValue(c) * Power10(|s|) + Value(s)
  {
    if s == "" {
      assert [c] + s == [c] && [c][..0] == "";
    } else {
      var front := s[..|s| - 1];
      ValueOfFirstDigit(c, front);
      assert ([c] + s)[..|s|] == [c] + front;
      TenTimes(DigitValue(c), Power10(|front|));
    }
  }

  lemma TenTimes(d: nat, p: nat)
    ensures d * p * 10 == d * (10 * p)
  {
  }

  /** The last `k` digits of `n`, with leading zeros. */
  function LastDigits(n: nat, k: nat): (s: string)
    ensures |s| == k && AllDigits(s)
  {
    if k == 0 then "" else LastDigits(n / 10, k - 1) + [Digit(n % 10)]
  }

  /** They are the digits of the remainder by 10^k. */
  lemma {:induction false} ValueOfLastDigits(n: nat, k: nat)
    ensures Value(LastDigits(n, k)) == n % Power10(k)
  {
    if k > 0 {
      ValueOfLastDigits(n / 10, k - 1);
      assert LastDigits(n, k)[..k - 1] == LastDigits(n / 10, k - 1);
      RemainderByTen(n, Power10(k - 1));
    }
  }

  lemma RemainderByTen(n: nat, p: nat)
    requires p > 0
    ensures n / 10 % p * 10 + n % 10 == n % (10 * p)
  {
    var q, r := n / 10 / p, n / 10 % p;
    assert n / 10 == q * p + r;
    assert n == 10 * (q * p + r) + n % 10;
    assert 10 * (q * p) == q * (10 * p);
    DivisionIsUnique(n, 10 * p, q, 10 * r + n % 10);
  }

  /** `s.padStart(k, '0').slice(-k)`. */
  function PadAndCut(s: string, k: nat): (r: string)
    ensures |r| == k
  {
    if |s| < k then seq(k - |s|, _ => '0') + s else s[|s| - k..]
  }

  lemma {:induction false} PaddedDecimal(n: nat, k: nat)
    requires k > 0
    ensures PadAndCut(ToDecimal(n), k) == LastDigits(n, k)
    decreases k
  {
    if k == 1 {
      assert LastDigits(n, 1) == [Digit(n % 10)];
    } else if n < 10 {
      ZeroDigits(k - 1);
    } else {
      PaddedDecimal(n / 10, k - 1);
      assert PadAndCut(ToDecimal(n), k) == PadAndCut(ToDecimal(n / 10), k - 1) + [Digit(n % 10)];
    }
  }

  lemma {:induction false} ZeroDigits(k: nat)
    ensures LastDigits(0, k) == seq(k, _ => '0')
  {
    if k > 0 {
      ZeroDigits(k - 1);
    }
  }
}
