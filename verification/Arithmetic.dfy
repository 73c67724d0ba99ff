/** Facts about products and quotients that the other modules use. */
module Arithmetic {

  lemma Distribute(a: int, b: int, d: int)
    ensures (a + b) * d == a * d + b * d
  {
  }

  lemma MultipleAtLeast(a: int, d: int)
    requires a > 0 && d > 0
    ensures a * d >= d
  {
  }

  /** Repeated addition, for proofs that count steps. */
  function Times(i: nat, d: nat): nat {
    if i == 0 then 0 else Times(i - 1, d) + d
  }

  lemma {:induction false} TimesIsProduct(i: nat, d: nat)
    ensures Times(i, d) == i * d
  {
    if i > 0 {
      TimesIsProduct(i - 1, d);
      Distribute(i - 1, 1, d);
    }
  }

  lemma QuotientsAgree(d: nat, q: int, r: nat, q': int, r': nat)
    requires r < d && r' < d && q * d + r == q' * d + r'
    ensures q == q' && r == r'
  {
    if q' < q {
      Distribute(q, -q', d);
      MultipleAtLeast(q - q', d);
    } else if q < q' {
      Distribute(q', -q, d);
      MultipleAtLeast(q' - q, d);
    }
  }

  lemma DivisionIsUnique(n: nat, d: nat, q: nat, r: nat)
    requires d > 0 && r < d && n == q * d + r
    ensures n / d == q && n % d == r
  {
    QuotientsAgree(d, n / d, n % d, q, r);
  }

  lemma DivideByStep(n: nat, d: nat)
    requires d > 0
    ensures (n + d) / d == n / d + 1
    ensures (n + d) % d == n % d
  {
    Distribute(n / d, 1, d);
    DivisionIsUnique(n + d, d, n / d + 1, n % d);
  }

  lemma SmallRemainder(n: nat, d: nat)
    requires n < d
    ensures n / d == 0 && n % d == n
  {
  }

  lemma WholeQuotient(n: nat, d: nat, q: nat)
    requires d > 0 && n == q * d
    ensures n / d == q && n + d == (q + 1) * d
  {
    DivisionIsUnique(n, d, q, 0);
    Distribute(q, 1, d);
  }

  lemma RoundUpOfWhole(n: nat, d: nat)
    requires d > 0 && n % d == 0
    ensures (n + d - 1) / d == n / d
  {
    DivisionIsUnique(n + d - 1, d, n / d, d - 1);
  }
}
