/** Products, quotients and multiples. Each fact about a product of two variables is proved once, on
    its own, where the solver finds it at once. */
module Arithmetic {

  lemma Associate(a: int, b: int, c: int)
    ensures a * (b * c) == (a * b) * c
  {
  }

  lemma Distribute(a: int, b: int, c: int)
    ensures (a - b) * c == a * c - b * c
  {
  }

  lemma NotNegative(a: nat, b: nat)
    ensures a * b >= 0
  {
  }

  lemma Positive(a: nat, b: nat)
    requires a > 0 && b > 0
    ensures a * b > 0
  {
  }

  lemma Less(x: int, y: int, d: nat)
    requires x * d < y * d
    ensures x < y
  {
  }

  lemma Monotone(x: int, y: int, d: nat)
    requires x <= y
    ensures x * d <= y * d
  {
    Distribute(y, x, d);
    NotNegative(y - x, d);
  }

  lemma Division(n: nat, d: nat)
    requires d > 0
    ensures n == n / d * d + n % d && 0 <= n % d < d
  {
  }

  lemma QuotRem(q: nat, d: nat, r: nat)
    requires r < d
    ensures (q * d + r) / d == q && (q * d + r) % d == r
  {
    var n := q * d + r;
    Division(n, d);
    Distribute(n / d, q, d);
    Less(n / d - q, 1, d);
    Distribute(q, n / d, d);
    Less(q - n / d, 1, d);
  }

  lemma Multiple(q: nat, d: nat)
    requires d > 0
    ensures q * d % d == 0 && q * d / d == q
  {
    QuotRem(q, d, 0);
  }

  /** From one multiple of d to the next, below kEnd * d. */
  lemma NextMultiple(k: nat, kEnd: nat, d: nat)
    requires k * d < kEnd * d
    ensures (k + 1) * d == k * d + d <= kEnd * d && k * d % d == 0
  {
    Less(k, kEnd, d);
    Distribute(k + 1, 1, d);
    Monotone(k + 1, kEnd, d);
    Multiple(k, d);
  }

  /** The quotient changes from n to n + 1 exactly at the multiples. */
  lemma NextQuotient(n: nat, d: nat)
    requires d > 0
    ensures n / d != (n + 1) / d <==> (n + 1) % d == 0
  {
    var q, r := n / d, n % d;
    Division(n, d);
    if r + 1 < d {
      QuotRem(q, d, r + 1);
      assert n + 1 == q * d + (r + 1);
    } else {
      Distribute(q + 1, 1, d);
      QuotRem(q + 1, d, 0);
      assert n + 1 == (q + 1) * d + 0;
    }
  }

  lemma RoundUp(n: nat, d: nat) returns (q: nat)
    requires d > 0
    ensures q == (n + d - 1) / d && n <= q * d < n + d
  {
    q := (n + d - 1) / d;
    Division(n + d - 1, d);
  }
}
