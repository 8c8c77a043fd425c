/** Quotients and remainders. */
module Arithmetic {

  lemma Product(a: nat, b: nat)
    ensures a * b >= 0
  {}

  lemma Grow(a: nat, b: int, c: int)
    requires c <= b
    ensures a * c <= a * b
  {
    Product(a, b - c);
    assert a * (b - c) == a * b - a * c;
  }

  lemma Cancel(a: nat, b: int, c: int)
    requires a * b < a * c
    ensures b < c
  {
    if c <= b {
      Grow(a, b, c);
    }
  }

  /** Division with remainder is unique. */
  lemma Quotient(n: nat, q: nat, r: nat, k: nat)
    requires r < n && k == n * q + r
    ensures k / n == q && k % n == r
  {
    var d := k / n;
    Cancel(n, d, q + 1);
    Cancel(n, q, d + 1);
  }
}
