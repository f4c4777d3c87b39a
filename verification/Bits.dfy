/** Bitwise conjunction, and why masking with a power of two less one is a remainder. */
module Bits {

  function And(x: nat, y: nat): nat {
    if x == 0 || y == 0 then 0 else x % 2 * (y % 2) + 2 * And(x / 2, y / 2)
  }

  predicate IsPowerOfTwo(n: nat) {
    n == 1 || (n > 1 && n % 2 == 0 && IsPowerOfTwo(n / 2))
  }

  lemma AtLeast(d: int, n: nat)
    requires d >= 1
    ensures d * n >= n
  {
  }

  /** The quotient and remainder are determined by their defining equation. */
  lemma Unique(q1: int, r1: int, q2: int, r2: int, n: nat)
    requires q1 * n + r1 == q2 * n + r2 && 0 <= r1 < n && 0 <= r2 < n
    ensures q1 == q2
  {
    if q1 > q2 {
      AtLeast(q1 - q2, n);
    } else if q1 < q2 {
      AtLeast(q2 - q1, n);
    }
  }

  lemma Remainder(x: nat, n: nat, q: nat, r: nat)
    requires x == q * n + r && r < n
    ensures x % n == r
  {
    Unique(x / n, x % n, q, r, n);
  }

  /** Splitting off the lowest bit commutes with the remainder. */
  lemma HalfRemainder(x: nat, m: nat)
    requires m > 0
    ensures x % (2 * m) == x % 2 + 2 * (x / 2 % m)
  {
    var q, r := x / 2 / m, x / 2 % m;
    assert x / 2 == q * m + r;
    assert 2 * (q * m) == q * (2 * m);
    Remainder(x, 2 * m, q, 2 * r + x % 2);
  }

  lemma {:induction false} MaskIsRemainder(x: nat, n: nat)
    requires IsPowerOfTwo(n)
    ensures And(x, n - 1) == x % n
  {
    if n > 1 {
      var m := n / 2;
      MaskIsRemainder(x / 2, m);
      HalfRemainder(x, m);
      assert n == 2 * m && (n - 1) % 2 == 1 && (n - 1) / 2 == m - 1;
    }
  }
}
