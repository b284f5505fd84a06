/** Quotients and remainders, in the few forms the page arithmetic needs. */
module Arithmetic {

  lemma MulMonotone(a: nat, b: nat, n: nat)
    requires a <= b
    ensures a * n <= b * n
  {
    assert (b - a) * n >= 0;
    assert b * n == a * n + (b - a) * n;
  }

  lemma SplitUnique(n: nat, q: nat, r: nat, s: nat, t: nat)
    requires r < n && t < n && q * n + r == s * n + t
    ensures q == s && r == t
  {
    if q < s {
      MulMonotone(q + 1, s, n);
      assert false;
    } else if s < q {
      MulMonotone(s + 1, q, n);
      assert false;
    }
  }

  lemma DivMod(a: nat, n: nat)
    requires n > 0
    ensures a == (a / n) * n + a % n && 0 <= a / n && a % n < n
  {
  }

  /** q * n + r has quotient q and remainder r. */
  lemma QuotientIs(a: nat, n: nat, q: nat, r: nat)
    requires r < n && a == q * n + r
    ensures a / n == q && a % n == r
  {
    DivMod(a, n);
    SplitUnique(n, q, r, a / n, a % n);
  }

  /** Moving j places without leaving the block. */
  lemma SameQuotient(a: nat, n: nat, j: nat)
    requires n > 0 && a % n + j < n
    ensures (a + j) / n == a / n && (a + j) % n == a % n + j
  {
    DivMod(a, n);
    QuotientIs(a + j, n, a / n, a % n + j);
  }

  lemma QuotientBound(a: nat, n: nat, b: nat)
    requires n > 0 && a < b * n
    ensures a / n < b
  {
    DivMod(a, n);
    if a / n >= b {
      MulMonotone(b, a / n, n);
      assert false;
    }
  }

  lemma ModuloOnce(x: nat, n: nat)
    requires 0 < n <= x < 2 * n
    ensures x % n == x - n
  {
    QuotientIs(x, n, 1, x - n);
  }

  /** The next number is in the same block, or starts the next one. */
  lemma NextQuotient(a: nat, n: nat)
    requires n > 0
    ensures (a + 1) / n == if a % n + 1 == n then a / n + 1 else a / n
  {
    DivMod(a, n);
    if a % n + 1 == n {
      QuotientIs(a + 1, n, a / n + 1, 0);
    } else {
      SameQuotient(a, n, 1);
    }
  }

  lemma QuotientMonotone(a: nat, b: nat, n: nat)
    requires n > 0 && a <= b
    ensures a / n <= b / n
    ensures a >= n ==> a / n >= 1
  {
    DivMod(b, n);
    QuotientBound(a, n, b / n + 1);
    DivMod(a, n);
  }
}
