/** Division with remainder by a divisor that is not a constant. */
module Arithmetic {
  lemma DivMod(p: nat, n: nat)
    requires n > 0
    ensures p == (p / n) * n + p % n
  {}

  lemma LessTimes(a: int, b: int, n: nat)
    requires a * n < b * n
    ensures a < b
  {
    if b <= a { MoreTimes(b, a, n); }
  }

  lemma {:induction false} MoreTimes(b: int, a: int, n: nat)
    requires b <= a
    ensures b * n <= a * n
    decreases a - b
  {
    if b < a {
      MoreTimes(b, a - 1, n);
      assert a * n == (a - 1) * n + n;
    }
  }

  /** A quotient and remainder are determined by the number. */
  lemma DivModUnique(p: nat, n: nat, q: nat, r: nat)
    requires n > 0 && p == q * n + r && r < n
    ensures p / n == q && p % n == r
  {
    DivMod(p, n);
    assert (p / n + 1) * n == (p / n) * n + n && (q + 1) * n == q * n + n;
    LessTimes(p / n, q + 1, n);
    LessTimes(q, p / n + 1, n);
  }

  lemma SameRemainder(a: nat, b: nat, n: nat)
    requires n > 0 && a < b && a % n == b % n
    ensures a + n <= b
  {
    DivMod(a, n);
    DivMod(b, n);
    LessTimes(a / n, b / n, n);
    MoreTimes(a / n + 1, b / n, n);
    assert (a / n + 1) * n == (a / n) * n + n;
  }
}
