/** Facts about integer division and remainder that the solver does not find unaided. */
module Arith {

  lemma MulNonneg(a: int, b: int)
    requires a >= 0 && b >= 0
    ensures a * b >= 0
  {
  }

  /** A positive multiple of a non-negative `n` is at least `n`. */
  lemma MulAtLeast(d: int, n: int)
    requires d >= 1 && n >= 0
    ensures d * n >= n
  {
    MulNonneg(d - 1, n);
    assert d * n == (d - 1) * n + n;
  }

  /** A quotient-remainder decomposition with the remainder in [0, n) is the one `/` and `%` give. */
  lemma DivModUnique(a: int, n: int, q: int, r: int)
    requires n > 0 && 0 <= r < n && a == q * n + r
    ensures a % n == r && a / n == q
  {
    var q', r' := a / n, a % n;
    assert q * n + r == q' * n + r';
    var d := q - q';
    assert d * n == r' - r;
    if d >= 1 {
      MulAtLeast(d, n);
    } else if d <= -1 {
      MulAtLeast(-d, n);
    }
  }

  /** Integer division by a positive divisor does not decrease. */
  lemma DivMonotone(a: int, b: int, n: int)
    requires n > 0 && a <= b
    ensures a / n <= b / n
  {
    var qa, qb := a / n, b / n;
    if qa > qb {
      MulAtLeast(qa - qb, n);
    }
  }

  /** The cyclic successor of `(k - 1) mod n` is `k mod n`. */
  lemma ModSuccessor(k: nat, n: nat)
    requires 0 < k && 0 < n
    ensures ((k - 1) % n + 1) % n == k % n
  {
    var q, i := (k - 1) / n, (k - 1) % n;
    if i + 1 < n {
      DivModUnique(i + 1, n, 0, i + 1);
      DivModUnique(k, n, q, i + 1);
    } else {
      DivModUnique(i + 1, n, 1, 0);
      DivModUnique(k, n, q + 1, 0);
    }
  }
}
