/** Facts about division by a divisor that is not a constant.
 */
module Division {

  /** Quotient and remainder are unique. */
  lemma DivisionUnique(n: nat, a: nat, q: nat, r: nat)
    requires r < a && n == q * a + r
    ensures n / a == q && n % a == r
  {
    var q', r' := n / a, n % a;
    assert n == q' * a + r';
    assert (q - q') * a == r' - r;
    if q > q' { MultipleIsLarge(q - q', a); } else if q' > q {
      assert (q' - q) * a == r - r';
      MultipleIsLarge(q' - q, a);
    }
  }

  lemma MultipleIsLarge(d: nat, a: nat)
    requires d >= 1
    ensures d * a >= a
  {
  }

  /** A remainder that wraps at most once. */
  lemma WrapOnce(x: nat, n: nat)
    requires x < 2 * n
    ensures x % n == if x < n then x else x - n
  {
    if x < n { DivisionUnique(x, n, 0, x); } else { DivisionUnique(x, n, 1, x - n); }
  }

  lemma AddMultiple(x: nat, m: nat, d: nat)
    requires d > 0
    ensures (x + d * m) % d == x % d
  {
    var q := x / d;
    assert x == q * d + x % d;
    assert x + d * m == (q + m) * d + x % d;
    DivisionUnique(x + d * m, d, q + m, x % d);
  }

  /** Quotient and remainder determine the number. */
  lemma SplitIsInjective(d: nat, i: nat, j: nat)
    requires d > 0 && i / d == j / d && i % d == j % d
    ensures i == j
  {
    assert i == i / d * d + i % d && j == j / d * d + j % d;
  }

  lemma MulMonotone(a: nat, b: nat, k: nat)
    requires a <= b
    ensures a * k <= b * k
  {
  }

  lemma OneMore(num: nat, n: nat)
    ensures num * (n + 1) == num * n + num
  {
  }
}
