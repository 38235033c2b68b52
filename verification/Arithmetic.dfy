/** Division facts the solver does not find by itself. */
module Arithmetic {

  lemma LastDigit(q: nat, k: nat)
    requires k > 0
    ensures q % (512 * k) == q / 512 % k * 512 + q % 512
  {
    var a, d := q / 512, q % 512;
    var b, c := a / k, a % k;
    assert a == k * b + c;
    assert q == (512 * k) * b + (512 * c + d);
    assert 512 * c + d < 512 * k;
    DivisionOf(q, 512 * k, b, 512 * c + d);
  }

  lemma DivisionOf(q: nat, n: nat, b: nat, r: nat)
    requires 0 < n && r < n && q == n * b + r
    ensures q / n == b && q % n == r
  {
    var b', r' := q / n, q % n;
    assert n * b' + r' == n * b + r;
    AtLeast(n, b' - b);
    AtLeast(n, b - b');
    assert n * (b' - b) == n * b' - n * b;
    assert n * (b - b') == n * b - n * b';
  }

  lemma AtLeast(n: nat, d: int)
    ensures d > 0 ==> n * d >= n
  {
  }

  /** One wrap of a modulus. */
  lemma Wrap(x: nat, n: nat)
    requires 0 < n && x < 2 * n
    ensures x % n == if x < n then x else x - n
  {
    if x < n {
      DivisionOf(x, n, 0, x);
    } else {
      DivisionOf(x, n, 1, x - n);
    }
  }
}
