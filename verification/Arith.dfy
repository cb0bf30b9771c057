/** Division of natural numbers. */
module Arith {
  /** A number that is n times something and less than n more leaves that remainder. */
  lemma DivUnique(x: nat, q: nat, r: nat, n: nat)
    requires n > 0 && x == n * q + r && r < n
    ensures x % n == r && x / n == q
  {
    var p, m := x / n, x % n;
    assert x == n * p + m && m < n;
    Below(n, p, m, q, r);
    Below(n, q, r, p, m);
  }

  lemma Below(n: nat, p: nat, m: nat, q: nat, r: nat)
    requires m < n && n * p + m == n * q + r
    ensures p >= q
  {
    if p < q {
      MulLe(n, p + 1, q);
      assert false;
    }
  }

  lemma MulLe(n: nat, a: nat, b: nat)
    requires a <= b
    ensures n * a <= n * b
  {
    assert n * b == n * a + n * (b - a);
  }

  lemma Small(a: nat, n: nat)
    requires a < n
    ensures a % n == a && a / n == 0
  {
    DivUnique(a, 0, a, n);
  }
}
