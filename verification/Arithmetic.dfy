/** Facts about products and quotients of unknowns. */
module Arithmetic {

  lemma QuotientIs(n: int, k: int, q: int)
    requires k > 0 && k * q <= n < k * q + k
    ensures n / k == q
  {
    var p := n / k;
    assert p < q ==> k * p <= k * (q - 1);
    assert p > q ==> k * p >= k * (q + 1);
  }

  lemma QuotientBounds(n: int, k: int)
    requires k > 0
    ensures k * (n / k) <= n < k * (n / k) + k
  {
  }

  lemma QuotientGrows(m: int, n: int, k: int)
    requires m <= n && k > 0
    ensures m / k <= n / k
  {
    QuotientBounds(m, k);
    QuotientBounds(n, k);
    var p, q := m / k, n / k;
    assert p > q ==> k * p >= k * (q + 1);
  }

  lemma ProductGrows(a: nat, b: nat, c: nat)
    requires a <= b
    ensures a * c <= b * c
  {
  }
}
