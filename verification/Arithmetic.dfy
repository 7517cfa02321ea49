/** Products of variables, one fact a lemma. */
module Arithmetic {

  function Over(p: nat, g: nat): nat
    requires g > 0
  {
    p / g
  }

  lemma MulAssoc(a: int, b: int, c: int) ensures a * (b * c) == (a * b) * c {}

  lemma MulSwap(a: int, b: int, c: int) ensures a * (b * c) == b * (a * c) {}

  lemma Distribute(n: int, p: int, q: int) ensures n * (p - q) == n * p - n * q {}

  lemma Scale(n: nat, p: int, q: int)
    requires p <= q
    ensures n * p <= n * q
  {
  }

  lemma AtLeast(n: nat, k: nat)
    requires k > 0
    ensures n * k >= n
  {
  }

  lemma NotNegative(n: nat, k: int)
    requires k < 0
    ensures n * k <= 0
  {
  }

  lemma StrictlyScale(n: nat, p: int, q: int)
    requires p < q && n > 0
    ensures n * p + n <= n * q
  {
    AtLeast(n, q - p);
    Distribute(n, q, p);
  }

  lemma Cancel(n: nat, p: int, q: int)
    requires n > 0 && n * p == n * q
    ensures p == q
  {
    if p < q { StrictlyScale(n, p, q); } else if q < p { StrictlyScale(n, q, p); }
  }

  lemma Exact(n: nat, k: nat)
    requires n > 0
    ensures (n * k) / n == k
  {
    var q, r := (n * k) / n, (n * k) % n;
    assert n * q + r == n * k;
    if q < k { StrictlyScale(n, q, k); } else if k < q { StrictlyScale(n, k, q); }
  }
}
