/** Euclidean division by products, for digits in a base. */
module Division {

  lemma ProductOrder(a: int, b: int, d: nat)
    requires a * d < b * d
    ensures a < b
  {
    assert (b - a) * d == b * d - a * d;
  }

  lemma Quotient(n: nat, q: nat, d: nat, r: nat)
    requires d > 0 && n == q * d + r && r < d
    ensures n / d == q
  {
    var e := n / d;
    assert e * d <= n < (e + 1) * d;
    assert q * d <= n < (q + 1) * d;
    ProductOrder(q, e + 1, d);
    ProductOrder(e, q + 1, d);
  }

  lemma ProductBound(r: nat, p: nat, c: nat, low: nat)
    requires r < p && low < c
    ensures c * r + low < c * p
  {
    assert c * (r + 1) <= c * p;
    assert c * (r + 1) == c * r + c;
  }

  lemma Distribute(x: nat, p: nat, r: nat, c: nat)
    ensures (x * p + r) * c == x * (c * p) + c * r
  {
    assert (x * p + r) * c == x * p * c + r * c;
    Reorder(x, p, c);
  }

  lemma Reorder(x: nat, p: nat, c: nat)
    ensures x * p * c == x * (c * p)
  {
  }

  lemma Split(n: nat, c: nat)
    requires c >= 1
    ensures n == n / c * c + n % c
  {
  }

  /** Dividing twice is dividing by the product. */
  lemma DivideTwice(n: nat, c: nat, p: nat)
    requires c >= 1 && p >= 1
    ensures c * p >= 1 && n / c / p == n / (c * p)
  {
    var a, low := n / c, n % c;
    Split(n, c);
    var q, r := a / p, a % p;
    Split(a, p);
    Distribute(q, p, r, c);
    ProductBound(r, p, c, low);
    Quotient(n, q, c * p, c * r + low);
  }
}
