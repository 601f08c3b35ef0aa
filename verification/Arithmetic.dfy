/** Division facts the solver does not find alone. */
module Arithmetic {

  lemma ProductAtLeast(d: nat, m: nat)
    requires 1 <= d
    ensures d * m >= m
  {
  }

  lemma CancelFactor(p: nat, q: nat, m: nat)
    requires m > 0
    ensures p * m == q * m <==> p == q
  {
    if p < q {
      ProductAtLeast(q - p, m);
    } else if q < p {
      ProductAtLeast(p - q, m);
    }
  }

  /** Quotient and remainder are unique. */
  lemma QuotientRemainder(x: nat, m: nat, q: nat, r: nat)
    requires r < m && x == q * m + r
    ensures x % m == r && x / m == q
  {
    var q' := x / m;
    var r' := x % m;
    assert q' * m + r' == q * m + r;
    if q' < q {
      ProductAtLeast(q - q', m);
      assert false;
    } else if q' > q {
      ProductAtLeast(q' - q, m);
      assert false;
    }
  }

  lemma Distribute(a: int, b: int, c: int)
    ensures a * (b + c) == a * b + a * c
  {
  }

  /** Dividing by a product is dividing by its factors in turn. */
  lemma DivideTwice(a: nat, h: nat, e: nat)
    requires h > 0 && e > 0
    ensures h * e > 0
    ensures a / (h * e) == a / h / e
  {
    var q := a / h;
    var d, r := q / e, q % e;
    assert q == d * e + r;
    Regroup(a, h, e, d, r);
    QuotientRemainder(a, h * e, d, r * h + a % h);
  }

  lemma Regroup(a: nat, h: nat, e: nat, d: nat, r: nat)
    requires h > 0 && e > 0 && a / h == d * e + r && r < e
    ensures h * e > 0
    ensures a == d * (h * e) + (r * h + a % h)
    ensures r * h + a % h < h * e
  {
    assert a == (d * e + r) * h + a % h;
    assert (d * e + r) * h == d * (h * e) + r * h;
    ProductAtLeast(e - r, h);
    assert (e - r) * h == h * e - r * h;
  }
}
