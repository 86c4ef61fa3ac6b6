/** Facts about products and quotients that the solver does not find by itself. */
module Arithmetic {
  lemma ProductsGrow(a: nat, b: nat, c: nat)
    requires a <= b
    ensures a * c <= b * c
  {
  }

  lemma QuotientUnique(n: nat, c: nat, q: nat)
    requires c > 0 && q * c <= n < q * c + c
    ensures n / c == q
  {
    var p := n / c;
    assert p * c <= n < p * c + c;
    if p < q {
      ProductsGrow(p + 1, q, c);
    } else if q < p {
      ProductsGrow(q + 1, p, c);
    }
  }

  lemma DivideSum(a: nat, b: nat, c: nat)
    requires c > 0
    ensures (a * c + b) / c == a + b / c
  {
    var q := b / c;
    assert q * c <= b < q * c + c;
    assert (a + q) * c == a * c + q * c;
    QuotientUnique(a * c + b, c, a + q);
  }

  lemma MultiplesDivide(n: nat, c: nat)
    requires c > 0
    ensures n * c / c == n && n * c % c == 0
  {
    QuotientUnique(n * c, c, n);
    assert n * c == n * c / c * c + n * c % c;
  }
}
