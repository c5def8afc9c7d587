/** The few facts about products and remainders that cluster and sector arithmetic needs. */
module Arithmetic {
  lemma {:induction false} MultiplesApart(m: nat, a: nat, b: nat)
    requires a < b
    ensures m * a + m <= m * b
    decreases b
  {
    if a + 1 < b {
      MultiplesApart(m, a, b - 1);
      assert m * b == m * (b - 1) + m;
    } else {
      assert m * b == m * a + m;
    }
  }

  lemma DivisionUnique(n: nat, m: nat, q: nat, r: nat)
    requires m > 0 && n == m * q + r && r < m
    ensures n / m == q && n % m == r
  {
    var q', r' := n / m, n % m;
    assert n == m * q' + r';
    if q < q' {
      MultiplesApart(m, q, q');
    } else if q' < q {
      MultiplesApart(m, q', q);
    }
  }

  lemma {:induction false} Distribute(a: nat, b: nat, m: nat)
    ensures (a + b) * m == a * m + b * m
  {
  }

  lemma ProductOrder(a: nat, b: nat, m: nat)
    ensures a <= b ==> a * m <= b * m
    ensures a < b ==> a * m + m <= b * m
  {
    if a < b {
      MultiplesApart(m, a, b);
      assert m * a == a * m && m * b == b * m;
    }
  }

  /** `x / m` is the index of the block of `m` that holds `x`. */
  lemma BlockOf(x: nat, m: nat, first: nat, count: nat)
    requires m > 0
    ensures first * m <= x < (first + count) * m <==> first <= x / m < first + count
  {
    var q, r := x / m, x % m;
    assert x == q * m + r;
    ProductOrder(first, q, m);
    ProductOrder(q, first, m);
    ProductOrder(first + count, q, m);
    ProductOrder(q, first + count, m);
  }
}
