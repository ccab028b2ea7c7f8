/** Products, quotients and remainders of natural numbers. */
module Division {
  lemma MulMono(a: nat, b: nat, d: nat)
    requires a <= b
    ensures a * d <= b * d
  {
    assert (b - a) * d >= 0;
    assert (b - a) * d == b * d - a * d;
  }

  lemma MulStep(a: nat, d: nat)
    ensures (a + 1) * d == a * d + d
  {
  }

  lemma QuotientBelow(d: nat, q: nat, r: nat, q': nat, r': nat)
    requires r < d && r' < d && q * d + r <= q' * d + r'
    ensures q <= q'
  {
    if q' < q {
      MulStep(q', d);
      MulMono(q' + 1, q, d);
    }
  }

  /** Quotient and remainder are determined by the equation and the range. */
  lemma DivUnique(a: nat, d: nat, q: nat, r: nat)
    requires r < d && a == q * d + r
    ensures a / d == q && a % d == r
  {
    var q', r' := a / d, a % d;
    assert a == q' * d + r';
    QuotientBelow(d, q, r, q', r');
    QuotientBelow(d, q', r', q, r);
  }

  lemma DivMono(a: nat, b: nat, d: nat)
    requires a <= b && d > 0
    ensures a / d <= b / d
  {
    assert a == a / d * d + a % d;
    assert b == b / d * d + b % d;
    QuotientBelow(d, a / d, a % d, b / d, b % d);
  }

  lemma SameQuotient(a: nat, b: nat, d: nat)
    requires d > 0 && a / d == b / d && a % d == b % d
    ensures a == b
  {
    assert a == a / d * d + a % d;
    assert b == b / d * d + b % d;
  }

  lemma DivRange(x: nat, s: nat, i: nat, j: nat)
    requires s > 0
    ensures i <= x / s < j <==> i * s <= x < j * s
  {
    var q := x / s;
    assert q * s <= x < (q + 1) * s;
    if i <= q {
      MulMono(i, q, s);
    } else {
      MulMono(q + 1, i, s);
    }
    if q < j {
      MulMono(q + 1, j, s);
    } else {
      MulMono(j, q, s);
    }
  }
}
