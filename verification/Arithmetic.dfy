/** Facts about multiplication and division that the solver does not find by itself. */
module Arithmetic {

  lemma MulMonotone(a: int, b: int, c: int)
    requires a <= b && 0 <= c
    ensures a * c <= b * c
  {
    assert 0 <= (b - a) * c;
  }

  lemma MulCancelLess(a: int, b: int, c: int)
    requires 0 <= c && a * c < b * c
    ensures a < b
  {
    if b <= a {
      MulMonotone(b, a, c);
    }
  }

  lemma DivModUnique(x: int, p: int, q: int, r: int)
    requires x == q * p + r && 0 <= r < p
    ensures x / p == q && x % p == r
  {
    var q', r' := x / p, x % p;
    assert x == q' * p + r';
    MulCancelLess(q' - q, 1, p) by { assert (q' - q) * p == r - r'; }
    MulCancelLess(-1, q' - q, p) by { assert (q' - q) * p == r - r'; }
  }

  lemma ModOfMultiple(m: int, p: int)
    requires p >= 1
    ensures (m * p) % p == 0
    ensures (m * p) / p == m
  {
    DivModUnique(m * p, p, m, 0);
  }

  lemma DivideShrinks(x: int, p: int)
    requires 0 <= x && 1 <= p
    ensures 0 <= x / p <= x
  {
    var q := x / p;
    assert x == q * p + x % p;
    if q < 0 {
      MulMonotone(q, -1, p);
    } else {
      MulMonotone(1, p, q);
    }
  }

  lemma DistinctRemainders(a: nat, b: nat, m: nat)
    requires a < b < a + m
    ensures a % m != b % m
  {
    if a % m == b % m {
      var q := b / m - a / m;
      assert a == a / m * m + a % m && b == b / m * m + b % m;
      assert q * m == b - a;
      MulCancelLess(0, q, m);
      MulCancelLess(q, 1, m);
    }
  }
}
