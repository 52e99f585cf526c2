/** Facts about products, quotients and multiples. */
module Arithmetic {

  lemma {:induction false} AtLeastOnce(k: nat, d: nat)
    requires k > 0
    ensures k * d >= d
  {
    if k > 1 {
      AtLeastOnce(k - 1, d);
      assert k * d == (k - 1) * d + d;
    }
  }

  lemma ScaledGap(x: nat, y: nat, d: nat)
    requires x < y
    ensures x * d + d <= y * d
  {
    AtLeastOnce(y - x, d);
    assert (y - x) * d == y * d - x * d;
  }

  lemma ScaledOrder(x: nat, y: nat, d: nat)
    requires x <= y
    ensures x * d <= y * d
  {
    if x < y {
      ScaledGap(x, y, d);
    }
  }

  lemma CancelFactor(x: nat, y: nat, d: nat)
    requires d > 0 && x * d <= y * d
    ensures x <= y
  {
    if x > y {
      ScaledGap(y, x, d);
    }
  }

  /** A quotient and a remainder that fit are the quotient and the remainder. */
  lemma QuotientUnique(x: nat, d: nat, q: nat, r: nat)
    requires d > 0 && x == q * d + r && r < d
    ensures x / d == q && x % d == r
  {
    var q', r' := x / d, x % d;
    assert x == q' * d + r';
    if q < q' {
      ScaledGap(q, q', d);
    } else if q' < q {
      ScaledGap(q', q, d);
    }
  }

  /** A common factor of dividend and divisor cancels. */
  lemma QuotientOfScaled(x: nat, d: nat, c: nat)
    requires d > 0 && c > 0
    ensures d * c > 0 && (x * c) / (d * c) == x / d
  {
    var q, r := x / d, x % d;
    assert x == q * d + r;
    AtLeastOnce(d, c);
    ScaledGap(r, d, c);
    assert x * c == q * (d * c) + r * c by {
      assert (q * d + r) * c == (q * d) * c + r * c;
      assert (q * d) * c == q * (d * c);
    }
    QuotientUnique(x * c, d * c, q, r * c);
  }

  lemma QuotientOrder(x: nat, y: nat, d: nat)
    requires d > 0 && x <= y
    ensures x / d <= y / d
  {
    var p, q := x / d, y / d;
    assert x == p * d + x % d && y == q * d + y % d;
    if q < p {
      ScaledGap(q, p, d);
    }
  }

  lemma MultipleOf(k: nat, d: nat)
    requires d > 0
    ensures (k * d) % d == 0
  {
    QuotientUnique(k * d, d, k, 0);
  }

  lemma SumOfMultiples(x: nat, y: nat, d: nat)
    requires d > 0 && x % d == 0 && y % d == 0
    ensures (x + y) % d == 0
  {
    var p, q := x / d, y / d;
    assert x == p * d && y == q * d;
    assert (p + q) * d == p * d + q * d;
    MultipleOf(p + q, d);
  }

  lemma DifferenceOfMultiples(x: nat, y: nat, d: nat)
    requires d > 0 && x % d == 0 && y % d == 0 && y <= x
    ensures (x - y) % d == 0
  {
    var p, q := x / d, y / d;
    assert x == p * d && y == q * d;
    CancelFactor(q, p, d);
    assert (p - q) * d == p * d - q * d;
    MultipleOf(p - q, d);
  }
}
