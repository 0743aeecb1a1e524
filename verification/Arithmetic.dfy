/** Products and quotients by a variable. */
module Arithmetic {
  lemma Scale(a: int, b: int, c: nat)
    requires a <= b
    ensures a * c <= b * c
  {
  }

  /** A number lies between the multiples its quotient names. */
  lemma Whole(x: nat, d: nat)
    requires d > 0
    ensures (x / d) * d <= x < (x / d + 1) * d
  {
    assert x == (x / d) * d + x % d;
  }

  lemma Quotient(x: nat, d: nat, q: nat, r: nat)
    requires d > 0 && x == q * d + r && r < d
    ensures x / d == q
  {
    Whole(x, d);
    if x / d < q {
      Scale(x / d + 1, q, d);
    } else if q < x / d {
      Scale(q + 1, x / d, d);
    }
  }

  lemma QuotientGrows(x: nat, y: nat, d: nat)
    requires d > 0 && x <= y
    ensures x / d <= y / d
  {
    Whole(x, d);
    Whole(y, d);
    if y / d < x / d {
      Scale(y / d + 1, x / d, d);
    }
  }

  /** Numbers whose quotients are `n` apart are less than `n` and one more multiples apart. */
  lemma Apart(x: nat, y: nat, d: nat, n: nat)
    requires d > 0 && y / d <= x / d + n
    ensures y - x < (n + 1) * d
  {
    Whole(x, d);
    Whole(y, d);
    Scale(y / d + 1, x / d + n + 1, d);
    assert (x / d + n + 1) * d == (x / d) * d + (n + 1) * d;
  }
}
