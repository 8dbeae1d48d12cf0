/** Integer facts about Rust's unsigned `/` and `%`, which on naturals agree
    with Dafny's. */
module Arith {

  /** The quotient brackets the dividend. */
  lemma DivBounds(x: nat, d: nat)
    requires d > 0
    ensures x / d * d <= x < (x / d + 1) * d
  {
    assert x == d * (x / d) + x % d;
  }

  /** Dividing twice is dividing by the product. */
  lemma DivDiv(a: nat, b: nat, c: nat)
    requires b > 0 && c > 0
    ensures a / b / c == a / (b * c)
  {
    var q, r := a / b, a % b;
    var q2, r2 := q / c, q % c;
    assert a == b * q + r;
    assert q == c * q2 + r2;
    assert b * q == (b * c) * q2 + b * r2 by {
      assert b * (c * q2 + r2) == b * (c * q2) + b * r2;
    }
    assert b * r2 <= b * (c - 1) by { MulLe(b, r2, c - 1); }
    assert b * (c - 1) == b * c - b;
    DivUnique(a, b * c, q2, b * r2 + r);
  }

  lemma MulLe(a: nat, x: nat, y: nat)
    requires x <= y
    ensures a * x <= a * y
  {
    assert a * y == a * x + a * (y - x);
  }

  /** Quotient and remainder are the only ones. */
  lemma DivUnique(a: int, d: int, q: int, r: int)
    requires d > 0 && 0 <= r < d && a == d * q + r
    ensures a / d == q && a % d == r
  {
    var q0, r0 := a / d, a % d;
    assert d * q0 + r0 == d * q + r;
    assert d * (q0 - q) == r - r0;
    if q0 > q {
      MulLe(d, 1, q0 - q);
    } else if q0 < q {
      MulLe(d, 1, q - q0);
    }
  }

  /** A numerator below `bound * d` has a quotient below `bound`. */
  lemma DivBelow(x: nat, d: nat, bound: nat)
    requires d > 0 && x < bound * d
    ensures x / d < bound
  {
    var q := x / d;
    assert d * q <= x;
    if q >= bound {
      MulLe(d, bound, q);
    }
  }

  /** A numerator at least `bound * d` has a quotient at least `bound`. */
  lemma DivAtLeast(x: nat, d: nat, bound: nat)
    requires d > 0 && bound * d <= x
    ensures bound <= x / d
  {
    var q := x / d;
    assert x < d * (q + 1);
    if q < bound {
      MulLe(d, q + 1, bound);
    }
  }
}
