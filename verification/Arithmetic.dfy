/** Facts about products and quotients by a variable. */
module Arithmetic {
  lemma DivMod(a: int, d: int)
    requires d > 0
    ensures a / d * d + a % d == a && 0 <= a % d < d
  {}

  lemma QuotientIs(a: int, d: int, q: int, r: int)
    requires d > 0 && a == q * d + r && 0 <= r < d
    ensures a / d == q && a % d == r
  {
    DivMod(a, d);
    var k := a / d - q;
    assert k * d == r - a % d by { Spread(a / d, q, d); }
    if k >= 1 {
      ScaleUp(1, k, d);
    } else if k <= -1 {
      ScaleUp(k, -1, d);
    }
  }

  lemma Spread(a: int, b: int, d: int)
    ensures (a - b) * d == a * d - b * d
  {}

  lemma ScaleUp(a: int, b: int, d: int)
    requires a <= b && d >= 0
    ensures a * d <= b * d
  {}
}
