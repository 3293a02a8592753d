/** Division facts the calendar and the text codecs rely on. */
module Arithmetic {

  lemma AtLeastOneMultiple(d: int, k: int)
    requires d > 0 && k >= 1
    ensures d * k >= d
  {
  }

  lemma SameQuotient(d: int, q: int, r: int, q': int, r': int)
    requires 0 <= r < d && 0 <= r' < d && d * q + r == d * q' + r'
    ensures q == q'
  {
    assert d * (q - q') == r' - r;
    assert d * (q' - q) == r - r';
    if q > q' {
      AtLeastOneMultiple(d, q - q');
    } else if q < q' {
      AtLeastOneMultiple(d, q' - q);
    }
  }

  /** Quotient and remainder are the only pair with a remainder in range. */
  lemma Quotient(n: int, d: int, q: int, r: int)
    requires 0 <= r < d && n == d * q + r
    ensures n / d == q && n % d == r
  {
    SameQuotient(d, q, r, n / d, n % d);
  }
}
