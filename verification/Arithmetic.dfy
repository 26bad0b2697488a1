/** Facts about multiplication and division that the solver is spared from finding. */
module Arithmetic {

  /** A quotient and remainder are the only ones. */
  lemma ModOf(n: int, q: int, r: int, d: int)
    requires d > 0 && n == q * d + r && 0 <= r < d
    ensures n % d == r && n / d == q
  {
    var (q', r') := (n / d, n % d);
    assert (q - q') * d == r' - r && (q' - q) * d == r - r';
    if q > q' {
      MulLow(q - q', d);
    } else if q < q' {
      MulLow(q' - q, d);
    }
  }

  lemma MulLow(k: int, d: int)
    requires k >= 1 && d > 0
    ensures k * d >= d
  {
  }

  lemma ProductNonneg(a: int, b: int)
    requires a >= 0 && b >= 0
    ensures a * b >= 0
  {
  }

  lemma Monotone(a: int, b: int, c: int)
    requires a <= b && c >= 0
    ensures a * c <= b * c
  {
  }

  lemma Distribute(a: int, b: int, c: int)
    ensures (a + b) * c == a * c + b * c
  {
  }

  lemma Associate(a: int, b: int, c: int)
    ensures (a * b) * c == a * (b * c)
  {
  }

  lemma DivisionMonotone(a: int, b: int, d: int)
    requires 0 <= a <= b && d > 0
    ensures 0 <= a / d <= b / d
  {
    assert a == (a / d) * d + a % d && b == (b / d) * d + b % d;
    assert (a / d - b / d) * d == (a / d) * d - (b / d) * d;
    if a / d > b / d { MulLow(a / d - b / d, d); }
  }

  /** Division by at least two makes a positive number smaller, and leaves one not below the divisor positive. */
  lemma DivSmaller(v: int, d: int)
    requires v > 0 && d >= 2
    ensures 0 <= v / d < v
    ensures v >= d ==> v / d > 0
    ensures v == (v / d) * d + v % d && 0 <= v % d < d
  {
    var q := v / d;
    assert v == q * d + v % d;
    if q >= v { Monotone(2, d, q); Monotone(v, q, d); Monotone(2, d, v); }
  }

  /** Dividing by a product is dividing twice. */
  lemma DivTwice(v: int, p: int, d: int)
    requires v >= 0 && p > 0 && d > 0
    ensures p * d > 0 && v / (p * d) == v / p / d
  {
    var (q, r) := (v / p, v % p);
    var (q', r') := (q / d, q % d);
    MulLow(p, d);
    calc {
      v;
      q * p + r;
      (q' * d + r') * p + r;
      { Distribute(q' * d, r', p); }
      (q' * d) * p + (r' * p + r);
      { Associate(q', d, p); }
      q' * (d * p) + (r' * p + r);
    }
    Monotone(r' + 1, d, p);
    Distribute(r', 1, p);
    ProductNonneg(r', p);
    ModOf(v, q', r' * p + r, p * d);
  }
}
