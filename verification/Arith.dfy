/** Elementary facts about products, so that larger proofs stay linear. */
module Arith {

  lemma MulMono(a: int, b: int, c: int)
    requires 0 <= a && b <= c
    ensures a * b <= a * c
  {}

  lemma MulDist(a: int, b: int, c: int)
    ensures a * (b + c) == a * b + a * c
    ensures (b + c) * a == b * a + c * a
  {}

  lemma MulSub(a: int, b: int, c: int)
    ensures a * (b - c) == a * b - a * c
    ensures (b - c) * a == b * a - c * a
  {}

  lemma MulAssoc(a: int, b: int, c: int)
    ensures a * b * c == a * (b * c)
    ensures a * b * c == a * c * b
  {}

  lemma MulNonNeg(a: int, b: int)
    requires 0 <= a && 0 <= b
    ensures 0 <= a * b
  {}

  lemma MulPositive(a: int, b: int)
    requires 0 < a && 0 < b
    ensures 0 < a * b
  {}

  /** Cancelling a positive factor. */
  lemma MulCancel(a: int, b: int, c: int)
    requires 0 <= c && a * c < b * c
    ensures a < b
  {
    if a >= b {
      MulMono(c, b, a);
    }
  }

  lemma ProductBound(x: int, y: int, m: int)
    requires 0 <= x < m && 0 <= y < m
    ensures 0 <= x * y <= (m - 1) * (m - 1)
  {
    MulMono(x, 0, y);
    MulMono(x, y, m - 1);
    MulMono(m - 1, x, m - 1);
  }

  /** If a multiple of `d` lies strictly between `-d` and `d`, it is zero. */
  lemma MultipleInRange(k: int, d: int)
    requires 0 < d && -d < k * d < d
    ensures k == 0
  {
    if k >= 1 {
      MulMono(d, 1, k);
    } else if k <= -1 {
      MulMono(d, k, -1);
    }
  }

  lemma DivBounds(n: int, d: int)
    requires 0 < d
    ensures n == (n / d) * d + n % d && 0 <= n % d < d
    ensures (n / d) * d <= n < (n / d) * d + d
    ensures 0 <= n ==> 0 <= n / d
  {
    if 0 <= n {
      MulDist(d, n / d, 1);
      MulCancel(-1, n / d, d);
    }
  }

  /** Quotient and remainder are unique. */
  lemma DivModUnique(n: int, d: int, q: int, r: int)
    requires 0 < d && 0 <= r < d && n == q * d + r
    ensures n / d == q && n % d == r
  {
    var k := q - n / d;
    assert n == (n / d) * d + n % d;
    MulSub(d, q, n / d);
    MultipleInRange(k, d);
  }

  /** A digit and what lies below it are determined by the number they make up. */
  lemma DigitUnique(p: int, lo: int, x: int, lo': int, x': int)
    requires 0 <= lo < p && 0 <= lo' < p && lo + p * x == lo' + p * x'
    ensures lo == lo' && x == x'
  {
    DivModUnique(lo + p * x, p, x, lo);
    DivModUnique(lo + p * x, p, x', lo');
  }

  /** x in units of k, rounded up. */
  function RoundUp(x: nat, k: nat): (n: nat)
    requires 0 < k
    ensures x <= k * n < x + k
  {
    DivBounds(x + k - 1, k);
    (x + k - 1) / k
  }
}
