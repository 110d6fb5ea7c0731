/**
 The theory of division by a precomputed reciprocal, for an arbitrary word base.

 A quotient digit is estimated from the high half of (reciprocal x high limbs); the
 lemmas below bound the remainder of that estimate, which is what makes a single
 comparison with the low half enough to correct it.
 */
module Reciprocal {
  import opened Arith

  /** `v` is floor((base^3 - 1) / d) - base for a normalised two-word divisor `d`. */
  ghost predicate IsInverse3by2(base: int, d: int, v: int) {
    && 2 <= base && base * base <= 2 * d && d < base * base && 0 <= v < base
    && (base + v) * d < base * (base * base) <= (base + v) * d + d
  }

  /** `v` is floor((base^2 - 1) / d) - base for a normalised one-word divisor `d`. */
  ghost predicate IsInverse2by1(base: int, d: int, v: int) {
    && 2 <= base && base <= 2 * d && d < base && 0 <= v < base
    && (base + v) * d < base * base <= (base + v) * d + d
  }

  /** The defining inequalities are those of the floor quotient. */
  lemma InverseIsFloor(base: int, d: int, v: int)
    ensures IsInverse3by2(base, d, v) ==> v == (base * (base * base) - 1) / d - base
    ensures IsInverse2by1(base, d, v) ==> v == (base * base - 1) / d - base
  {
    if IsInverse3by2(base, d, v) {
      var n := base * (base * base) - 1;
      DivModUnique(n, d, base + v, n - (base + v) * d);
    }
    if IsInverse2by1(base, d, v) {
      var n := base * base - 1;
      DivModUnique(n, d, base + v, n - (base + v) * d);
    }
  }

  // ---- 3/2 division ----

  lemma ErrorExpanded(base: int, S: int, d: int, n2: int, n1: int, n0: int, q1: int)
    ensures base * (n2 * S + n1 * base + n0 - (q1 + 1) * d)
         == base * (n2 * S) + base * (n1 * base) + base * n0 - ((base * q1) * d + base * d)
  {
    MulSub(base, n2 * S + n1 * base + n0, (q1 + 1) * d);
    MulDist(base, n2 * S + n1 * base, n0);
    MulDist(base, n2 * S, n1 * base);
    MulAssoc(base, q1 + 1, d);
    MulDist(base, q1, 1);
    MulDist(d, base * q1, base);
  }

  /** base times the remainder of the estimate, in terms of the reciprocal's own error `k`. */
  lemma Error3by2(base: int, S: int, d: int, v: int, k: int,
                  n2: int, n1: int, n0: int, q1: int, q0: int)
    requires S == base * base && k == base * S - (base + v) * d
    requires q1 * base + q0 == (base + v) * n2 + n1
    ensures base * (n2 * S + n1 * base + n0 - (q1 + 1) * d)
         == n1 * (S - d) + n0 * base + k * n2 - (base - q0) * d
  {
    ErrorExpanded(base, S, d, n2, n1, n0, q1);
    ErrorProduct(base, d, (base + v) * n2, n1, q1, q0);
    ErrorReciprocal(base, S, d, v, k, n2);
    MulAssoc(n1, base, base);
    MulSub(n1, S, d);
    MulSub(d, base, q0);
  }

  lemma ErrorProduct(base: int, d: int, e: int, n1: int, q1: int, q0: int)
    requires q1 * base + q0 == e + n1
    ensures (base * q1) * d == e * d + n1 * d - q0 * d
  {
    MulSub(d, e + n1, q0);
    MulDist(d, e, n1);
  }

  lemma ErrorReciprocal(base: int, S: int, d: int, v: int, k: int, n2: int)
    requires k == base * S - (base + v) * d
    ensures ((base + v) * n2) * d == base * (n2 * S) - k * n2
  {
    MulAssoc(base + v, n2, d);
    MulSub(n2, base * S, k);
    MulAssoc(base, S, n2);
  }

  /** The estimate fits one word. */
  lemma EstimateFits3by2(base: int, d: int, v: int, n2: int, n1: int)
    requires IsInverse3by2(base, d, v)
    requires 0 <= n2 && 0 <= n1 && n2 * base + n1 < d
    ensures 0 <= (base + v) * n2 + n1 < base * base
  {
    var E := (base + v) * n2 + n1;
    MulNonNeg(base + v, n2);
    assert base * E < base * (base * base) by {
      MulDist(base, (base + v) * n2, n1);
      assert base * ((base + v) * n2) == (base + v) * (n2 * base) by { MulAssoc(base + v, n2, base); }
      MulDist(base + v, n2 * base, n1);
      MulDist(n1, base, v);
      MulNonNeg(v, n1);
      MulMono(base + v, n2 * base + n1, d);
    }
    MulCancel(E, base * base, base);
  }

  /** How large the error term can get when the divisor is not within one word of base^2. */
  lemma ErrorBound3by2(base: int, S: int, d: int, k: int, n2: int, n1: int, n0: int)
    requires 2 <= base && S == base * base && 0 < d && base <= S - d
    requires 1 <= k <= d && 0 <= n2 && 0 <= n1 < base && 0 <= n0 < base && n2 * base + n1 < d
    ensures base * (n1 * (S - d) + n0 * base + k * n2) <= S * (S - d) - S + d * d
  {
    var delta := S - d;
    MulDist(base, n1 * delta + n0 * base, k * n2);
    MulDist(base, n1 * delta, n0 * base);
    assert base * (n1 * delta) == n1 * (base * delta) by {
      MulAssoc(base, n1, delta);
      MulAssoc(n1, base, delta);
    }
    assert base * (n0 * base) <= S * (base - 1) by {
      MulAssoc(n0, base, base);
      MulMono(S, n0, base - 1);
    }
    assert base * (k * n2) <= d * (d - 1 - n1) by {
      assert base * (k * n2) == k * (n2 * base) by { MulAssoc(k, n2, base); }
      MulNonNeg(n2, base);
      MulMono(n2 * base, k, d);
      MulMono(d, n2 * base, d - 1 - n1);
    }
    ErrorSum(base, S, d, n1);
  }

  lemma ErrorSum(base: int, S: int, d: int, n1: int)
    requires 2 <= base && S == base * base && 0 < d && base <= S - d && n1 <= base - 1
    ensures n1 * (base * (S - d)) + S * (base - 1) + d * (d - 1 - n1) <= S * (S - d) - S + d * d
  {
    var c := base * (S - d) - d;
    assert n1 * c <= (base - 1) * c by {
      MulMono(base, base, S - d);
      MulMono(c, n1, base - 1);
    }
    MulSub(n1, base * (S - d), d);
    MulSub(d, d - 1, n1);
    MulSub(d, d, 1);
    MulSub(c, base, 1);
    MulSub(base, base * (S - d), d);
    MulAssoc(base, base, S - d);
    MulSub(S, base, 1);
    MulSub(base, S, d);
  }

  /** base^2 * r in terms of the error, once the comparison with q0 has gone one way. */
  lemma ScaledUpper(base: int, S: int, d: int, err: int, q0: int, r: int)
    requires 0 < base && S == base * base && 0 < d
    requires base * r == err - (base - q0) * d && q0 * base <= r
    ensures r * (S - d) <= base * err - S * d
  {
    MulSub(d, base, q0);
    assert base * (base * r) == base * err - base * (base * d) + base * (q0 * d) by {
      MulDist(base, err - base * d, q0 * d);
      MulSub(base, err, base * d);
    }
    MulAssoc(base, base, r);
    MulAssoc(base, base, d);
    assert base * (q0 * d) == (q0 * base) * d by { MulAssoc(q0, base, d); MulAssoc(base, q0, d); }
    MulMono(d, q0 * base, r);
    MulSub(r, S, d);
  }

  /** Upper bound when the divisor is not within one word of base^2. */
  lemma Upper3by2(base: int, S: int, d: int, k: int, n2: int, n1: int, n0: int, q0: int, r: int)
    requires 2 <= base && S == base * base && 0 < d && base <= S - d
    requires 1 <= k <= d && 0 <= n2 && 0 <= n1 < base && 0 <= n0 < base && 0 <= q0 < base
    requires n2 * base + n1 < d
    requires base * r == n1 * (S - d) + n0 * base + k * n2 - (base - q0) * d
    ensures r < S - d || r < q0 * base
  {
    if q0 * base <= r {
      ScaledUpper(base, S, d, n1 * (S - d) + n0 * base + k * n2, q0, r);
      ErrorBound3by2(base, S, d, k, n2, n1, n0);
      assert S * (S - d) + d * d - S * d == (S - d) * (S - d) by {
        MulSub(S, S, d);
        MulSub(S - d, S, d);
        MulSub(d, S, d);
      }
      assert r * (S - d) < (S - d) * (S - d) by { MulPositive(base, base); }
      MulCancel(r, S - d, S - d);
    }
  }

  /** Upper bound when the divisor is within one word of base^2: the reciprocal is zero. */
  lemma UpperTop3by2(base: int, S: int, d: int, v: int, n2: int, n1: int, n0: int, q1: int, q0: int)
    requires IsInverse3by2(base, d, v) && S == base * base && S - d < base
    requires 0 <= n2 < base && 0 <= n1 < base && 0 <= n0 < base && 0 <= q0 < base
    requires q1 * base + q0 == (base + v) * n2 + n1
    ensures n2 * S + n1 * base + n0 - (q1 + 1) * d < q0 * base
  {
    assert v == 0 by {
      if v >= 1 {
        MulMono(d, 1, v);
        MulDist(d, base, v);
        MulSub(base, S, d);
        MulMono(base, S - d, base - 1);
        MulSub(base, base, 1);
      }
    }
    assert q1 == n2 && q0 == n1 by {
      assert (base + v) * n2 == n2 * base;
      DivModUnique(n2 * base + n1, base, n2, n1);
      DivModUnique(n2 * base + n1, base, q1, q0);
    }
    MulDist(d, n2, 1);
    MulSub(n2, S, d);
    MulNonNeg(n2, S - d);
    ProductBound(n2, S - d, base);
    assert (base - 1) * (base - 1) == S - 2 * base + 1 by {
      MulSub(base - 1, base, 1);
      MulSub(base, base, 1);
    }
  }

  lemma Lower3by2(base: int, S: int, d: int, q0: int, r: int)
    requires 0 < base && S == base * base && 0 <= q0 < base && 0 < d < S
    requires base * r >= -((base - q0) * d)
    ensures -d <= r && (q0 - base) * base < r
  {
    LowerBounds(base, d, S, q0, r);
    assert (q0 - base) * S == base * ((q0 - base) * base) by { MulAssoc(q0 - base, base, base); }
    MulCancel((q0 - base) * base, r, base);
  }

  /** Everything the correction step of a 3/2 division needs to know about the estimate q1. */
  lemma Candidate3by2(base: int, d: int, v: int, n2: int, n1: int, n0: int, q1: int, q0: int)
    requires IsInverse3by2(base, d, v)
    requires 0 <= n2 < base && 0 <= n1 < base && 0 <= n0 < base && n2 * base + n1 < d
    requires 0 <= q0 < base && q1 * base + q0 == (base + v) * n2 + n1
    ensures 0 <= q1 < base
    ensures var r := n2 * (base * base) + n1 * base + n0 - (q1 + 1) * d;
      && -d <= r && (q0 - base) * base <= r
      && (r < base * base - d || r < q0 * base)
  {
    var S := base * base;
    var k := base * S - (base + v) * d;
    var r := n2 * S + n1 * base + n0 - (q1 + 1) * d;
    EstimateFits3by2(base, d, v, n2, n1);
    HighPart(base, q1, q0);
    Error3by2(base, S, d, v, k, n2, n1, n0, q1, q0);
    assert base * r >= -((base - q0) * d) by {
      MulNonNeg(n1, S - d);
      MulNonNeg(n0, base);
      MulNonNeg(k, n2);
    }
    Lower3by2(base, S, d, q0, r);
    if base <= S - d {
      Upper3by2(base, S, d, k, n2, n1, n0, q0, r);
    } else {
      UpperTop3by2(base, S, d, v, n2, n1, n0, q1, q0);
    }
  }

  // ---- 2/1 division ----

  /** base times the remainder of the estimate, in terms of the reciprocal's own error `k`. */
  lemma Error2by1(base: int, d: int, v: int, k: int, nh: int, nl: int, q1: int, q0: int)
    requires k == base * base - (base + v) * d
    requires q1 * base + q0 == (base + v) * nh + nl
    ensures base * (nh * base + nl - (q1 + 1) * d) == nl * (base - d) + k * nh - (base - q0) * d
  {
    MulSub(base, nh * base + nl, (q1 + 1) * d);
    MulDist(base, nh * base, nl);
    assert base * ((q1 + 1) * d) == (q1 * base) * d + base * d by {
      MulAssoc(base, q1 + 1, d);
      MulDist(base, q1, 1);
      MulDist(d, base * q1, base);
    }
    assert (q1 * base) * d == ((base + v) * nh) * d + nl * d - q0 * d by {
      assert q1 * base == (base + v) * nh + nl - q0;
      MulSub(d, (base + v) * nh + nl, q0);
      MulDist(d, (base + v) * nh, nl);
    }
    assert ((base + v) * nh) * d == base * (nh * base) - k * nh by {
      MulAssoc(base + v, nh, d);
      MulSub(nh, base * base, k);
      MulAssoc(base, base, nh);
    }
    MulSub(nl, base, d);
    MulSub(d, base, q0);
  }

  /** The estimate fits one word. */
  lemma EstimateFits2by1(base: int, d: int, v: int, nh: int, nl: int)
    requires IsInverse2by1(base, d, v)
    requires 0 <= nh < d && 0 <= nl < base
    ensures 0 <= (base + v) * nh + nl < base * base
  {
    MulNonNeg(base + v, nh);
    MulMono(base + v, nh, d - 1);
    MulSub(base + v, d, 1);
  }

  /** The high part of a number below base^2 is a word. */
  lemma HighPart(base: int, q1: int, q0: int)
    requires 0 <= q0 < base && 0 <= q1 * base + q0 < base * base
    ensures 0 <= q1 < base
  {
    MulCancel(q1, base, base);
    MulDist(base, q1, 1);
    MulCancel(-1, q1, base);
  }

  /** Lower bounds on r from base * r >= -((base - q0) * d), for a divisor below `top`. */
  lemma LowerBounds(base: int, d: int, top: int, q0: int, r: int)
    requires 0 < base && 0 <= q0 < base && 0 < d < top && base * r >= -((base - q0) * d)
    ensures -d <= r && (q0 - base) * top < base * r
  {
    MulMono(d, base - q0, base);
    MulDist(base, -d, -1);
    MulDist(base, r, 1);
    MulSub(base, r, 0);
    assert base * (-d - 1) < base * r;
    MulCancel(-d - 1, r, base);
    MulMono(base - q0, d, top - 1);
    MulSub(base - q0, top, 1);
    MulSub(top, base, q0);
    MulSub(top, q0, base);
  }

  /** Everything the correction step of a 2/1 division needs to know about the estimate q1. */
  lemma Candidate2by1(base: int, d: int, v: int, nh: int, nl: int, q1: int, q0: int)
    requires IsInverse2by1(base, d, v)
    requires 0 <= nh < d && 0 <= nl < base
    requires 0 <= q0 < base && q1 * base + q0 == (base + v) * nh + nl
    ensures 0 <= q1 < base
    ensures var r := nh * base + nl - (q1 + 1) * d;
      -d <= r && q0 - base < r && (r < base - d || r < q0)
  {
    var k := base * base - (base + v) * d;
    var r := nh * base + nl - (q1 + 1) * d;
    EstimateFits2by1(base, d, v, nh, nl);
    HighPart(base, q1, q0);
    Error2by1(base, d, v, k, nh, nl, q1, q0);
    MulNonNeg(nl, base - d);
    MulNonNeg(k, nh);
    LowerBounds(base, d, base, q0, r);
    MulCancel(q0 - base, r, base);
    Upper2by1(base, d, k, nh, nl, q0, r);
  }

  lemma Upper2by1(base: int, d: int, k: int, nh: int, nl: int, q0: int, r: int)
    requires 2 <= base <= 2 * d && d < base && 1 <= k <= d
    requires 0 <= nh < d && 0 <= nl < base
    requires base * r == nl * (base - d) + k * nh - (base - q0) * d
    ensures r < base - d || r < q0
  {
    if q0 <= r {
      assert nl * (base - d) <= (base - 1) * (base - d) by { MulMono(base - d, nl, base - 1); }
      assert k * nh <= d * (d - 1) by { MulMono(nh, k, d); MulMono(d, nh, d - 1); }
      assert q0 * d <= r * d by { MulMono(d, q0, r); }
      assert (base - q0) * d == base * d - q0 * d by { MulSub(d, base, q0); }
      assert r * (base - d) == base * r - r * d by { MulSub(r, base, d); }
      Squares(base, d);
      MulCancel(r, base - d, base - d);
    }
  }

  lemma Squares(base: int, d: int)
    ensures (base - 1) * (base - d) == base * base - base * d - base + d
    ensures (base - d) * (base - d) == base * base - 2 * (base * d) + d * d
    ensures d * (d - 1) == d * d - d
  {
    MulSub(base - d, base, 1);
    MulSub(base, base, d);
    MulSub(base - d, base, d);
    MulSub(d, base, d);
    MulSub(d, d, 1);
  }
}
