/**
 Computing the reciprocal of a normalised divisor with half-word divisions only.
 The three stages follow the code: the high half of the reciprocal of u1, its low
 half, and the adjustment that turns the reciprocal of u1 into that of u1*B + u0.
 */
module Inverse {
  import opened Arith
  import opened Powers
  import opened Limbs
  import opened Words
  import opened Reciprocal
  import opened WordDivision

  /** The reciprocal of d1*B + d0: floor((B^3 - 1) / (d1*B + d0)) - B. */
  method Invert3by2(u1: Limb, u0: Limb) returns (m: Limb)
    requires u1 >= B / 2
    ensures IsInverse3by2(B, u1 * B + u0, m)
  {
    var qh, r := HighHalf(u1);
    m, r := LowHalf(u1, qh, r);
    if u0 > 0 {
      m := AdjustForLowLimb(u1, u0, m, r);
    } else {
      ScaleInverse(u1, m);
    }
  }

  /** The reciprocal of a single limb, as `Invert3by2(u1, 0)`. */
  method InvertLimb(u1: Limb) returns (m: Limb)
    requires u1 >= B / 2
    ensures IsInverse2by1(B, u1, m)
  {
    m := Invert3by2(u1, 0);
    UnscaleInverse(u1, m);
  }

  // The 3/2 reciprocal of u1*B and the 2/1 reciprocal of u1 are the same number.
  lemma ScaleInverse(u1: Limb, m: Limb)
    requires IsInverse2by1(B, u1, m)
    ensures IsInverse3by2(B, u1 * B, m)
  {
    assert (B + m) * (u1 * B) == (B + m) * u1 * B by { MulAssoc(B + m, u1, B); }
  }

  lemma UnscaleInverse(u1: Limb, m: Limb)
    requires IsInverse3by2(B, u1 * B + 0, m)
    ensures IsInverse2by1(B, u1, m)
  {
    assert (B + m) * (u1 * B) == (B + m) * u1 * B by { MulAssoc(B + m, u1, B); }
  }

  // ---- Stage 1: the high half ----

  /** qh is the half-word 3/2 reciprocal of u1 and r its remainder. */
  method HighHalf(u1: Limb) returns (qh: Limb, r: Limb)
    requires u1 >= B / 2
    ensures qh < H && (H + qh) * u1 + r == H * B - 1 && r < u1
  {
    var ul, uh := u1 % H, u1 / H;
    var q: int := (B - 1 - u1) / uh;  // complement of u1, divided by its high half
    ghost var q0 := q;
    assert 0 <= q < H && 0 <= B - 1 - u1 - q * uh < uh by { HighEstimate(u1, uh, q); }
    // shifted up by half a word, with the low half set to ones
    r := (B - 1 - u1 - q * uh) * H + (H - 1);
    ProductBound(q, ul, H);
    var p: Limb := q * ul;
    HighRemainder(u1, ul, uh, q, r, p);
    if r < p {
      q := q - 1;
      r := AddW(r, u1);
      if r >= u1 {       // no carry when adding to r
        if r < p {
          q := q - 1;
          r := AddW(r, u1);
        }
      }
    }
    r := SubW(r, p);
    MulSub(u1, q0 + H, 1);
    MulSub(u1, q0 + H - 1, 1);
    assert (H + q) * u1 + r == H * B - 1 && r < u1;
    HighFits(u1, q, r);
    qh := q;
  }

  lemma HighEstimate(u1: Limb, uh: int, q: int)
    requires u1 >= B / 2 && uh == u1 / H && q == (B - 1 - u1) / uh
    ensures 0 <= q < H && 0 <= B - 1 - u1 - q * uh < uh
  {
    DivBounds(B - 1 - u1, uh);
    MulCancel(q, H, uh);
  }

  lemma HighRemainder(u1: Limb, ul: int, uh: int, q: int, r: int, p: int)
    requires u1 == uh * H + ul && p == q * ul && r == (B - 1 - u1 - q * uh) * H + (H - 1)
    ensures (H + q) * u1 + (r - p) == H * B - 1
  {
    MulDist(u1, H, q);
    MulDist(q, uh * H, ul);
    MulAssoc(q, uh, H);
  }

  lemma HighFits(u1: Limb, q: int, r: int)
    requires u1 >= B / 2 && (H + q) * u1 + r == H * B - 1 && 0 <= r < u1
    ensures 0 <= q < H
  {
    MulDist(u1, H + q, 1);
    MulCancel(H, H + q + 1, u1);
    MulCancel(H + q, 2 * H, u1);
  }

  // ---- Stage 2: the low half ----

  /** m is the 2/1 reciprocal of u1 and r its remainder. */
  method LowHalf(u1: Limb, qh: Limb, rh: Limb) returns (m: Limb, r: Limb)
    requires u1 >= B / 2
    requires qh < H && (H + qh) * u1 + rh == H * B - 1 && rh < u1
    ensures (B + m) * u1 + r == BB - 1 && r < u1
    ensures IsInverse2by1(B, u1, m)
  {
    // a 3/2 division on half-limbs, for which qh is a suitable inverse
    var p: Limb := LowEstimate(u1, qh, rh);
    var ql: Limb := p / H + 1;
    ghost var t: int := rh * H + (H - 1) - (p / H + 1) * u1;
    r := SubW(AddW(rh * H % B, H - 1), MulW(ql, u1));
    LowRemainder(u1, rh, p / H, t, r);
    if r >= p * H % B {
      ql := SubW(ql, 1);
      r := AddW(r, u1);
    }
    m := AddW(qh * H % B, ql);
    if r >= u1 {
      m := AddW(m, 1);
      r := SubW(r, u1);
    }
    LowExact(u1, qh, rh, p, t, m, r);
  }

  /** The estimate p fits a limb, and bounds the remainder. */
  method LowEstimate(u1: Limb, qh: Limb, rh: Limb) returns (p: Limb)
    requires u1 >= B / 2
    requires qh < H && (H + qh) * u1 + rh == H * B - 1 && rh < u1
    ensures p == rh / H * qh + rh
    ensures var t: int := rh * H + (H - 1) - (p / H + 1) * u1;
      && 0 <= t + u1 && p % H * H - B <= t
      && (t < B - u1 || t < p % H * H)
  {
    var n2, n1 := rh / H, rh % H;
    assert (H + qh) * n2 + n1 == n2 * qh + rh by { MulDist(n2, H, qh); }
    EstimateFits3by2(H, u1, qh, n2, n1);
    p := n2 * qh + rh;
    Candidate3by2(H, u1, qh, n2, n1, H - 1, p / H, p % H);
  }

  lemma LowRemainder(u1: Limb, rh: Limb, q1: int, t: int, r: Limb)
    requires 0 <= q1 < H && t == rh * H + (H - 1) - (q1 + 1) * u1 && -B <= t < B
    requires r == SubW(AddW(rh * H % B, H - 1), MulW(q1 + 1, u1))
    ensures r == if t < 0 then t + B else t
  {
    ShiftHalf(rh);
    var m, s := (q1 + 1) * u1, AddW(rh * H % B, H - 1);
    var k := m / B - rh / H + (if s >= m % B then 0 else 1);
    Residue(B, r, t, k);
  }

  /** Shifting a limb up by half a word drops its high half. */
  lemma ShiftHalf(x: Limb)
    ensures x * H % B == x % H * H && x * H / B == x / H
  {
    DivModUnique(x * H, B, x / H, x % H * H);
  }

  lemma LowExact(u1: Limb, qh: Limb, rh: Limb, p: Limb, t: int, m: Limb, r: Limb)
    requires u1 >= B / 2
    requires qh < H && (H + qh) * u1 + rh == H * B - 1 && rh < u1
    requires t == rh * H + (H - 1) - (p / H + 1) * u1
    requires 0 <= t + u1 && p % H * H - B <= t && (t < B - u1 || t < p % H * H)
    requires var ra := if t < 0 then t + B else t;
      var qb, rb := if ra >= p * H % B then p / H else p / H + 1, if ra >= p * H % B then AddW(ra, u1) else ra;
      var mb := AddW(qh * H % B, qb);
      m == (if rb >= u1 then AddW(mb, 1) else mb) && r == if rb >= u1 then SubW(rb, u1) else rb
    ensures (B + m) * u1 + r == BB - 1 && r < u1
    ensures IsInverse2by1(B, u1, m)
  {
    var q1, w := p / H, p * H % B;
    ShiftHalf(p);
    MulDist(u1, q1, 1);
    LowCases(u1, rh, q1, w, q1 * u1, t, qh * H % B, m, r);
    assert qh * H % B == qh * H;
    if t < 0 {
      LowSum(u1, qh, rh, q1, m, r);
    } else if t < u1 {
      LowSum(u1, qh, rh, q1 + 1, m, r);
    } else {
      MulDist(u1, q1, 2);
      LowSum(u1, qh, rh, q1 + 2, m, r);
    }
  }

  lemma LowCases(u1: Limb, rh: Limb, q1: Limb, w: int, y: int, t: int, top: Limb, m: Limb, r: Limb)
    requires u1 >= B / 2 && q1 < H && 0 <= w < B && t == rh * H + (H - 1) - (y + u1)
    requires 0 <= t + u1 && w - B <= t && (t < B - u1 || t < w)
    requires var ra := if t < 0 then t + B else t;
      var qb, rb := if ra >= w then q1 else q1 + 1, if ra >= w then AddW(ra, u1) else ra;
      var mb := AddW(top, qb);
      m == (if rb >= u1 then AddW(mb, 1) else mb) && r == if rb >= u1 then SubW(rb, u1) else rb
    ensures r < u1 && y + (if t < 0 then 0 else if t < u1 then u1 else 2 * u1) + r == rh * H + (H - 1)
    ensures m == AddW(top, q1 + if t < 0 then 0 else if t < u1 then 1 else 2)
  {
  }

  lemma LowSum(u1: Limb, qh: Limb, rh: Limb, a: int, m: Limb, r: Limb)
    requires u1 >= B / 2 && qh < H && (H + qh) * u1 + rh == H * B - 1
    requires 0 <= a < B && a * u1 + r == rh * H + (H - 1) && r < u1
    requires m == AddW(qh * H, a)
    ensures (B + m) * u1 + r == BB - 1
    ensures IsInverse2by1(B, u1, m)
  {
    var M := qh * H + a;
    assert (B + M) * u1 + r == BB - 1 by {
      MulDist(u1, (H + qh) * H, a);
      MulAssoc(H + qh, H, u1);
    }
    assert 0 <= M < B by {
      MulCancel(B + M, 2 * B, u1);
    }
    assert m == M;
  }

  // ---- Stage 3: account for the low limb ----

  /** From the reciprocal of u1 to that of u1*B + u0. */
  method AdjustForLowLimb(u1: Limb, u0: Limb, m2: Limb, r2: Limb) returns (m: Limb)
    requires u1 >= B / 2 && 0 < u0
    requires (B + m2) * u1 + r2 == BB - 1 && r2 < u1
    ensures IsInverse3by2(B, u1 * B + u0, m)
  {
    m := m2;
    var r: Limb := B - 1 - r2;
    r := AddW(r, u0);
    FoldLowLimb(u1, u0, m2, r2, r);
    if r < u0 {
      m := m - 1;
      if r >= u1 {
        m := m - 1;
        r := SubW(r, u1);
      }
      r := SubW(r, u1);
    }
    m := FinalAdjust(u1, u0, m, r);
  }

  /** How far (B + m) * (u1*B + u0) falls short of B^3, in each of the three cases of the first adjustment. */
  lemma FoldLowLimb(u1: Limb, u0: Limb, m: Limb, r2: Limb, r: Limb)
    requires u1 >= B / 2 && 0 < u0
    requires (B + m) * u1 + r2 == BB - 1 && r2 < u1 && r == AddW(B - 1 - r2, u0)
    ensures var c := if r >= u0 then 0 else if r < u1 then 1 else 2;
      var rc: int := if r >= u0 then r else if r < u1 then r - u1 + B else r - 2 * u1 + B;
      && c <= m
      && BBB - (B + (m - c)) * (u1 * B + u0) == BB - B * rc - (m - c) * u0 <= u1 * B + u0
  {
    Gap(u1, u0, m, r2);
    GapStep(u1, u0, m - 1);
    GapStep(u1, u0, m - 2);
    MulNonNeg(m, u0);
    if r < u0 {
      GapPositive(u1, u0, m);
      MulNonNeg(m - 1, u0);
      if r >= u1 {
        GapPositive(u1, u0, m - 1);
        MulNonNeg(m - 2, u0);
      }
    }
  }

  lemma Gap(u1: Limb, u0: Limb, m: Limb, r: Limb)
    requires (B + m) * u1 + r == BB - 1
    ensures BBB - (B + m) * (u1 * B + u0) == B * (1 + r) - B * u0 - m * u0
  {
    MulDist(B + m, u1 * B, u0);
    MulAssoc(B + m, u1, B);
    MulDist(u0, B, m);
  }

  /** Decrementing m widens the gap by one divisor. */
  lemma GapStep(u1: Limb, u0: Limb, m: int)
    ensures BBB - (B + m) * (u1 * B + u0) == BBB - (B + (m + 1)) * (u1 * B + u0) + (u1 * B + u0)
    ensures m * u0 == (m + 1) * u0 - u0
  {
    MulDist(u1 * B + u0, B + m, 1);
    MulDist(u0, m, 1);
  }

  /** While the gap is not positive there is something to decrement. */
  lemma GapPositive(u1: Limb, u0: Limb, m: int)
    requires m >= 0 && (B + m) * (u1 * B + u0) >= BBB
    ensures m >= 1
  {
    MulCancel(B, B + m, u1 * B + u0);
  }

  /** The last comparison, with the product m * u0 brought in. */
  method FinalAdjust(u1: Limb, u0: Limb, m1: Limb, r1: Limb) returns (m: Limb)
    requires u1 >= B / 2 && 0 < u0
    requires BBB - (B + m1) * (u1 * B + u0) == BB - B * r1 - m1 * u0 <= u1 * B + u0
    ensures IsInverse3by2(B, u1 * B + u0, m)
  {
    m := m1;
    var th, tl := UmulPpmm(u0, m);
    var r := AddW(r1, th);
    ghost var d: int := u1 * B + u0;
    ghost var gap := BBB - (B + m) * d;
    if r < th {
      assert gap == -B * r - tl;
      GapPositive(u1, u0, m);
      m := m - 1;
      GapStep(u1, u0, m);
      assert BBB - (B + m) * d == B * (u1 - r) + u0 - tl;
      NotADivisor(u1, u0, m);
      if r > u1 || (r == u1 && tl > u0) {
        GapPositive(u1, u0, m);
        m := m - 1;
        GapStep(u1, u0, m);
        assert BBB - (B + m) * d == B * (2 * u1 - r) + 2 * u0 - tl;
      }
    } else {
      assert gap == BB - B * (r1 + th) - tl;
    }
    assert (B + m) * d < BBB <= (B + m) * d + d;
  }

  /**
   d = u1*B + u0 with u0 > 0 never divides B^3, so the code's strict test `tl > u0`
   decides as `tl >= u0` would.
   */
  lemma NotADivisor(u1: Limb, u0: Limb, m: int)
    requires u1 >= B / 2 && 0 < u0
    ensures (B + m) * (u1 * B + u0) != BBB
  {
    var d: int := u1 * B + u0;
    if (B + m) * d == BBB {
      Pow2Constants();
      Pow2Add(64, 64);
      Pow2Add(128, 64);
      Pow2Add(64, 63);
      var k := DivisorOfPow2(d, B + m, 192);
      if k <= 127 {
        Pow2Monotone(k, 127);
      } else {
        Pow2Monotone(128, k);
      }
      assert false;
    }
  }
}
