/**
 Schoolbook division of a run of limbs by a normalised divisor of more than two limbs,
 and the general division that normalises, divides and shifts the remainder back.
 */
module Schoolbook {
  import opened Arith
  import opened Powers
  import opened Limbs
  import opened Words
  import opened Bits
  import opened Reciprocal
  import opened WordDivision
  import opened Inverse
  import opened Mpn
  import opened MpnDiv

  /** A run read as its top two limbs and the rest. */
  lemma TopTwo(s: seq<Limb>, n: nat)
    requires 2 <= n <= |s|
    ensures Low(s, n) == Low(s, n - 2) + Pw(n - 2) * (s[n - 1] * B + s[n - 2])
    ensures Pw(n) == BB * Pw(n - 2)
  {
    var p, x, y := Pw(n - 2), s[n - 1], s[n - 2];
    assert Low(s, n) == Low(s, n - 2) + p * y + (B * p) * x;
    MulAssoc(B, p, x);
    MulAssoc(p, x, B);
    MulDist(p, x * B, y);
  }

  // ---- one quotient digit ----

  /** When the top limbs of the window equal the divisor's, B - 1 is the quotient digit. */
  lemma MaxDigit(W: int, D: int, n: int, R: int, pt: int, dlow: int, p: int)
    requires W == n + B * R && 0 <= n < B && R < D
    requires W >= B * pt && D == pt + dlow && 0 <= dlow < p && B * p <= pt
    ensures 0 <= W - (B - 1) * D < D
  {}

  /** The remainder of the trial digit, from the remainder of its top two limbs. */
  lemma TrialDigit(W: int, D: int, p: int, q: int, dd: int, rr: int, L: int, dlow: int, cy: int, L': int, t: int)
    requires W == p * (q * dd + rr) + L && D == p * dd + dlow && t == rr - cy
    requires 1 <= p && 0 <= L < p && 0 <= dlow < p && 0 <= L' < p && 0 <= q < B && 0 <= rr < dd && B <= dd
    requires L' - p * cy == L - dlow * q
    ensures W - q * D == p * t + L'
    ensures -D < W - q * D < D
    ensures t < 0 ==> q >= 1 && W - q * D < 0
    ensures t >= 0 ==> W - q * D >= 0
  {
    assert W - q * D == p * rr + L - dlow * q by {
      MulDist(p, q * dd, rr);
      MulDist(q, p * dd, dlow);
      MulAssoc(p, q, dd);
      MulAssoc(q, p, dd);
    }
    MulSub(p, rr, cy);
    MulNonNeg(dlow, q);
    assert dlow * q <= B * p by { MulMono(dlow, q, B); MulMono(B, dlow, p); }
    MulMono(p, B, dd);
    assert p * rr + p <= p * dd by { MulMono(p, rr + 1, dd); MulDist(p, rr, 1); }
    MulNonNeg(p, rr);
    if t < 0 {
      MulMono(p, t, -1);
      MulNonNeg(q, dd);
      MulNonNeg(p, q * dd + rr);
      MulCancel(0, q, D);
    } else {
      MulNonNeg(p, t);
    }
  }

  /** Adding the divisor back: the limbs hold the remainder of the digit one smaller. */
  lemma AddBack(p: int, t: int, L': int, n1: int, n0: int, d1: int, d0: int, dlow: int, D: int,
                after: int, c: int, n1': int, e: int)
    requires 1 <= p && n1 * B + n0 == t + BB && D == p * (d1 * B + d0) + dlow
    requires after == p * n0 + L' + dlow + p * d0 - B * p * c && n1' == n1 + d1 + c - B * e
    requires 0 <= n1' < B && 0 <= after < B * p && 0 <= p * t + L' + D < BB * p
    ensures B * p * n1' + after == p * t + L' + D
  {
    var r, x := B * p * n1' + after, p * t + L' + D;
    assert r == x + (1 - e) * (BB * p) by {
      assert B * p * n1' == B * (p * n1) + B * (p * d1) + B * p * c - BB * p * e by {
        AddBackTop(p, n1, d1, c, e, n1');
      }
      assert p * t == B * (p * n1) + p * n0 - BB * p by {
        MulSub(p, n1 * B + n0, BB);
        MulDist(p, n1 * B, n0);
        MulAssoc(p, n1, B);
      }
      assert p * (d1 * B + d0) == B * (p * d1) + p * d0 by {
        MulDist(p, d1 * B, d0);
        MulAssoc(p, d1, B);
      }
      MulSub(BB * p, 1, e);
    }
    MulMono(B * p, n1', B - 1);
    MulNonNeg(B * p, n1');
    MultipleInRange(1 - e, BB * p);
  }

  lemma AddBackTop(p: int, n1: int, d1: int, c: int, e: int, n1': int)
    requires n1' == n1 + d1 + c - B * e
    ensures B * p * n1' == B * (p * n1) + B * (p * d1) + B * p * c - BB * p * e
  {
    MulSub(B * p, n1 + d1 + c, B * e);
    MulDist(B * p, n1 + d1, c);
    MulDist(B * p, n1, d1);
    MulAssoc(B, p, n1);
    MulAssoc(B, p, d1);
    MulAssoc(B * p, B, e);
    MulAssoc(BB, p, e);
  }

  /** The digit B - 1: its multiple is subtracted from the whole window. */
  method MaxDigitStep(np: array<Limb>, i: nat, ghost n1: Limb, dp: array<Limb>, dn: nat) returns (q: Limb, r1: Limb)
    requires 2 < dn <= dp.Length && i + dn <= np.Length && np != dp
    requires 0 <= Val(np[i..i + dn] + [n1]) - (B - 1) * Val(dp[..dn]) < Val(dp[..dn])
    modifies np
    ensures old(Val(np[i..i + dn] + [n1])) == q * Val(dp[..dn]) + Val(np[i..i + dn - 1] + [r1])
    ensures Val(np[i..i + dn - 1] + [r1]) < Val(dp[..dn])
    ensures OnlyChanges(np, i, dn)
  {
    ghost var low, D := np[i..i + dn], dp[..dn];
    q := B - 1;
    assert dp[0..dn] == D;
    ghost var cl := SubMul1(np, i, dp, 0, dn, q);
    r1 := np[dn - 1 + i];
    ValBound(D);
    WindowDropsTop(low, n1, np[i..i + dn], Val(D), q, cl);
    assert np[i..i + dn] == np[i..i + dn - 1] + [r1];
    assert D == dp[..dn];
  }

  /** After subtracting the right multiple, the top limb of the window is spent. */
  lemma WindowDropsTop(low: seq<Limb>, top: Limb, s: seq<Limb>, d: int, q: int, cl: Limb)
    requires |low| == |s| && Val(s) - Pw(|s|) * cl == Val(low) - d * q
    requires 0 <= Val(low + [top]) - q * d < Pw(|s|)
    ensures Val(s) == Val(low + [top]) - q * d
  {
    var p := Pw(|s|);
    ValSnoc(low, top);
    ValBound(s);
    MulSub(p, top, cl);
    MultipleInRange(top - cl, p);
  }

  /** The trial digit q0, with t1*B + t0 left of its top two limbs, and its correction by at most one. */
  method CorrectDigit(np: array<Limb>, i: nat, ghost W: seq<Limb>, dp: array<Limb>, dn: nat,
                      q0: Limb, t1: Limb, t0: Limb)
    returns (q: Limb, r1: Limb)
    requires 2 < dn <= dp.Length && i + dn <= np.Length && np != dp && B / 2 <= dp[dn - 1]
    requires |W| == dn + 1 && W[..dn] == np[i..i + dn]
    requires t1 * B + t0 < dp[dn - 1] * B + dp[dn - 2]
    requires W[dn] * BB + W[dn - 1] * B + W[dn - 2] == q0 * (dp[dn - 1] * B + dp[dn - 2]) + (t1 * B + t0)
    modifies np
    ensures Val(W) == q * Val(dp[..dn]) + Val(np[i..i + dn - 1] + [r1])
    ensures Val(np[i..i + dn - 1] + [r1]) < Val(dp[..dn])
    ensures OnlyChanges(np, i, dn)
  {
    ghost var D, L := dp[..dn], np[i..i + (dn - 2)];
    q := q0;
    assert dp[0..dn - 2] == D[..dn - 2];
    var cy := SubMul1(np, i, dp, 0, dn - 2, q);
    ghost var L', t: int := np[i..i + (dn - 2)], t1 * B + t0 - cy;
    assert L == W[..dn][..dn - 2] == W[..dn - 2];
    var n1, n0;
    WindowTrial(W, D, L, L', q, t1 * B + t0, cy, t);
    n1, n0, cy := SubCarry(t1, t0, cy);
    np[dn - 2 + i] := n0;
    ghost var S := np[i..i + (dn - 1)];
    assert S == L' + [n0];
    LowAgree(L', S, dn - 2);
    if cy != 0 {
      n1, q := AddDivisorBack(np, i, W, dp, dn, t, q, n1);
    } else {
      WindowKeep(W, D, S, t, q, n1);
      assert D == dp[..dn];
      MulSub(Val(D), q, 0);
    }
    r1 := n1;
    assert np[i..i + dn - 1] == np[i..i + (dn - 1)];
  }

  /** A limb taken from a pair of limbs; the borrow tells whether the pair was smaller. */
  method SubCarry(t1: Limb, t0: Limb, c: Limb) returns (n1: Limb, n0: Limb, cy: Limb)
    ensures n1 * B + n0 == t1 * B + t0 - c + cy * BB
    ensures cy == if t1 * B + t0 < c then 1 else 0
  {
    var cy1 := if t0 < c then 1 else 0;
    n0 := SubW(t0, c);
    cy := if t1 < cy1 then 1 else 0;
    n1 := SubW(t1, cy1);
  }

  /** The correction for a digit that was one too large. */
  method AddDivisorBack(np: array<Limb>, i: nat, ghost W: seq<Limb>, dp: array<Limb>, dn: nat,
                        ghost t: int, q0: Limb, n1: Limb) returns (r1: Limb, q: Limb)
    requires 2 < dn <= dp.Length && i + dn <= np.Length && np != dp && q0 >= 1
    requires n1 * B + np[i + dn - 2] == t + BB
    requires Val(W) - q0 * Val(dp[..dn]) == Pw(dn - 2) * t + Low(np[i..i + (dn - 1)], dn - 2)
    requires -Val(dp[..dn]) < Val(W) - q0 * Val(dp[..dn]) < 0
    modifies np
    ensures Val(W) == q * Val(dp[..dn]) + Val(np[i..i + (dn - 1)] + [r1])
    ensures Val(np[i..i + (dn - 1)] + [r1]) < Val(dp[..dn])
    ensures OnlyChanges(np, i, dn - 1)
  {
    ghost var D, S := dp[..dn], np[i..i + (dn - 1)];
    assert dp[0..dn - 1] == D[..dn - 1];
    var c := AddN(np, i, np, i, dp, 0, dn - 1);
    r1 := AddW(n1, AddW(dp[dn - 1], c));
    WindowAddBack(W, D, S, np[i..i + (dn - 1)], t, q0, c, n1, r1);
    q := q0 - 1;
    assert D == dp[..dn];
  }

  /**
   One quotient digit. The window <n1, np[i..i+dn]> divided by the dn limbs of dp; the
   remainder replaces the window, its top limb being returned.
   */
  method DivStep(np: array<Limb>, i: nat, n1: Limb, dp: array<Limb>, dn: nat, dinv: Limb)
    returns (q: Limb, r1: Limb)
    requires 2 < dn <= dp.Length && i + dn <= np.Length && np != dp
    requires B / 2 <= dp[dn - 1] && IsInverse3by2(B, dp[dn - 1] * B + dp[dn - 2], dinv)
    requires Val(np[i + 1..i + dn] + [n1]) < Val(dp[..dn])
    modifies np
    ensures old(Val(np[i..i + dn] + [n1])) == q * Val(dp[..dn]) + Val(np[i..i + dn - 1] + [r1])
    ensures Val(np[i..i + dn - 1] + [r1]) < Val(dp[..dn])
    ensures OnlyChanges(np, i, dn)
  {
    ghost var W, D := np[i..i + dn] + [n1], dp[..dn];
    var d1, d0 := dp[dn - 1], dp[dn - 2];
    var n0 := np[dn - 1 + i];
    assert W[1..] == np[i + 1..i + dn] + [n1];
    UpperStep(W, 0);
    assert W[0..] == W;
    if n1 == d1 && n0 == d0 {
      MaxDigitWindow(W, D, W[1..]);
      q, r1 := MaxDigitStep(np, i, n1, dp, dn);
    } else {
      TopsBelow(W[1..], D);
      q, r1, n0 := UdivQr3by2(n1, n0, np[dn - 2 + i], d1, d0, dinv);
      q, r1 := CorrectDigit(np, i, W, dp, dn, q, r1, n0);
    }
  }

  /** The window of equal top limbs satisfies `MaxDigit`. */
  lemma MaxDigitWindow(w: seq<Limb>, d: seq<Limb>, r: seq<Limb>)
    requires |d| > 2 && |w| == |d| + 1 && r == w[1..] && Val(w) == w[0] + B * Val(r) && Val(r) < Val(d)
    requires w[|d|] == d[|d| - 1] && w[|d| - 1] == d[|d| - 2] && B / 2 <= d[|d| - 1]
    ensures 0 <= Val(w) - (B - 1) * Val(d) < Val(d)
  {
    var n := |d|;
    var p, top := Pw(n - 2), d[n - 1] * B + d[n - 2];
    TopTwo(d, n);
    TopTwo(w, n + 1);
    LowBound(d, n - 2);
    LowBound(w, n - 1);
    MulAssoc(B, p, top);
    MulMono(p, B, top);
    MaxDigit(Val(w), Val(d), w[0], Val(r), p * top, Low(d, n - 2), p);
  }

  /** `TrialDigit` for the limbs of a window. */
  lemma WindowTrial(w: seq<Limb>, d: seq<Limb>, l: seq<Limb>, l': seq<Limb>, q: int, rr: int, cy: int, t: int)
    requires |d| > 2 && |w| == |d| + 1 && |l| == |l'| == |d| - 2 && l == w[..|d| - 2] && B / 2 <= d[|d| - 1]
    requires w[|d|] * BB + w[|d| - 1] * B + w[|d| - 2] == q * (d[|d| - 1] * B + d[|d| - 2]) + rr
    requires 0 <= q < B && 0 <= rr < d[|d| - 1] * B + d[|d| - 2]
    requires Val(l') - Pw(|d| - 2) * cy == Val(l) - Val(d[..|d| - 2]) * q && t == rr - cy
    ensures Val(w) - q * Val(d) == Pw(|d| - 2) * t + Val(l')
    ensures -Val(d) < Val(w) - q * Val(d) < Val(d)
    ensures t < 0 ==> q >= 1 && Val(w) - q * Val(d) < 0
    ensures t >= 0 ==> Val(w) - q * Val(d) >= 0
  {
    var n := |d|;
    var p, dd := Pw(n - 2), d[n - 1] * B + d[n - 2];
    TopTwo(d, n);
    LowSlice(d, n - 2);
    LowSlice(w, n - 2);
    ValBound(l);
    ValBound(l');
    LowBound(d, n - 2);
    TopThree(w, n + 1, q * dd + rr);
    TrialDigit(Val(w), Val(d), p, q, dd, rr, Val(l), Low(d, n - 2), cy, Val(l'), t);
  }

  /** A run read as its top three limbs and the rest. */
  lemma TopThree(s: seq<Limb>, n: nat, top: int)
    requires 3 <= n <= |s| && top == s[n - 1] * BB + s[n - 2] * B + s[n - 3]
    ensures Low(s, n) == Low(s, n - 3) + Pw(n - 3) * top
  {
    var p, x, y := Pw(n - 3), s[n - 1] * B + s[n - 2], s[n - 3];
    TopTwo(s, n);
    assert Low(s, n) == Low(s, n - 3) + p * y + B * p * x;
    MulAssoc(B, p, x);
    MulAssoc(p, x, B);
    MulDist(p, x * B, y);
  }

  /** The top two limbs of a window below the divisor, when they are not the divisor's own. */
  lemma TopsBelow(r: seq<Limb>, d: seq<Limb>)
    requires |r| == |d| > 2 && Val(r) < Val(d)
    requires r[|d| - 1] != d[|d| - 1] || r[|d| - 2] != d[|d| - 2]
    ensures r[|d| - 1] * B + r[|d| - 2] < d[|d| - 1] * B + d[|d| - 2]
  {
    var n := |d|;
    var x, y := r[n - 1] * B + r[n - 2], d[n - 1] * B + d[n - 2];
    TopTwo(r, n);
    TopTwo(d, n);
    LowBound(r, n - 2);
    LowBound(d, n - 2);
    TopAtMost(Pw(n - 2), x, y, Low(r, n - 2), Low(d, n - 2));
  }

  lemma TopAtMost(p: int, x: int, y: int, lo: int, lo': int)
    requires 0 <= lo && 0 <= lo' < p && p * x + lo < p * y + lo'
    ensures x <= y
  {
    MulDist(p, y, 1);
    MulCancel(x, y + 1, p);
  }

  /** No borrow: the limbs hold the remainder. */
  lemma WindowKeep(w: seq<Limb>, d: seq<Limb>, s: seq<Limb>, t: int, q: int, n1: Limb)
    requires |d| > 2 && |s| == |d| - 1 && n1 * B + s[|d| - 2] == t
    requires Val(w) - q * Val(d) == Pw(|d| - 2) * t + Low(s, |d| - 2)
    ensures Val(w) - q * Val(d) == Val(s + [n1])
  {
    TopTwo(s + [n1], |d|);
    LowAgree(s, s + [n1], |d| - 2);
  }

  /** A borrow: after adding the divisor back, the limbs hold the remainder of q - 1. */
  lemma WindowAddBack(w: seq<Limb>, d: seq<Limb>, s: seq<Limb>, s': seq<Limb>, t: int, q: int, c: Limb, n1: Limb, n1': Limb)
    requires |d| > 2 && |s| == |s'| == |d| - 1 && n1 * B + s[|d| - 2] == t + BB && c <= 1
    requires n1' == AddW(n1, AddW(d[|d| - 1], c))
    requires Val(s') + Pw(|d| - 1) * c == Val(s) + Val(d[..|d| - 1])
    requires Val(w) - q * Val(d) == Pw(|d| - 2) * t + Low(s, |d| - 2)
    requires -Val(d) < Val(w) - q * Val(d) < 0
    ensures Val(w) - (q - 1) * Val(d) == Val(s' + [n1'])
    ensures Val(s' + [n1']) < Val(d)
  {
    var n := |d|;
    var p := Pw(n - 2);
    TopTwo(d, n);
    LowSlice(d, n - 1);
    ValBound(s');
    ValBound(d);
    ValSnoc(s', n1');
    var e := (n1 + d[n - 1] + c - n1') / B;
    AddBack(p, t, Low(s, n - 2), n1, s[n - 2], d[n - 1], d[n - 2], Low(d, n - 2), Val(d), Val(s'), c, n1', e);
    MulSub(Val(d), q, 1);
  }

  // ---- the whole division ----

  /**
   <n1, np> divided by a normalised divisor dp of more than two limbs: the quotient goes
   to qp (when wanted), the remainder to the low dn limbs of np.
   */
  method DivQrPi1(qp: array?<Limb>, np: array<Limb>, nn: nat, top: Limb, dp: array<Limb>, dn: nat, dinv: Limb)
    returns (ghost quot: int)
    requires 2 < dn <= dp.Length && dn <= nn <= np.Length && np != dp
    requires qp != null ==> nn - dn + 1 <= qp.Length && qp != np && qp != dp
    requires B / 2 <= dp[dn - 1] && IsInverse3by2(B, dp[dn - 1] * B + dp[dn - 2], dinv)
    requires top < dp[dn - 1]
    modifies np, if qp != null then {qp} else {}
    ensures old(Val(np[..nn] + [top])) == quot * Val(dp[..dn]) + Val(np[..dn]) && Val(np[..dn]) < Val(dp[..dn])
    ensures qp != null ==> Val(qp[..nn - dn + 1]) == quot && OnlyChanges(qp, 0, nn - dn + 1)
    ensures OnlyChanges(np, 0, nn)
  {
    ghost var N, Q, D := np[..nn] + [top], [], dp[..dn];
    var n1, k := top, nn - dn + 1;
    assert N[k..] == np[k..k + dn - 1] + [n1];
    TopLimbBelow(N[k..], D);
    while k > 0
      invariant 0 <= k <= nn - dn + 1
      invariant forall j :: 0 <= j < k ==> np[j] == N[j]
      invariant D == dp[..dn] && Val(np[k..k + dn - 1] + [n1]) < Val(D)
      invariant |Q| == nn - dn + 1 - k && (qp != null ==> forall j :: k <= j < nn - dn + 1 ==> qp[j] == Q[j - k])
      invariant Val(N[k..]) == Val(Q) * Val(D) + Val(np[k..k + dn - 1] + [n1])
      invariant OnlyChanges(np, 0, nn) && (qp != null ==> OnlyChanges(qp, 0, nn - dn + 1))
    {
      k := k - 1;
      ghost var W := np[k..k + dn] + [n1];
      assert W[1..] == np[k + 1..k + 1 + dn - 1] + [n1] && W[0..] == W;
      UpperStep(W, 0);
      UpperStep(N, k);
      assert np[k + 1..k + dn] + [n1] == W[1..];
      var q;
      q, n1 := DivStep(np, k, n1, dp, dn, dinv);
      QuotientStep(Val(N[k + 1..]), Val(N[k..]), Q, q, Val(D), Val(W[1..]), Val(np[k..k + dn - 1] + [n1]), N[k]);
      Q := [q] + Q;
      if qp != null {
        qp[k] := q;
      }
    }
    ghost var R := np[0..0 + dn - 1] + [n1];
    np[dn - 1] := n1;
    assert np[..dn] == R;
    quot := Val(Q);
    assert N[0..] == N;
    assert qp != null ==> qp[..nn - dn + 1] == Q;
  }

  /** A run with a smaller top limb is smaller. */
  lemma TopLimbBelow(r: seq<Limb>, d: seq<Limb>)
    requires |r| == |d| > 0 && r[|d| - 1] < d[|d| - 1]
    ensures Val(r) < Val(d)
  {
    TopDecides(r, d, |d| - 1);
  }

  /** inv fits the divisor d: its shift normalises the top limb and its limbs head the shifted divisor. */
  ghost predicate Fits(inv: DivInverse, d: seq<Limb>)
    requires |d| > 0
  {
    if |d| == 1 then Inverts1(inv, d[0])
    else if |d| == 2 then Inverts2(inv, d[1] * B + d[0])
    else
      && InvertsTop(inv) && d[|d| - 1] * Pow2(inv.shift) < B
      && inv.d1 == Spliced(d[|d| - 1], d[|d| - 2], inv.shift)
      && inv.d0 == Spliced(d[|d| - 2], d[|d| - 3], inv.shift)
  }

  method DivQrInvert(dp: array<Limb>, dn: nat) returns (inv: DivInverse)
    requires 0 < dn <= dp.Length && dp[dn - 1] > 0
    ensures Fits(inv, dp[..dn])
  {
    if dn == 1 {
      inv := DivQr1Invert(dp[0]);
    } else if dn == 2 {
      inv := DivQr2Invert(dp[1], dp[0]);
    } else {
      var shift := Clz(dp[dn - 1]);
      var d1, d0 := Spliced(dp[dn - 1], dp[dn - 2], shift), Spliced(dp[dn - 2], dp[dn - 3], shift);
      SplicedTop(dp[dn - 1], dp[dn - 2], shift);
      var di := Invert3by2(d1, d0);
      inv := DivInverse(shift, d1, d0, di);
    }
  }

  /** The divisor shifted as `inv` says; nothing is shifted out. */
  method ShiftedDivisor(dp: array<Limb>, dn: nat, inv: DivInverse) returns (tp: array<Limb>)
    requires 2 < dn <= dp.Length && Fits(inv, dp[..dn])
    ensures if inv.shift == 0 then tp == dp else fresh(tp) && tp.Length == dn
    ensures dn <= tp.Length
    ensures Val(tp[..dn]) == Val(dp[..dn]) * Pow2(inv.shift)
    ensures tp[dn - 1] == inv.d1 && tp[dn - 2] == inv.d0
  {
    tp := dp;
    if inv.shift > 0 {
      ghost var D := dp[..dn];
      tp := new Limb[dn](_ => 0);
      assert dp[0..dn] == D;
      var cy := LShift(tp, 0, dp, 0, dn, inv.shift);
      ghost var T := tp[0..dn];
      assert tp[..dn] == T;
      DivisorShifted(T, D, inv.shift, cy);
      TopLimbs(T, D, inv.shift);
      assert tp[dn - 1] == T[dn - 1] && tp[dn - 2] == T[dn - 2];
    }
  }

  lemma DivisorShifted(t: seq<Limb>, d: seq<Limb>, cnt: nat, cy: Limb)
    requires 0 < |d| == |t| && 0 < cnt < LIMB_BITS && d[|d| - 1] * Pow2(cnt) < B && IsShiftUp(t, d, cnt)
    requires Val(t) + Pw(|d|) * cy == Pow2(cnt) * Val(d)
    ensures Val(t) == Val(d) * Pow2(cnt)
  {
    NothingShiftedOut(t, d, cnt, cy);
    WithoutCarry(Val(t), Pw(|d|), cy, Pow2(cnt), Val(d));
  }

  lemma WithoutCarry(v: int, weight: int, cy: int, p: int, w: int)
    requires cy == 0 && v + weight * cy == p * w
    ensures v == w * p
  {
  }

  lemma TopLimbs(t: seq<Limb>, d: seq<Limb>, cnt: nat)
    requires 2 < |d| && 0 < cnt < LIMB_BITS && IsShiftUp(t, d, cnt)
    ensures t[|d| - 1] == Spliced(d[|d| - 1], d[|d| - 2], cnt)
    ensures t[|d| - 2] == Spliced(d[|d| - 2], d[|d| - 3], cnt)
  {
    assert t[|d| - 1] == LimbUp(d, |d| - 1, cnt) && t[|d| - 2] == LimbUp(d, |d| - 2, cnt);
  }

  lemma NothingShiftedOut(t: seq<Limb>, d: seq<Limb>, cnt: nat, cy: Limb)
    requires 0 < |d| == |t| && cnt <= LIMB_BITS && IsShiftUp(t, d, cnt)
    requires d[|d| - 1] * Pow2(cnt) < B && Val(t) + Pw(|d|) * cy == Pow2(cnt) * Val(d)
    ensures cy == 0
  {
    var hi := Shr(d[|d| - 1], LIMB_BITS - cnt);
    assert hi == 0 by {
      ShlParts(d[|d| - 1], cnt);
    }
    UpRun(t, d, cnt);
    CancelTop(Pw(|d|), cy, hi);
  }

  lemma CancelTop(p: int, x: int, y: int)
    requires p > 0 && p * x == p * y
    ensures x == y
  {
    MulSub(p, x, y);
    MultipleInRange(x - y, p);
  }

  /** Division with a divisor already normalised and its reciprocal at hand. */
  method DivQrPreinv(qp: array?<Limb>, np: array<Limb>, nn: nat, dp: array<Limb>, dn: nat, inv: DivInverse,
                     ghost d: seq<Limb>) returns (ghost quot: int)
    requires 0 < dn <= dp.Length && dn <= nn <= np.Length && np != dp && |d| == dn
    requires qp != null ==> nn - dn + 1 <= qp.Length && qp != np && qp != dp
    requires Fits(inv, d) && d[dn - 1] > 0
    requires dn > 2 ==> dp[dn - 1] == inv.d1 && dp[dn - 2] == inv.d0 && Val(dp[..dn]) == Val(d) * Pow2(inv.shift)
    modifies np, if qp != null then {qp} else {}
    ensures old(Val(np[..nn])) == quot * Val(d) + Val(np[..dn]) && Val(np[..dn]) < Val(d)
    ensures qp != null ==> Val(qp[..nn - dn + 1]) == quot && OnlyChanges(qp, 0, nn - dn + 1)
  {
    if dn == 1 {
      assert Val(d) == d[0] by { assert Low(d, 1) == d[0]; }
      var r;
      r, quot := DivQr1Preinv(qp, np, nn, inv, d[0]);
      np[0] := r;
      assert Val(np[..1]) == r by { assert Low(np[..1], 1) == r; }
    } else if dn == 2 {
      PairValue(d);
      quot := DivQr2Preinv(qp, np, np, nn, inv, Val(d));
    } else {
      quot := DivQrShifted(qp, np, nn, dp, dn, inv, Val(d));
    }
  }

  /** The case of more than two limbs: shift the dividend, divide, shift the remainder back. */
  method DivQrShifted(qp: array?<Limb>, np: array<Limb>, nn: nat, dp: array<Limb>, dn: nat, inv: DivInverse,
                      ghost d: int) returns (ghost quot: int)
    requires 2 < dn <= dp.Length && dn <= nn <= np.Length && np != dp
    requires qp != null ==> nn - dn + 1 <= qp.Length && qp != np && qp != dp
    requires InvertsTop(inv) && dp[dn - 1] == inv.d1 && dp[dn - 2] == inv.d0
    requires Val(dp[..dn]) == d * Pow2(inv.shift)
    modifies np, if qp != null then {qp} else {}
    ensures old(Val(np[..nn])) == quot * d + Val(np[..dn]) && Val(np[..dn]) < d
    ensures qp != null ==> Val(qp[..nn - dn + 1]) == quot && OnlyChanges(qp, 0, nn - dn + 1)
  {
    ghost var n := Val(np[..nn]);
    var nh := ShiftInPlace(np, nn, inv.shift);
    assert nh < inv.d1 by { TopBelow(inv.d1, inv.shift, nh); }
    quot := DivQrPi1(qp, np, nn, nh, dp, dn, inv.di);
    ghost var r := Val(np[..dn]);
    ValBound(np[..dn]);
    Unscale(Pow2(inv.shift), n, quot, d, r);
    UnshiftInPlace(np, dn, inv.shift);
  }

  /** np <<= shift on nn limbs; returns the bits shifted out. */
  method ShiftInPlace(np: array<Limb>, nn: nat, shift: nat) returns (nh: Limb)
    requires 0 < nn <= np.Length && shift < LIMB_BITS
    modifies np
    ensures Val(np[..nn] + [nh]) == Pow2(shift) * old(Val(np[..nn]))
    ensures nh < Pow2(shift)
    ensures OnlyChanges(np, 0, nn)
  {
    nh := 0;
    assert np[..nn] == np[0..nn];
    if shift > 0 {
      nh := LShift(np, 0, np, 0, nn, shift);
      assert np[..nn] == np[0..nn];
    }
    ValSnoc(np[..nn], nh);
  }

  /** np >>= shift on dn limbs, for a multiple of 2^shift: nothing is shifted out. */
  method UnshiftInPlace(np: array<Limb>, dn: nat, shift: nat)
    requires 0 < dn <= np.Length && shift < LIMB_BITS
    requires Val(np[..dn]) % Pow2(shift) == 0
    modifies np
    ensures Val(np[..dn]) == old(Val(np[..dn])) / Pow2(shift)
    ensures OnlyChanges(np, 0, dn)
  {
    assert np[..dn] == np[0..dn];
    if shift > 0 {
      ghost var r, low := Val(np[..dn]), np[0];
      var cy := RShift(np, 0, np, 0, dn, shift);
      assert np[..dn] == np[0..dn];
      ExactShift(Pow2(shift), r, Val(np[..dn]), low % Pow2(shift));
      assert cy == 0;
    }
  }

  /** Dividing a multiple of c by c leaves nothing. */
  lemma ExactShift(c: int, r: int, s: int, rem: int)
    requires 0 < c && r % c == 0 && r == c * s + rem && 0 <= rem < c
    ensures rem == 0 && s == r / c
  {
    DivModUnique(r, c, s, rem);
  }

  /**
   np / dp for any operands with dn <= nn and a nonzero top limb of the divisor: the
   quotient goes to qp when it is wanted, the remainder to the low dn limbs of np.
   */
  method DivQr(qp: array?<Limb>, np: array<Limb>, nn: nat, dp: array<Limb>, dn: nat) returns (ghost quot: int)
    requires 0 < dn <= dp.Length && dn <= nn <= np.Length && np != dp && dp[dn - 1] > 0
    requires qp != null ==> nn - dn + 1 <= qp.Length && qp != np && qp != dp
    modifies np, if qp != null then {qp} else {}
    ensures old(Val(np[..nn])) == quot * Val(dp[..dn]) + Val(np[..dn]) && Val(np[..dn]) < Val(dp[..dn])
    ensures qp != null ==> Val(qp[..nn - dn + 1]) == quot && OnlyChanges(qp, 0, nn - dn + 1)
  {
    ghost var d := dp[..dn];
    var inv := DivQrInvert(dp, dn);
    var tp := dp;
    if dn > 2 {
      tp := ShiftedDivisor(dp, dn, inv);
    }
    quot := DivQrPreinv(qp, np, nn, tp, dn, inv, d);
    assert dp[..dn] == d;
  }
}
