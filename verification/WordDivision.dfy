/**
 Division of two- and three-limb numbers by a normalised divisor whose reciprocal is
 known: the quotient digit is estimated, the remainder computed modulo a power of B,
 and both are corrected by comparing words.
 */
module WordDivision {
  import opened Arith
  import opened Limbs
  import opened Words
  import opened Reciprocal

  /** The low word of a product. */
  function MulW(x: Limb, y: Limb): Limb {
    x * y % B
  }

  /** A residue modulo `m` of a number in (-m, m) is that number, or that number plus m. */
  lemma Residue(m: int, r: int, t: int, k: int)
    requires 0 < m && 0 <= r < m && -m <= t < m && r == t + k * m
    ensures r == if t < 0 then t + m else t
  {
    if t < 0 {
      MulSub(m, k, 1);
      MultipleInRange(k - 1, m);
    } else {
      MultipleInRange(k, m);
    }
  }

  /** nh*B + nl divided by d, with d's 2/1 reciprocal di. */
  method UdivQrnndPreinv(nh: Limb, nl: Limb, d: Limb, di: Limb) returns (q: Limb, r: Limb)
    requires nh < d && IsInverse2by1(B, d, di)
    ensures nh * B + nl == q * d + r && r < d
  {
    var qh, ql := UmulPpmm(nh, di);
    var s := AddSsaaaa(qh, ql, AddW(nh, 1), nl);
    ghost var q1, q0: Limb := Estimate2by1(nh, nl, d, di, qh, ql);
    qh, ql := s.0, s.1;
    r := SubW(nl, MulW(qh, d));
    ghost var t: int := nh * B + nl - (q1 + 1) * d;
    Remainder2by1(nh, nl, d, q1, qh, r);
    if r > ql {          // the mask: subtract one and add back d
      qh := SubW(qh, 1);
      r := AddW(r, d);
    }
    if r >= d {
      r := SubW(r, d);
      qh := AddW(qh, 1);
    }
    q := qh;
    Corrected2by1(nh, nl, d, q1, q0, t, q, r);
  }

  /** What the two corrections make of the quotient digit and the remainder. */
  lemma Corrected2by1(nh: Limb, nl: Limb, d: Limb, q1: Limb, q0: Limb, t: int, q: Limb, r: Limb)
    requires nh < d && B <= 2 * d && t == nh * B + nl - (q1 + 1) * d
    requires 0 <= t + d && t < B && q0 - B < t && (t < B - d || t < q0)
    requires var qh, r1 := AddW(q1, 1), if t < 0 then t + B else t;
      var qh2, r2 := if r1 > q0 then SubW(qh, 1) else qh, if r1 > q0 then AddW(r1, d) else r1;
      q == (if r2 >= d then AddW(qh2, 1) else qh2) && r == if r2 >= d then SubW(r2, d) else r2
    ensures nh * B + nl == q * d + r && r < d
  {
    var a := if t < 0 then q1 else if t < d then q1 + 1 else q1 + 2;
    MulDist(d, q1, 1);
    MulDist(d, q1 + 1, 1);
    assert a * d + r == nh * B + nl && r < d;
    QuotientFits(nh, nl, d, a, r);
    assert q == a;
  }

  /** The estimate that the first two steps of `UdivQrnndPreinv` compute, one too small. */
  lemma Estimate2by1(nh: Limb, nl: Limb, d: Limb, di: Limb, qh: Limb, ql: Limb) returns (q1: Limb, q0: Limb)
    requires nh < d && IsInverse2by1(B, d, di)
    requires qh * B + ql == nh * di
    ensures var s := AddSsaaaa(qh, ql, AddW(nh, 1), nl);
      s.0 == AddW(q1, 1) && s.1 == q0
    ensures var t: int := nh * B + nl - (q1 + 1) * d;
      0 <= t + d && t < B && q0 - B < t && (t < B - d || t < q0)
  {
    var E := (B + di) * nh + nl;
    MulDist(nh, B, di);
    EstimateFits2by1(B, d, di, nh, nl);
    q1, q0 := E / B, E % B;
    Candidate2by1(B, d, di, nh, nl, q1, q0);
  }

  lemma Remainder2by1(nh: Limb, nl: Limb, d: Limb, q1: Limb, qh: Limb, r: Limb)
    requires qh == AddW(q1, 1) && r == SubW(nl, MulW(qh, d))
    requires var t: int := nh * B + nl - (q1 + 1) * d; -B < t < B
    ensures var t: int := nh * B + nl - (q1 + 1) * d;
      r == if t < 0 then t + B else t
  {
    var t: int := nh * B + nl - (q1 + 1) * d;
    var w := (q1 + 1 - qh) / B;
    var m := qh * d;
    assert q1 + 1 == qh + w * B;
    assert (q1 + 1) * d == m + w * d * B by {
      MulDist(d, qh, w * B);
      MulAssoc(w, B, d);
    }
    var k := m / B - nh + w * d + (if nl >= MulW(qh, d) then 0 else 1);
    Residue(B, r, t, k);
  }

  /** A quotient of nh*B + nl by d > nh is a single limb. */
  lemma QuotientFits(nh: int, nl: int, d: int, q: int, r: int)
    requires 0 <= nh < d && 0 <= nl < B
    requires nh * B + nl == q * d + r && 0 <= r < d
    ensures 0 <= q < B
  {
    MulDist(d, q, 1);
    MulCancel(-1, q, d);
    MulCancel(q, B, d);
  }

  // ---- 3/2 division ----

  /** n2*B^2 + n1*B + n0 divided by d1*B + d0, with the divisor's 3/2 reciprocal dinv. */
  method UdivQr3by2(n2: Limb, n1: Limb, n0: Limb, d1: Limb, d0: Limb, dinv: Limb)
    returns (q: Limb, r1: Limb, r0: Limb)
    requires n2 * B + n1 < d1 * B + d0 && IsInverse3by2(B, d1 * B + d0, dinv)
    ensures n2 * BB + n1 * B + n0 == q * (d1 * B + d0) + (r1 * B + r0)
    ensures r1 * B + r0 < d1 * B + d0
  {
    var qh, ql := UmulPpmm(n2, dinv);
    var s := AddSsaaaa(qh, ql, n2, n1);
    q, ql := s.0, s.1;
    Estimate3by2(n2, n1, n0, d1, d0, dinv, n2 * dinv, q, ql);
    ghost var q1 := q;

    // the two most significant limbs of n - (q + 1) * d
    r1 := SubW(n1, MulW(d1, q));
    s := SubDdmmss(r1, n0, d1, d0);
    var t1, t0 := UmulPpmm(d0, q);
    s := SubDdmmss(s.0, s.1, t1, t0);
    r1, r0 := s.0, s.1;
    q := AddW(q, 1);
    ghost var t: int := n2 * BB + n1 * B + n0 - (q1 + 1) * (d1 * B + d0);
    Remainder3by2(n2, n1, n0, d1, d0, q1, t1, t0, r1, r0);

    ghost var ra := (r1, r0);

    // conditionally adjust q and the remainder
    if r1 >= ql {
      q := SubW(q, 1);
      s := AddSsaaaa(r1, r0, d1, d0);
      r1, r0 := s.0, s.1;
    }
    if r1 >= d1 {
      if r1 > d1 || r0 >= d0 {
        q := AddW(q, 1);
        s := SubDdmmss(r1, r0, d1, d0);
        r1, r0 := s.0, s.1;
      }
    }
    Adjusted3by2(n2, n1, n0, d1, d0, q1, ql, t, ra, q, r1, r0);
  }

  /** The sum that the first two steps compute does not carry, and is a good estimate. */
  lemma Estimate3by2(n2: Limb, n1: Limb, n0: Limb, d1: Limb, d0: Limb, dinv: Limb, p: int, q1: Limb, q0: Limb)
    requires n2 * B + n1 < d1 * B + d0 && IsInverse3by2(B, d1 * B + d0, dinv)
    requires p == n2 * dinv
    requires var t := p + n2 * B + n1; q1 * B + q0 == if t < BB then t else t - BB
    ensures var t: int := n2 * BB + n1 * B + n0 - (q1 + 1) * (d1 * B + d0);
      0 <= t + (d1 * B + d0) && q0 * B - BB <= t && (t < BB - (d1 * B + d0) || t < q0 * B)
  {
    MulDist(n2, B, dinv);
    EstimateFits3by2(B, d1 * B + d0, dinv, n2, n1);
    Candidate3by2(B, d1 * B + d0, dinv, n2, n1, n0, q1, q0);
  }

  lemma Remainder3by2(n2: Limb, n1: Limb, n0: Limb, d1: Limb, d0: Limb, q1: Limb,
                      t1: Limb, t0: Limb, r1: Limb, r0: Limb)
    requires t1 * B + t0 == d0 * q1
    requires var s := SubDdmmss(SubW(n1, MulW(d1, q1)), n0, d1, d0);
      SubDdmmss(s.0, s.1, t1, t0) == (r1, r0)
    requires var t: int := n2 * BB + n1 * B + n0 - (q1 + 1) * (d1 * B + d0); -BB <= t < BB
    ensures var t: int := n2 * BB + n1 * B + n0 - (q1 + 1) * (d1 * B + d0);
      r1 * B + r0 == if t < 0 then t + BB else t
  {
    var t: int := n2 * BB + n1 * B + n0 - (q1 + 1) * (d1 * B + d0);
    var m := d1 * q1;
    var w, h := MulW(d1, q1), m / B;
    assert (q1 + 1) * (d1 * B + d0) == m * B + d0 * q1 + d1 * B + d0 by {
      MulDist(d1 * B + d0, q1, 1);
      MulDist(q1, d1 * B, d0);
      MulAssoc(d1, B, q1);
    }
    var s := SubDdmmss(SubW(n1, w), n0, d1, d0);
    var e1 := if n1 >= w then 0 else 1;
    var e2 := if SubW(n1, w) * B + n0 - d1 * B - d0 >= 0 then 0 else 1;
    var e3 := if s.0 * B + s.1 - t1 * B - t0 >= 0 then 0 else 1;
    assert r1 * B + r0 == t + (h + e1 + e2 + e3 - n2) * BB;
    Residue(BB, r1 * B + r0, t, h + e1 + e2 + e3 - n2);
  }

  /** The same corrections on limb pairs, as the code makes them. */
  lemma Adjusted3by2(n2: Limb, n1: Limb, n0: Limb, d1: Limb, d0: Limb, q1: Limb, q0: Limb, t: int,
                     ra: (Limb, Limb), q: Limb, r1: Limb, r0: Limb)
    requires var d: int := d1 * B + d0;
      && n2 * B + n1 < d && BB <= 2 * d && t == n2 * BB + n1 * B + n0 - (q1 + 1) * d
      && 0 <= t + d && q0 * B - BB <= t && (t < BB - d || t < q0 * B)
      && ra.0 * B + ra.1 == if t < 0 then t + BB else t
    requires var qb := if ra.0 >= q0 then SubW(AddW(q1, 1), 1) else AddW(q1, 1);
      var rb := if ra.0 >= q0 then AddSsaaaa(ra.0, ra.1, d1, d0) else ra;
      if rb.0 >= d1 && (rb.0 > d1 || rb.1 >= d0)
      then q == AddW(qb, 1) && (r1, r0) == SubDdmmss(rb.0, rb.1, d1, d0)
      else q == qb && (r1, r0) == rb
    ensures n2 * BB + n1 * B + n0 == q * (d1 * B + d0) + (r1 * B + r0)
    ensures r1 * B + r0 < d1 * B + d0
  {
    Corrected3by2(n2, n1, n0, d1 * B + d0, q1, q0, t, q, r1 * B + r0);
  }

  /** What the two corrections make of the quotient digit and the remainder. */
  lemma Corrected3by2(n2: Limb, n1: Limb, n0: Limb, d: int, q1: Limb, q0: Limb, t: int, q: Limb, r: int)
    requires n2 * B + n1 < d < BB <= 2 * d && t == n2 * BB + n1 * B + n0 - (q1 + 1) * d
    requires 0 <= t + d && q0 * B - BB <= t && (t < BB - d || t < q0 * B)
    requires var qa, ra := AddW(q1, 1), if t < 0 then t + BB else t;
      var qb := if ra >= q0 * B then SubW(qa, 1) else qa;
      var rb := if ra >= q0 * B then (if ra + d < BB then ra + d else ra + d - BB) else ra;
      q == (if rb >= d then AddW(qb, 1) else qb) && r == if rb >= d then rb - d else rb
    ensures n2 * BB + n1 * B + n0 == q * d + r && 0 <= r < d
  {
    var a := if t < 0 then q1 else if t < d then q1 + 1 else q1 + 2;
    MulDist(d, q1, 1);
    MulDist(d, q1 + 1, 1);
    assert a * d + r == n2 * BB + n1 * B + n0 && 0 <= r < d;
    assert 0 <= a < B by {
      MulDist(d, a, 1);
      MulCancel(-1, a, d);
      MulCancel(a, B, d);
    }
    assert q == a;
  }
}
