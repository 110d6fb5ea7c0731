/**
 Division of runs of limbs: by one limb, by two, and schoolbook division by any number
 of limbs, all with a precomputed reciprocal of the normalised divisor.
 */
module MpnDiv {
  import opened Arith
  import opened Powers
  import opened Limbs
  import opened Words
  import opened Bits
  import opened Reciprocal
  import opened WordDivision
  import opened Inverse
  import opened Mpn

  /** A normalised divisor (its top two limbs), the shift that normalised it, and its reciprocal. */
  datatype DivInverse = DivInverse(shift: nat, d1: Limb, d0: Limb, di: Limb)

  /** The number of leading zero bits. */
  method Clz(x: Limb) returns (count: nat)
    requires x > 0
    ensures count < LIMB_BITS && B / 2 <= x * Pow2(count) < B
  {
    var y: int := x;
    count := 0;
    assert Pow2(8) == 0x100 by { Pow2Constants(); }
    while y < 0x100_0000_0000_0000  // the top byte is zero
      invariant 0 < y < B && y == x * Pow2(count)
      decreases B - y
    {
      Pow2Add(count, 8);
      MulAssoc(x, Pow2(count), Pow2(8));
      y := y * 0x100;
      count := count + 8;
    }
    while y < B / 2                 // the top bit is zero
      invariant 0 < y < B && y == x * Pow2(count)
      decreases B - y
    {
      Pow2Add(count, 1);
      MulAssoc(x, Pow2(count), 2);
      y := y * 2;
      count := count + 1;
    }
    if count >= LIMB_BITS {
      Pow2Monotone(LIMB_BITS, count);
      Pow2Constants();
      MulMono(Pow2(count), 1, x);
    }
  }

  // ---- one-limb divisors ----

  ghost predicate Inverts1(inv: DivInverse, d: Limb) {
    && inv.shift < LIMB_BITS && inv.d1 == d * Pow2(inv.shift)
    && IsInverse2by1(B, inv.d1, inv.di)
  }

  method DivQr1Invert(d: Limb) returns (inv: DivInverse)
    requires d > 0
    ensures Inverts1(inv, d)
  {
    var shift := Clz(d);
    var d1: Limb := d * Pow2(shift);
    var di := InvertLimb(d1);
    inv := DivInverse(shift, d1, 0, di);
  }

  /**
   The dividend shifted like the divisor: np itself when there is nothing to shift, and
   otherwise a copy, with the bits shifted out in r.
   */
  method ShiftedDividend(np: array<Limb>, nn: nat, shift: nat) returns (tp: array<Limb>, r: Limb)
    requires 0 < nn <= np.Length && shift < LIMB_BITS
    ensures if shift == 0 then tp == np else fresh(tp) && tp.Length == nn
    ensures Val(tp[..nn] + [r]) == Pow2(shift) * Val(np[..nn])
    ensures r < Pow2(shift)
  {
    ghost var N := np[..nn];
    if shift > 0 {
      tp := new Limb[nn](_ => 0);
      assert np[0..nn] == N;
      r := LShift(tp, 0, np, 0, nn, shift);
      assert tp[..nn] == tp[0..nn];
    } else {
      tp, r := np, 0;
    }
    ValSnoc(tp[..nn], r);
  }

  /** One more limb of the dividend at the bottom gives one more limb of the quotient. */
  lemma QuotientStep(x: int, x': int, qs: seq<Limb>, q: Limb, d: int, r: int, r': int, n: int)
    requires x == Val(qs) * d + r && x' == n + B * x && B * r + n == q * d + r'
    ensures x' == Val([q] + qs) * d + r'
  {
    ValCons(q, qs);
    MulDist(d, q, B * Val(qs));
    MulAssoc(B, Val(qs), d);
  }

  lemma UpperStep(n: seq<Limb>, k: nat)
    requires k < |n|
    ensures Val(n[k..]) == n[k] + B * Val(n[k + 1..])
  {
    assert n[k..] == [n[k]] + n[k + 1..];
    ValCons(n[k], n[k + 1..]);
  }

  /** The quotient limbs of <r0, np> by a normalised limb d, from the top down. */
  method QuotientLimbs1(qp: array?<Limb>, np: array<Limb>, nn: nat, r0: Limb, d: Limb, di: Limb)
    returns (r: Limb, ghost quot: int)
    requires 0 < nn <= np.Length && (qp != null ==> nn <= qp.Length)
    requires r0 < d && IsInverse2by1(B, d, di)
    modifies if qp != null then {qp} else {}
    ensures old(Val(np[..nn] + [r0])) == quot * d + r && r < d
    ensures qp != null ==> Val(qp[..nn]) == quot && OnlyChanges(qp, 0, nn)
  {
    ghost var N, Q := np[..nn] + [r0], [];
    r := r0;
    assert N[nn..] == [r0] && Low([r0], 1) == r0;
    var k := nn;
    while k > 0
      invariant 0 <= k <= nn && r < d
      invariant forall j :: 0 <= j < k ==> np[j] == N[j]
      invariant |Q| == nn - k && (qp != null ==> forall j :: k <= j < nn ==> qp[j] == Q[j - k])
      invariant Val(N[k..]) == Val(Q) * d + r
      invariant qp != null ==> OnlyChanges(qp, 0, nn)
    {
      k := k - 1;
      ghost var rin := r;
      var q;
      q, r := UdivQrnndPreinv(r, np[k], d, di);
      UpperStep(N, k);
      QuotientStep(Val(N[k + 1..]), Val(N[k..]), Q, q, d, rin, r, N[k]);
      Q := [q] + Q;
      if qp != null {
        qp[k] := q;
      }
    }
    quot := Val(Q);
    assert N[0..] == N;
    assert qp != null ==> qp[..nn] == Q;
  }

  /** qp = np / d on nn limbs (when qp is wanted); returns the remainder. qp may be np. */
  method DivQr1Preinv(qp: array?<Limb>, np: array<Limb>, nn: nat, inv: DivInverse, ghost d: Limb)
    returns (r: Limb, ghost quot: int)
    requires 0 < nn <= np.Length && (qp != null ==> nn <= qp.Length)
    requires 0 < d && Inverts1(inv, d)
    modifies if qp != null then {qp} else {}
    ensures old(Val(np[..nn])) == quot * d + r && r < d
    ensures qp != null ==> Val(qp[..nn]) == quot && OnlyChanges(qp, 0, nn)
  {
    ghost var n := Val(np[..nn]);
    var tp;
    tp, r := ShiftedDividend(np, nn, inv.shift);
    ShiftedOutBelow(d, inv.shift, r);
    r, quot := QuotientLimbs1(qp, tp, nn, r, inv.d1, inv.di);
    Unscale(Pow2(inv.shift), n, quot, d, r);
    r := Shr(r, inv.shift);
  }

  /** The bits shifted out of the dividend are below a normalised divisor. */
  lemma ShiftedOutBelow(d: int, shift: nat, r: int)
    requires shift < LIMB_BITS && 0 <= r < Pow2(shift) && B / 2 <= d * Pow2(shift)
    ensures r < d * Pow2(shift)
  {
    Pow2Monotone(shift, LIMB_BITS - 1);
    Pow2Constants();
  }

  /** Removing the normalisation: quotient and remainder of the unscaled operands. */
  lemma Unscale(c: int, n: int, q: int, d: int, r: int)
    requires 0 < c && 0 <= r < d * c && c * n == q * (d * c) + r
    ensures r % c == 0 && n == q * d + r / c && 0 <= r / c < d
  {
    MulAssoc(q, d, c);
    MulSub(c, n, q * d);
    DivModUnique(r, c, n - q * d, 0);
    MulCancel(r / c, d, c);
    MulCancel(-1, r / c, c);
  }

  // ---- divisors of two limbs and more: the top two limbs normalised ----

  /** inv holds the top two limbs of the shifted divisor, and their reciprocal. */
  ghost predicate InvertsTop(inv: DivInverse) {
    && inv.shift < LIMB_BITS && B / 2 <= inv.d1
    && IsInverse3by2(B, inv.d1 * B + inv.d0, inv.di)
  }

  ghost predicate Inverts2(inv: DivInverse, d: int) {
    InvertsTop(inv) && inv.d1 * B + inv.d0 == d * Pow2(inv.shift)
  }

  /** The limb at position j of u << cnt, computed from two neighbouring limbs. */
  function Spliced(high: Limb, low: Limb, cnt: nat): Limb
    requires cnt < LIMB_BITS
  {
    OrFits(high, low, cnt);
    if cnt > 0 then BitOr(ShlW(high, cnt), Shr(low, LIMB_BITS - cnt)) else high
  }

  method DivQr2Invert(d1: Limb, d0: Limb) returns (inv: DivInverse)
    requires d1 > 0
    ensures Inverts2(inv, d1 * B + d0)
  {
    var shift := Clz(d1);
    var e1, e0 := Spliced(d1, d0, shift), if shift > 0 then ShlW(d0, shift) else d0;
    SplicedTop(d1, d0, shift);
    SplicedValue(d1, d0, shift);
    var di := Invert3by2(e1, e0);
    inv := DivInverse(shift, e1, e0, di);
  }

  lemma SplicedTop(high: Limb, low: Limb, cnt: nat)
    requires cnt < LIMB_BITS && high * Pow2(cnt) < B
    ensures Spliced(high, low, cnt) >= high * Pow2(cnt)
  {
    OrFits(high, low, cnt);
    StaysWhole(high, cnt);
  }

  lemma StaysWhole(x: Limb, cnt: nat)
    requires x * Pow2(cnt) < B
    ensures ShlW(x, cnt) == x * Pow2(cnt)
  {
    MulNonNeg(x, Pow2(cnt));
  }

  lemma ShiftedPair(d1: int, d0: int, p: int, hi: int, lo: int)
    requires d0 * p == hi * B + lo
    ensures (d1 * p + hi) * B + lo == (d1 * B + d0) * p
  {
    MulDist(p, d1 * B, d0);
    MulAssoc(d1, B, p);
  }

  lemma SplicedValue(d1: Limb, d0: Limb, cnt: nat)
    requires cnt < LIMB_BITS && d1 * Pow2(cnt) < B
    ensures Spliced(d1, d0, cnt) * B + (if cnt > 0 then ShlW(d0, cnt) else d0) == (d1 * B + d0) * Pow2(cnt)
  {
    OrFits(d1, d0, cnt);
    StaysWhole(d1, cnt);
    if cnt > 0 {
      ShlParts(d0, cnt);
      ShiftedPair(d1, d0, Pow2(cnt), Shr(d0, LIMB_BITS - cnt), ShlW(d0, cnt));
    }
  }

  /** qp = np / d and rp = np mod d for a two-limb divisor; rp may be np. */
  method DivQr2Preinv(qp: array?<Limb>, rp: array<Limb>, np: array<Limb>, nn: nat, inv: DivInverse, ghost d: int)
    returns (ghost quot: int)
    requires 2 <= nn <= np.Length && 2 <= rp.Length && (qp != null ==> nn - 1 <= qp.Length)
    requires 0 < d && Inverts2(inv, d)
    requires qp != null ==> qp != np && qp != rp
    modifies rp, if qp != null then {qp} else {}
    ensures old(Val(np[..nn])) == quot * d + Val(rp[..2]) && Val(rp[..2]) < d
    ensures qp != null ==> Val(qp[..nn - 1]) == quot && OnlyChanges(qp, 0, nn - 1)
    ensures OnlyChanges(rp, 0, 2)
  {
    ghost var n := Val(np[..nn]);
    var tp, r1, r0;
    tp, r1 := ShiftedDividend(np, nn, inv.shift);
    assert r1 < inv.d1 by { TopBelow(inv.d1, inv.shift, r1); }
    quot, r1, r0 := QuotientLimbs2(qp, tp, nn, r1, inv.d1, inv.d0, inv.di);
    ghost var r: int := r1 * B + r0;
    Unscale(Pow2(inv.shift), n, quot, d, r);
    if inv.shift > 0 {
      UnshiftPair(r1, r0, inv.shift);
      r0 := BitOr(ShlW(r1, LIMB_BITS - inv.shift), Shr(r0, inv.shift));
      r1 := Shr(r1, inv.shift);
    }
    rp[1] := r1;
    rp[0] := r0;
    PairValue(rp[..2]);
  }

  lemma TopBelow(d1: int, shift: nat, r: int)
    requires shift < LIMB_BITS && r < Pow2(shift) && B / 2 <= d1
    ensures r < d1
  {
    Pow2Monotone(shift, LIMB_BITS - 1);
    Pow2Constants();
  }

  lemma PairValue(s: seq<Limb>)
    requires |s| == 2
    ensures Val(s) == s[1] * B + s[0]
  {
    assert Low(s, 1) == s[0];
    assert Pw(1) == B;
  }

  /** Shifting a two-limb remainder back down. */
  lemma UnshiftPair(r1: Limb, r0: Limb, cnt: nat)
    requires cnt < LIMB_BITS && (r1 * B + r0) % Pow2(cnt) == 0
    ensures BitOr(ShlW(r1, LIMB_BITS - cnt), Shr(r0, cnt)) < B
    ensures Shr(r1, cnt) * B + BitOr(ShlW(r1, LIMB_BITS - cnt), Shr(r0, cnt)) == (r1 * B + r0) / Pow2(cnt)
    ensures r0 % Pow2(cnt) == 0
  {
    OrFits(r1, r0, LIMB_BITS - cnt);
    ShrParts(r1, cnt);
    Pow2Complement(cnt);
    UnshiftQuotient(Pow2(cnt), Pow2(LIMB_BITS - cnt), r1, r0);
  }

  lemma UnshiftQuotient(c: int, t: int, r1: int, r0: int)
    requires 0 < c && c * t == B && (r1 * B + r0) % c == 0
    ensures r0 % c == 0 && r1 / c * B + (r1 % c * t + r0 / c) == (r1 * B + r0) / c
  {
    DivBounds(r1, c);
    DivBounds(r0, c);
    DivBounds(r1 * B + r0, c);
    UnshiftSum(c, t, r1, r0, r1 / c, r1 % c, r0 / c, r0 % c, (r1 * B + r0) / c);
  }

  lemma UnshiftSum(c: int, t: int, r1: int, r0: int, h1: int, l1: int, h0: int, l0: int, q: int)
    requires 0 < c && c * t == B && r1 == h1 * c + l1 && r0 == h0 * c + l0
    requires 0 <= l0 < c && r1 * B + r0 == q * c
    ensures l0 == 0 && h1 * B + (l1 * t + h0) == q
  {
    var w := h1 * B + (l1 * t + h0);
    assert w * c == r1 * B + h0 * c by {
      MulDist(c, h1 * B, l1 * t + h0);
      MulDist(c, l1 * t, h0);
      MulAssoc(h1, B, c);
      MulAssoc(h1, c, B);
      MulAssoc(l1, t, c);
      MulDist(B, h1 * c, l1);
    }
    MulSub(c, q, w);
    MultipleInRange(q - w, c);
  }

  /** The quotient limbs of <r1init, np> by a normalised two-limb divisor, from the top down. */
  method QuotientLimbs2(qp: array?<Limb>, np: array<Limb>, nn: nat, top: Limb, d1: Limb, d0: Limb, di: Limb)
    returns (ghost quot: int, r1: Limb, r0: Limb)
    requires 2 <= nn <= np.Length && (qp != null ==> nn - 1 <= qp.Length && qp != np)
    requires top < d1 && IsInverse3by2(B, d1 * B + d0, di)
    modifies if qp != null then {qp} else {}
    ensures Val(np[..nn] + [top]) == quot * (d1 * B + d0) + (r1 * B + r0) && r1 * B + r0 < d1 * B + d0
    ensures qp != null ==> Val(qp[..nn - 1]) == quot && OnlyChanges(qp, 0, nn - 1)
  {
    ghost var N, Q, d: int := np[..nn] + [top], [], d1 * B + d0;
    r1, r0 := top, np[nn - 1];
    var k := nn - 1;
    assert N[k..] == [r0, r1];
    PairValue(N[k..]);
    while k > 0
      invariant 0 <= k <= nn - 1 && r1 * B + r0 < d
      invariant |Q| == nn - 1 - k && (qp != null ==> forall j :: k <= j < nn - 1 ==> qp[j] == Q[j - k])
      invariant Val(N[k..]) == Val(Q) * d + (r1 * B + r0)
      invariant qp != null ==> OnlyChanges(qp, 0, nn - 1)
    {
      k := k - 1;
      ghost var rin: int := r1 * B + r0;
      var n0, q := np[k], 0;
      q, r1, r0 := UdivQr3by2(r1, r0, n0, d1, d0, di);
      UpperStep(N, k);
      QuotientStep(Val(N[k + 1..]), Val(N[k..]), Q, q, d, rin, r1 * B + r0, N[k]);
      Q := [q] + Q;
      if qp != null {
        qp[k] := q;
      }
    }
    quot := Val(Q);
    assert N[0..] == N;
    assert qp != null ==> qp[..nn - 1] == Q;
  }
}
