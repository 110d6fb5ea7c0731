/** Division of signed integers by one limb, with its shortcut for powers of two. */
module MpzDivUi {
  import opened Arith
  import opened Powers
  import opened Limbs
  import opened Bits
  import opened Bitwise
  import opened Mpn
  import opened MpnDiv
  import opened Mpz
  import opened MpzDiv
  import opened MpzShift

  // ---- d & (d - 1) ----

  lemma {:induction false} AndSelf(e: nat)
    ensures Apply(And, e, e) == e
  {
    if e > 0 {
      BitwiseStep(And, e, e);
      AndSelf(e / 2);
    }
  }

  /** d & (d - 1) drops the lowest set bit: nothing is left of a power of two only. */
  lemma {:induction false} OnlyBit(d: nat) returns (k: nat)
    requires 0 < d && Apply(And, d, d - 1) == 0
    ensures d == Pow2(k)
  {
    BitwiseStep(And, d, d - 1);
    if d % 2 == 1 {
      assert (d - 1) / 2 == d / 2;
      AndSelf(d / 2);
      assert d == 1;
      k := 0;
    } else {
      assert (d - 1) / 2 == d / 2 - 1;
      k := OnlyBit(d / 2);
      k := k + 1;
    }
  }

  /** A divisor of the limb base sees the lowest limb only. */
  lemma LowLimbRemainder(u: seq<Limb>, k: nat) returns (quot: int)
    requires |u| > 0 && k < LIMB_BITS
    ensures Val(u) == quot * Pow2(k) + u[0] % Pow2(k)
  {
    var d, t := Pow2(k), Pow2(LIMB_BITS - k);
    Pow2Complement(k);
    assert u == [u[0]] + u[1..];
    ValCons(u[0], u[1..]);
    quot := u[0] / d + t * Val(u[1..]);
    SplitByDivisor(u[0], d, t, Val(u[1..]));
  }

  lemma SplitByDivisor(x: int, d: int, t: int, rest: int)
    requires 0 < d && d * t == B
    ensures x + B * rest == (x / d + t * rest) * d + x % d
  {
    DivBounds(x, d);
    MulDist(d, x / d, t * rest);
    MulAssoc(d, t, rest);
  }

  // ---- limbs divided by a limb ----

  lemma ShiftBelowLimb(d: Limb, k: nat)
    requires d == Pow2(k)
    ensures k < LIMB_BITS
  {
    if LIMB_BITS <= k {
      Pow2Monotone(LIMB_BITS, k);
      Pow2Constants();
    }
  }

  lemma SameShift(k: nat, count: nat, odd: int)
    requires OddTimes(Pow2(k), count, odd)
    ensures count == k
  {
    if k < count {
      Pow2Add(k, count - k);
      MulAssoc(Pow2(k), Pow2(count - k), odd);
      var m := Pow2(count - k) * odd;
      MulSub(Pow2(k), m, 1);
      MultipleInRange(m - 1, Pow2(k));
      MulAssoc(2, Pow2(count - k - 1), odd);
    } else if count < k {
      Pow2Add(count, k - count);
      MulSub(Pow2(count), odd, Pow2(k - count));
      MultipleInRange(odd - Pow2(k - count), Pow2(count));
    }
  }

  /** qp (when wanted) = np / d; returns the remainder. A power of two is shifted out. */
  method DivQr1(qp: array?<Limb>, np: array<Limb>, nn: nat, d: Limb) returns (r: Limb, ghost quot: int)
    requires 0 < nn <= np.Length && (qp != null ==> nn <= qp.Length) && 0 < d
    modifies if qp != null then {qp} else {}
    ensures old(Val(np[..nn])) == quot * d + r && r < d
    ensures qp != null ==> Val(qp[..nn]) == quot
  {
    if Apply(And, d, d - 1) == 0 {
      ghost var k := OnlyBit(d);
      r, quot := DivByPower(qp, np, nn, d, k);
    } else {
      var inv := DivQr1Invert(d);
      r, quot := DivQr1Preinv(qp, np, nn, inv, d);
    }
  }

  method DivByPower(qp: array?<Limb>, np: array<Limb>, nn: nat, d: Limb, ghost k: nat) returns (r: Limb, ghost quot: int)
    requires 0 < nn <= np.Length && (qp != null ==> nn <= qp.Length) && d == Pow2(k)
    modifies if qp != null then {qp} else {}
    ensures old(Val(np[..nn])) == quot * d + r && r < d
    ensures qp != null ==> Val(qp[..nn]) == quot
  {
    ghost var u := np[..nn];
    assert u == np[0..0 + nn];
    ShiftBelowLimb(d, k);
    quot := LowLimbRemainder(u, k);
    LowMask(np[0], k);
    r := Apply(And, np[0], d - 1);
    if qp != null {
      if d <= 1 {
        Copyi(qp, 0, np, 0, nn);
        assert qp[..nn] == qp[0..0 + nn];
      } else {
        var shift := Ctz(d);
        SameShift(k, shift, d / Pow2(shift));
        var _ := RShift(qp, 0, np, 0, nn, shift);
        assert qp[..nn] == qp[0..0 + nn];
        MulSub(d, quot, Val(qp[..nn]));
        MultipleInRange(quot - Val(qp[..nn]), d);
      }
    }
  }

  // ---- signed division ----

  /** Rounding away from zero fits in the quotient's limbs. */
  lemma NoOverflow(n: int, d: int, quot: int, rl: int, p: int)
    requires n == quot * d + rl && 0 < rl < d && 0 <= quot && n < p && B <= p
    ensures quot + 1 < p
  {
    MulMono(quot, 2, d);
  }

  /** The quotient's limbs, one larger when it is rounded away from zero. */
  method RoundLimbs(qp: array<Limb>, qn: nat, up: bool, ghost n: int, ghost d: int, ghost quot: int, ghost rl: int)
    requires 0 < qn <= qp.Length && Val(qp[..qn]) == quot
    requires n == quot * d + rl && 0 <= rl < d && 0 <= quot && n < Pw(qn) && (up ==> 0 < rl)
    modifies qp
    ensures Val(qp[..qn]) == quot + if up then 1 else 0
  {
    if up {
      assert qp[..qn] == qp[0..0 + qn];
      PwMonotone(1, qn);
      NoOverflow(n, d, quot, rl, Pw(qn));
      var cy := Mpn.Add1(qp, 0, qp, 0, qn, 1);
      assert qp[..qn] == qp[0..0 + qn];
      ValBound(qp[..qn]);
    }
  }

  /** The size of a quotient: at most its top limb is zero. */
  method QuotientSizeUi(qp: array<Limb>, nn: nat) returns (qn: nat)
    requires 0 < nn <= qp.Length && (nn > 1 ==> Pw(nn - 2) <= Val(qp[..nn]))
    ensures qn <= qp.Length && (qn != 0 ==> qp[qn - 1] != 0)
    ensures Val(qp[..qn]) == Val(qp[..nn])
  {
    QuotientLimbs(qp[..nn], Val(qp[..nn]));
    assert qp[..nn][..nn - 1] == qp[..nn - 1];
    qn := nn - if qp[nn - 1] == 0 then 1 else 0;
  }

  /** qp (when wanted) = np / d, rounded away from zero if asked and inexact; returns its size too. */
  method DivideLimbs(qp: array?<Limb>, np: array<Limb>, nn: nat, d: Limb, away: bool)
    returns (rl: Limb, qn: nat, ghost quot: int)
    requires 0 < nn <= np.Length && np[nn - 1] != 0 && 0 < d && (qp != null ==> nn <= qp.Length)
    modifies if qp != null then {qp} else {}
    ensures old(Val(np[..nn])) == quot * d + rl && rl < d && 0 <= quot
    ensures qp != null ==> qn <= qp.Length && (qn != 0 ==> qp[qn - 1] != 0)
    ensures qp != null ==> Val(qp[..qn]) == quot + if rl > 0 && away then 1 else 0
  {
    ghost var N := np[..nn];
    ValBound(N);
    rl, quot := DivQr1(qp, np, nn, d);
    OneLimb([d]);
    QuotientSize(N, [d], quot, rl);
    qn := 0;
    if qp != null {
      RoundLimbs(qp, nn, rl > 0 && away, Val(N), d, quot, rl);
      qn := QuotientSizeUi(qp, nn);
    }
  }

  /** Room for the quotient's limbs, when wanted; n keeps its number, even if it is the same object. */
  method QuotientRoom(q: Mpz?, n: Mpz) returns (qp: array?<Limb>)
    requires n.Valid() && (q != null ==> q.Apart(n))
    modifies q
    ensures n.Valid() && n.size == old(n.size) && n.d[..Abs(n.size)] == old(n.d[..Abs(n.size)])
    ensures if q == null then qp == null
            else qp == q.d && Abs(n.size) <= q.d.Length && (q.d == old(q.d) || fresh(q.d)) && q.Apart(n)
  {
    qp := null;
    if q != null {
      ghost var N := n.d[..Abs(n.size)];
      q.Realloc(Abs(n.size));
      assert n.d[..Abs(n.size)] == N;
      qp := q.d;
    }
  }

  /** q (when wanted) = n / d for a nonzero n; returns the remainder's magnitude and sign. */
  method DivideNonzero(q: Mpz?, n: Mpz, d: Limb, mode: RoundMode)
    returns (rl: Limb, negative: bool, ghost quot: int, ghost rem: int)
    requires n.Valid() && 0 < d && n.size != 0 && (q != null ==> q.Apart(n))
    modifies if q != null then {q, q.d} else {}
    ensures IsDivision(mode, old(n.Value()), d, quot, rem) && rem == if negative then 0 - rl else rl
    ensures q != null ==> q.Valid() && (q.d == old(q.d) || fresh(q.d)) && q.Value() == quot
  {
    var ns := n.size;
    Nonzero(n);
    ghost var nm, qm := n.Magnitude(), 0;
    var qp := QuotientRoom(q, n);
    var away := (mode == Floor && ns < 0) || (mode == Ceil && ns >= 0);
    var qn: int;
    rl, qn, qm := DivideLimbs(qp, n.d, Abs(ns), d, away);
    quot, rem := RoundedQuotient(mode, ns, nm, d, qm, rl, rl > 0 && away);
    negative := ns < 0;
    if rl > 0 && away {
      rl := d - rl;
      negative := !negative;
    }
    if q != null {
      q.size := if ns < 0 then -qn else qn;
    }
  }

  /** q and r (each when wanted) get the quotient and remainder of n by d; returns the remainder's magnitude. */
  method DivQrUi(q: Mpz?, r: Mpz?, n: Mpz, d: Limb, mode: RoundMode)
    returns (rl: Limb, ghost quot: int, ghost rem: int)
    requires n.Valid() && (0 < d || n.size == 0)
    requires (q != null ==> q.Apart(n)) && (r != null ==> r.Apart(n)) && (q != null && r != null ==> q != r && q.d != r.d)
    modifies if q != null then {q, q.d} else {}, if r != null then {r, r.d} else {}
    ensures 0 < d ==> IsDivision(mode, old(n.Value()), d, quot, rem)
    ensures d == 0 ==> quot == 0 && rem == 0
    ensures rl == Abs(rem)
    ensures q != null ==> q.Valid() && q.Value() == quot && (q.d == old(q.d) || fresh(q.d))
    ensures r != null ==> r.Valid() && r.Value() == rem && (r.d == old(r.d) || fresh(r.d))
  {
    if n.size == 0 {
      if q != null {
        q.size := 0;
      }
      if r != null {
        r.size := 0;
      }
      return 0, 0, 0;
    }
    var negative;
    rl, negative, quot, rem := DivideNonzero(q, n, d, mode);
    if r != null {
      r.SetSmall(rl, negative);
    }
  }

  /** q = n / d, rounded towards zero. */
  method TdivQUi(q: Mpz, n: Mpz, d: Limb)
    requires n.Valid() && q.Apart(n) && 0 < d
    modifies q, q.d
    ensures q.Valid() && (q.d == old(q.d) || fresh(q.d))
    ensures q.Value() == TDiv(old(n.Value()), d)
  {
    ghost var N := n.Value();
    var rl;
    ghost var quot, rem;
    rl, quot, rem := DivQrUi(q, null, n, d, Trunc);
    TruncIsTDiv(N, d, quot, rem);
  }
}
