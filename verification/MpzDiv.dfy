/** Division of signed integers in the three rounding modes. */
module MpzDiv {
  import opened Arith
  import opened Limbs
  import opened Mpn
  import opened Mpz
  import opened Schoolbook

  datatype RoundMode = Floor | Ceil | Trunc

  datatype DivOutcome = DivideByZero | Done(inexact: bool)

  /** q and r are the quotient and remainder of n by d, rounded as `mode` says. */
  ghost predicate IsDivision(mode: RoundMode, n: int, d: int, q: int, r: int) {
    && n == q * d + r && Abs(r) < Abs(d)
    && (r != 0 ==> match mode
                   case Floor => (r > 0) == (d > 0)
                   case Ceil => (r > 0) == (d < 0)
                   case Trunc => (r > 0) == (n > 0))
  }

  /** The quotient is the exact one rounded down, rounded up, or rounded towards zero. */
  lemma ModesAre(n: int, d: int, q: int, r: int)
    requires 0 < d
    ensures IsDivision(Floor, n, d, q, r) <==> r == n - q * d && q * d <= n < q * d + d
    ensures IsDivision(Ceil, n, d, q, r) <==> r == n - q * d && q * d - d < n <= q * d
    ensures IsDivision(Trunc, n, d, q, r) <==> IsDivision(if n >= 0 then Floor else Ceil, n, d, q, r)
  {
  }

  /** Changing the signs of dividend and divisor changes only that of the remainder. */
  lemma SignsChange(mode: RoundMode, n: int, d: int, q: int, r: int)
    ensures IsDivision(mode, -n, -d, q, -r) <==> IsDivision(mode, n, d, q, r)
  {
    Negated(q, d);
    if n == 0 && n == q * d + r && Abs(r) < Abs(d) {
      NothingRemains(q, d, r);
    }
  }

  lemma Negated(q: int, d: int)
    ensures q * (-d) == -(q * d)
  {
  }

  lemma NothingRemains(q: int, d: int, r: int)
    requires 0 == q * d + r && Abs(r) < Abs(d)
    ensures r == 0
  {
    Negated(q, d);
    MultipleInRange(q, if d > 0 then d else -d);
  }

  /** The mode leaves no choice. */
  lemma DivisionUnique(mode: RoundMode, n: int, d: int, q: int, r: int, q': int, r': int)
    requires IsDivision(mode, n, d, q, r) && IsDivision(mode, n, d, q', r')
    ensures q == q' && r == r'
  {
    MulSub(d, q, q');
    if d > 0 {
      MultipleInRange(q - q', d);
    } else if d < 0 {
      MulSub(q - q', 0, d);
      MultipleInRange(q - q', -d);
    }
  }

  /** From truncated division to the other modes: adjust by one when the remainder has the wrong sign. */
  lemma RoundFromTrunc(mode: RoundMode, n: int, d: int, q: int, r: int)
    requires IsDivision(Trunc, n, d, q, r) && n != 0
    ensures var same := (n < 0) == (d < 0);
      if mode == Floor && !same && r != 0 then IsDivision(mode, n, d, q - 1, r + d)
      else if mode == Ceil && same && r != 0 then IsDivision(mode, n, d, q + 1, r - d)
      else IsDivision(mode, n, d, q, r)
  {
    MulDist(d, q, 1);
    MulSub(d, q, 1);
  }

  /** Signs put back on a division of magnitudes. */
  lemma SignedDivision(ns: int, ds: int, nm: int, dm: int, qm: int, rm: int)
    requires nm == qm * dm + rm && 0 <= rm < dm && 0 <= qm && 0 < nm
    ensures var q := if (ns < 0) != (ds < 0) then -qm else qm;
      IsDivision(Trunc, Signed(ns, nm), Signed(ds, dm), q, Signed(ns, rm))
  {
    MulSub(qm, 0, dm);
    MulSub(dm, 0, qm);
    MulSub(0 - dm, 0, qm);
  }

  /** Rounding as the mode says, given the truncated division of the magnitudes; `up` is away from zero. */
  lemma RoundedQuotient(mode: RoundMode, ns: int, nm: int, d: int, qm: int, rl: int, up: bool)
    returns (quot: int, rem: int)
    requires nm == qm * d + rl && 0 <= rl < d && 0 <= qm && 0 < nm && ns != 0
    requires up == (rl > 0 && ((mode == Floor && ns < 0) || (mode == Ceil && ns >= 0)))
    ensures IsDivision(mode, Signed(ns, nm), d, quot, rem)
    ensures quot == Signed(ns, qm + if up then 1 else 0) && rem == Signed(ns, if up then rl - d else rl)
  {
    SignedDivision(ns, 1, nm, d, qm, rl);
    RoundFromTrunc(mode, Signed(ns, nm), d, Signed(ns, qm), Signed(ns, rl));
    quot, rem := Signed(ns, qm + if up then 1 else 0), Signed(ns, if up then rl - d else rl);
  }

  /** A dividend shorter than the divisor leaves the quotient at 0, 1 or -1. */
  lemma SmallDivision(mode: RoundMode, n: int, d: int)
    requires n != 0 && Abs(n) < Abs(d)
    ensures var same := (n < 0) == (d < 0);
      if mode == Ceil && same then IsDivision(mode, n, d, 1, n - d)
      else if mode == Floor && !same then IsDivision(mode, n, d, -1, n + d)
      else IsDivision(mode, n, d, 0, n)
  {}

  /** The objects a division works on: distinct results, and storage not shared between objects. */
  ghost predicate Separate(q: Mpz?, r: Mpz?, n: Mpz, d: Mpz)
    reads n, d, if q != null then {q} else {}, if r != null then {r} else {}
  {
    && n.Apart(d)
    && (q != null ==> q.Apart(n) && q.Apart(d))
    && (r != null ==> r.Apart(n) && r.Apart(d))
    && (q != null && r != null ==> q != r && q.d != r.d)
  }

  /** A quotient of nn by dn limbs is not negative, and has at least nn - dn limbs. */
  lemma QuotientSize(n: seq<Limb>, d: seq<Limb>, quot: int, r: int)
    requires 0 < |d| <= |n| && n[|n| - 1] != 0 && Val(n) == quot * Val(d) + r && 0 <= r < Val(d)
    ensures 0 <= quot && (|n| > |d| ==> Pw(|n| - |d| - 1) <= quot)
  {
    var D := Val(d);
    ValTopNonzero(n);
    ValBound(d);
    MulDist(D, quot, 1);
    MulCancel(-1, quot, D);
    if |n| > |d| {
      var p := Pw(|n| - |d| - 1);
      PwAdd(|n| - |d| - 1, |d|);
      MulMono(p, D, Pw(|d|));
      MulCancel(p, quot + 1, D);
    }
  }

  /** The limbs of a quotient, its top limb dropped when it is zero. */
  lemma QuotientLimbs(s: seq<Limb>, quot: int)
    requires |s| > 0 && Val(s) == quot && (|s| > 1 ==> Pw(|s| - 2) <= quot)
    ensures s[|s| - 1] == 0 ==> Val(s[..|s| - 1]) == quot && (|s| > 1 ==> s[|s| - 2] != 0)
  {
    if s[|s| - 1] == 0 {
      LowSlice(s, |s| - 1);
      if |s| > 1 {
        LargeTop(s[..|s| - 1]);
      }
    }
  }

  /** The limbs divided, in fresh space: quotient limbs (when wanted), and the remainder in np. */
  method DivMagnitudes(wantQ: bool, n: Mpz, d: Mpz) returns (qp: array?<Limb>, np: array<Limb>, ghost quot: int)
    requires n.Valid() && d.Valid() && 0 < Abs(d.size) <= Abs(n.size)
    ensures fresh(np) && np.Length >= Abs(n.size)
    ensures n.Magnitude() == quot * d.Magnitude() + Val(np[..Abs(d.size)])
    ensures Val(np[..Abs(d.size)]) < d.Magnitude()
    ensures wantQ ==> qp != null && fresh(qp) && qp != np && qp.Length == Abs(n.size) - Abs(d.size) + 1
    ensures wantQ ==> Val(qp[..]) == quot
    ensures !wantQ ==> qp == null
  {
    var nn, dn := Abs(n.size), Abs(d.size);
    ghost var N, D := n.d[..nn], d.d[..dn];
    np := new Limb[nn](_ => 0);
    Copyi(np, 0, n.d, 0, nn);
    assert np[..nn] == np[0..0 + nn] == n.d[0..0 + nn] == N;
    qp := null;
    if wantQ {
      qp := new Limb[nn - dn + 1](_ => 0);
    }
    quot := Schoolbook.DivQr(qp, np, nn, d.d, dn);
    assert n.d[..nn] == N && d.d[..dn] == D;
    assert wantQ ==> qp[..nn - dn + 1] == qp[..];
  }

  /** A number from quotient limbs. */
  method QuotientNumber(qp: array<Limb>, negative: bool, ghost quot: int) returns (tq: Mpz)
    requires qp.Length > 0 && Val(qp[..]) == quot && (qp.Length > 1 ==> Pw(qp.Length - 2) <= quot)
    ensures fresh(tq) && tq.d == qp && tq.Valid() && tq.Value() == if negative then -quot else quot
  {
    var qn := qp.Length;
    QuotientLimbs(qp[..], quot);
    assert qp[..][..qn - 1] == qp[..qn - 1] && qp[..qn] == qp[..];
    var size: int := qn - (if qp[qn - 1] == 0 then 1 else 0);
    tq := new Mpz();
    tq.size, tq.d := if negative then -size else size, qp;
  }

  /** Truncated division into fresh objects; the quotient is produced only when wanted. */
  method DivTrunc(wantQ: bool, n: Mpz, d: Mpz) returns (tq: Mpz?, tr: Mpz, ghost quot: int)
    requires n.Valid() && d.Valid() && 0 < Abs(d.size) <= Abs(n.size)
    ensures fresh(tr) && fresh(tr.d) && tr.Valid()
    ensures IsDivision(Trunc, n.Value(), d.Value(), quot, tr.Value())
    ensures wantQ ==> tq != null && fresh(tq) && fresh(tq.d) && tq.Valid() && tq.Value() == quot
                      && tq != tr && tq.d != tr.d
    ensures !wantQ ==> tq == null
  {
    var negative := (n.size < 0) != (d.size < 0);
    var qp, np;
    qp, np, quot := DivMagnitudes(wantQ, n, d);
    ghost var r := Val(np[..Abs(d.size)]);
    ValBound(np[..Abs(d.size)]);
    Nonzero(n);
    QuotientSize(n.d[..Abs(n.size)], d.d[..Abs(d.size)], quot, r);
    SignedDivision(n.size, d.size, n.Magnitude(), d.Magnitude(), quot, r);
    ghost var dn := Abs(d.size);
    assert n.Value() == Signed(n.size, n.Magnitude()) && d.Value() == Signed(d.size, d.Magnitude());
    tr := RemainderNumber(np, Abs(d.size), n.size < 0);
    tq := null;
    if qp != null {
      tq := QuotientNumber(qp, negative, quot);
    }
    quot := if negative then -quot else quot;
  }

  /** A number from the low dn limbs of np. */
  method RemainderNumber(np: array<Limb>, dn: nat, negative: bool) returns (tr: Mpz)
    requires dn <= np.Length
    ensures fresh(tr) && tr.d == np && tr.Valid()
    ensures tr.Value() == if negative then -Val(np[..dn]) else Val(np[..dn])
  {
    var rn: int := NormalizedSize(np, dn);
    tr := new Mpz();
    tr.size, tr.d := if negative then -rn else rn, np;
  }

  /** The case of a dividend with fewer limbs than the divisor. */
  method DivSmaller(q: Mpz?, r: Mpz?, n: Mpz, d: Mpz, mode: RoundMode)
    returns (ghost quot: int, ghost rem: int)
    requires n.Valid() && d.Valid() && Separate(q, r, n, d) && 0 < Abs(n.size) < Abs(d.size)
    requires (q != null ==> q.Valid()) && (r != null ==> r.Valid())
    modifies if q != null then {q, q.d} else {}, if r != null then {r, r.d} else {}
    ensures IsDivision(mode, old(n.Value()), old(d.Value()), quot, rem) && rem != 0
    ensures q != null ==> q.Valid() && q.Value() == quot && (q.d == old(q.d) || fresh(q.d))
    ensures r != null ==> r.Valid() && r.Value() == rem && (r.d == old(r.d) || fresh(r.d))
    ensures q != null && r != null ==> q.d != r.d
  {
    var same := (n.size < 0) == (d.size < 0);
    ghost var N, D := n.Value(), d.Value();
    SmallerOperands(n, d);
    SmallDivision(mode, N, D);
    if mode == Ceil && same {
      quot, rem := 1, N - D;
      if r != null {
        r.Sub(n, d);
      }
      if q != null {
        q.SetSmall(1, false);
      }
    } else if mode == Floor && !same {
      quot, rem := -1, N + D;
      if r != null {
        r.Add(n, d);
      }
      if q != null {
        q.SetSmall(1, true);
      }
    } else {
      quot, rem := 0, N;
      if r != null {
        r.Set(n);
      }
      if q != null {
        q.size := 0;
      }
    }
  }

  lemma SmallerOperands(n: Mpz, d: Mpz)
    requires n.Valid() && d.Valid() && 0 < Abs(n.size) < Abs(d.size)
    ensures n.Value() != 0 && Abs(n.Value()) < Abs(d.Value())
    ensures (n.Value() < 0) == (n.size < 0) && (d.Value() < 0) == (d.size < 0)
  {
    Nonzero(n);
    Nonzero(d);
    LongerIsLarger(n.d[..Abs(n.size)], d.d[..Abs(d.size)]);
  }

  /** One step of the quotient down or up, with the remainder (when wanted) moved by the divisor. */
  method AdjustTowards(tq: Mpz?, tr: Mpz, d: Mpz, down: bool, wantR: bool)
    requires tr.Valid() && d.Valid() && tr != d && tr.d != d.d
    requires tq != null ==> tq.Valid() && tq != tr && tq.d != tr.d && tq != d && tq.d != d.d
    modifies tr, tr.d, tq, if tq != null then {tq.d} else {}
    ensures tr.Valid() && (wantR ==> tr.Value() == old(tr.Value()) + if down then d.Value() else -d.Value())
    ensures tr.d == old(tr.d) || fresh(tr.d)
    ensures tq != null ==> tq.Valid() && tq.Value() == old(tq.Value()) + if down then -1 else 1
    ensures tq != null ==> (tq.d == old(tq.d) || fresh(tq.d)) && tq.d != tr.d
  {
    if tq != null {
      if down {
        tq.SubUi(tq, 1);
      } else {
        tq.AddUi(tq, 1);
      }
    }
    if wantR {
      if down {
        tr.Add(tr, d);
      } else {
        tr.Sub(tr, d);
      }
    }
  }

  /** The truncated quotient and remainder moved to where the mode wants them. */
  method RoundResults(tq: Mpz?, tr: Mpz, n: Mpz, d: Mpz, mode: RoundMode, wantR: bool, ghost q0: int)
    returns (inexact: bool, ghost quot: int, ghost rem: int)
    requires n.Valid() && d.Valid() && tr.Valid() && tr != d && tr.d != d.d && n.size != 0 && d.size != 0
    requires tq != null ==> tq.Valid() && tq.Value() == q0 && tq != tr && tq.d != tr.d && tq != d && tq.d != d.d
    requires IsDivision(Trunc, n.Value(), d.Value(), q0, tr.Value())
    modifies tr, tr.d, tq, if tq != null then {tq.d} else {}
    ensures IsDivision(mode, old(n.Value()), old(d.Value()), quot, rem) && inexact == (rem != 0)
    ensures tr.Valid() && (wantR ==> tr.Value() == rem) && (tr.d == old(tr.d) || fresh(tr.d))
    ensures tq != null ==> tq.Valid() && tq.Value() == quot && (tq.d == old(tq.d) || fresh(tq.d)) && tq.d != tr.d
  {
    var same := (n.size < 0) == (d.size < 0);
    Nonzero(n);
    Nonzero(d);
    ghost var D := d.Value();
    quot, rem := q0, tr.Value();
    Nonzero(tr);
    inexact := tr.size != 0;
    RoundFromTrunc(mode, n.Value(), D, quot, rem);
    if mode == Floor && !same && inexact {
      AdjustTowards(tq, tr, d, true, wantR);
      quot, rem := quot - 1, rem + D;
    } else if mode == Ceil && same && inexact {
      AdjustTowards(tq, tr, d, false, wantR);
      quot, rem := quot + 1, rem - D;
    }
  }

  /** Division rounded as asked, into fresh objects. */
  method DivRounded(wantQ: bool, wantR: bool, n: Mpz, d: Mpz, mode: RoundMode)
    returns (tq: Mpz?, tr: Mpz, inexact: bool, ghost quot: int, ghost rem: int)
    requires n.Valid() && d.Valid() && 0 < Abs(d.size) <= Abs(n.size)
    ensures IsDivision(mode, n.Value(), d.Value(), quot, rem) && inexact == (rem != 0)
    ensures fresh(tr) && fresh(tr.d) && tr.Valid() && (wantR ==> tr.Value() == rem)
    ensures wantQ ==> tq != null && fresh(tq) && fresh(tq.d) && tq.Valid() && tq.Value() == quot && tq.d != tr.d
  {
    tq, tr, quot := DivTrunc(wantQ, n, d);
    inexact, quot, rem := RoundResults(tq, tr, n, d, mode, wantR, quot);
  }

  /** The case of a dividend with at least as many limbs as the divisor. */
  method DivLarger(q: Mpz?, r: Mpz?, n: Mpz, d: Mpz, mode: RoundMode)
    returns (inexact: bool, ghost quot: int, ghost rem: int)
    requires n.Valid() && d.Valid() && Separate(q, r, n, d) && 0 < Abs(d.size) <= Abs(n.size)
    requires (q != null ==> q.Valid()) && (r != null ==> r.Valid())
    modifies q, r
    ensures IsDivision(mode, old(n.Value()), old(d.Value()), quot, rem) && inexact == (rem != 0)
    ensures q != null ==> q.Valid() && q.Value() == quot && fresh(q.d)
    ensures r != null ==> r.Valid() && r.Value() == rem && fresh(r.d)
    ensures q != null && r != null ==> q.d != r.d
  {
    var tq, tr;
    tq, tr, inexact, quot, rem := DivRounded(q != null, r != null, n, d, mode);
    if q != null {
      Take(q, tq);
    }
    if r != null {
      Take(r, tr);
    }
  }

  /** The swap that hands a temporary's value to a result. */
  method Take(x: Mpz, t: Mpz)
    requires t.Valid() && x != t
    modifies x
    ensures x.Valid() && x.Value() == t.Value() && x.d == t.d
  {
    x.size, x.d := t.size, t.d;
  }

  /**
   q and r (each when wanted) get the quotient and remainder of n by d. The result tells
   whether the division was inexact; dividing by zero is reported instead.
   */
  method DivQr(q: Mpz?, r: Mpz?, n: Mpz, d: Mpz, mode: RoundMode)
    returns (res: DivOutcome, ghost quot: int, ghost rem: int)
    requires n.Valid() && d.Valid() && Separate(q, r, n, d)
    requires (q != null ==> q.Valid()) && (r != null ==> r.Valid())
    modifies if q != null then {q, q.d} else {}, if r != null then {r, r.d} else {}
    ensures res.DivideByZero? <==> old(d.Value()) == 0
    ensures res.Done? ==> IsDivision(mode, old(n.Value()), old(d.Value()), quot, rem) && res.inexact == (rem != 0)
    ensures res.Done? && q != null ==> q.Valid() && q.Value() == quot && (q.d == old(q.d) || fresh(q.d))
    ensures res.Done? && r != null ==> r.Valid() && r.Value() == rem && (r.d == old(r.d) || fresh(r.d))
    ensures res.Done? && q != null && r != null ==> q.d != r.d
  {
    quot, rem := 0, 0;
    Nonzero(d);
    Nonzero(n);
    if d.size == 0 {
      return DivideByZero, 0, 0;
    }
    if n.size == 0 {
      if q != null {
        q.size := 0;
      }
      if r != null {
        r.size := 0;
      }
      return Done(false), 0, 0;
    }
    if Abs(n.size) < Abs(d.size) {
      quot, rem := DivSmaller(q, r, n, d, mode);
      res := Done(true);
    } else {
      var inexact;
      inexact, quot, rem := DivLarger(q, r, n, d, mode);
      res := Done(inexact);
    }
  }

  /** Division rounding towards zero. */
  function TDiv(a: int, b: int): int
    requires b != 0
  {
    if (a < 0) == (b < 0) then Abs(a) / Abs(b) else -(Abs(a) / Abs(b))
  }

  lemma TruncIsTDiv(n: int, d: int, q: int, r: int)
    requires d != 0 && IsDivision(Trunc, n, d, q, r)
    ensures q == TDiv(n, d)
  {
    var Q, R := Abs(n) / Abs(d), Abs(n) % Abs(d);
    DivBounds(Abs(n), Abs(d));
    MulSub(Q, 0, Abs(d));
    MulSub(Abs(d), 0, Q);
    DivisionUnique(Trunc, n, d, q, r, TDiv(n, d), if n < 0 then -R else R);
  }

  /** q = n / d, rounded towards zero. */
  method TdivQ(q: Mpz, n: Mpz, d: Mpz)
    requires q.Valid() && n.Valid() && d.Valid() && n.Apart(d) && q.Apart(n) && q.Apart(d) && d.Value() != 0
    modifies q, q.d
    ensures q.Valid() && (q.d == old(q.d) || fresh(q.d))
    ensures q.Value() == TDiv(old(n.Value()), old(d.Value()))
  {
    ghost var N, D := n.Value(), d.Value();
    var res;
    ghost var quot, rem;
    res, quot, rem := DivQr(q, null, n, d, Trunc);
    TruncIsTDiv(N, D, quot, rem);
  }

  lemma Nonzero(x: Mpz)
    requires x.Valid()
    ensures x.Value() == 0 <==> x.size == 0
    ensures x.Value() < 0 <==> x.size < 0
  {
    ValBound(x.d[..Abs(x.size)]);
    if x.size != 0 {
      ValTopNonzero(x.d[..Abs(x.size)]);
    }
  }

  lemma MagnitudeIs(x: Mpz)
    requires x.Valid()
    ensures x.Magnitude() == Abs(x.Value())
  {
    Nonzero(x);
  }
}
