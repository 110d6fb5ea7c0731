/**
 Powers of two in mpz variables: where the lowest set bit is, and multiplying and dividing
 by 2^bits in whole limbs and a shift within limbs.
 */
module MpzShift {
  import opened Arith
  import opened Powers
  import opened Limbs
  import opened Bits
  import opened Bitwise
  import opened Mpn
  import opened MpnDiv
  import opened Mpz
  import opened MpzDiv

  // ---- the lowest set bit ----

  /** x is an odd number times 2^shift. */
  ghost predicate OddTimes(x: int, shift: nat, odd: int) {
    x == Pow2(shift) * odd && odd % 2 == 1
  }

  lemma OddQuotient(x: int, shift: nat, odd: int)
    requires OddTimes(x, shift, odd)
    ensures OddTimes(x, shift, x / Pow2(shift))
  {
    DivModUnique(x, Pow2(shift), odd, 0);
  }

  /** x & -x on words of n bits keeps the lowest set bit of x, and nothing else. */
  lemma {:induction false} LowestBit(x: int, n: nat) returns (k: nat, odd: int)
    requires 0 < x < Pow2(n)
    ensures k < n && OddTimes(x, k, odd)
    ensures Apply(And, x, Pow2(n) - x) == Pow2(k)
    decreases n
  {
    var h := Pow2(n - 1);
    assert Pow2(n) == 2 * h;
    BitwiseStep(And, x, 2 * h - x);
    if x % 2 == 1 {
      Complements(x / 2, h - 1 - x / 2, n - 1);
      k, odd := 0, x;
      assert (2 * h - x) / 2 == h - 1 - x / 2 && Pow2(0) == 1;
    } else {
      k, odd := LowestBit(x / 2, n - 1);
      MulAssoc(2, Pow2(k), odd);
      k := k + 1;
      assert (2 * h - x) / 2 == h - x / 2;
    }
  }

  /** A number and its complement have no bit in common. */
  lemma {:induction false} Complements(e: int, f: int, n: nat)
    requires 0 <= e && 0 <= f && e + f == Pow2(n) - 1
    ensures Apply(And, e, f) == 0
    decreases n
  {
    if n > 0 {
      BitwiseStep(And, e, f);
      Complements(e / 2, f / 2, n - 1);
    }
  }

  /** The number of trailing zero bits. */
  method Ctz(x: Limb) returns (count: nat)
    requires x > 0
    ensures count < LIMB_BITS && OddTimes(x, count, x / Pow2(count))
  {
    assert Pow2(LIMB_BITS) == B by { Pow2Constants(); }
    ghost var k, odd := LowestBit(x, LIMB_BITS);
    OddQuotient(x, k, odd);
    assert Pow2(k) < B by {
      Pow2Monotone(k, LIMB_BITS - 1);
      Pow2Constants();
    }
    var c := Clz(Apply(And, x, SubW(0, x)));
    TopBitAt(k, c);
    count := LIMB_BITS - 1 - c;
  }

  lemma TopBitAt(k: nat, c: nat)
    requires B / 2 <= Pow2(k) * Pow2(c) < B
    ensures k + c == LIMB_BITS - 1
  {
    Pow2Add(k, c);
    TopBitOnly(k + c, Pow2(k + c));
  }

  lemma {:induction false} TopBitOnly(n: nat, p: int)
    requires p == Pow2(n) && B / 2 <= p < B
    ensures n == LIMB_BITS - 1
  {
    var t := LIMB_BITS - 1;
    Pow2Constants();
    if n < t {
      Pow2Monotone(n + 1, t);
    } else if n > t {
      Pow2Monotone(t + 1, n);
    }
  }

  /** An odd number stays odd when a multiple of 2^(64 - cnt) comes on top of it. */
  lemma OddOnTop(x: int, cnt: nat, odd: int, rest: int) returns (odd': int)
    requires cnt < LIMB_BITS && OddTimes(x, cnt, odd)
    ensures OddTimes(x + B * rest, cnt, odd')
  {
    var half := Pow2(LIMB_BITS - 1 - cnt);
    assert Pow2(cnt) * (2 * half) == B by { Pow2Complement(cnt); }
    ScaledOnTop(x, Pow2(cnt), half, odd, rest, B);
    odd' := odd + 2 * (half * rest);
    StillOdd(odd, half * rest);
  }

  lemma ScaledOnTop(x: int, c: int, half: int, odd: int, rest: int, b: int)
    requires x == c * odd && c * (2 * half) == b
    ensures x + b * rest == c * (odd + 2 * (half * rest))
  {
    MulAssoc(c, 2 * half, rest);
    MulAssoc(2, half, rest);
    MulDist(c, odd, 2 * (half * rest));
  }

  lemma StillOdd(odd: int, z: int)
    requires odd % 2 == 1
    ensures (odd + 2 * z) % 2 == 1
  {}

  /** The lowest set bit of a run whose i low limbs are zero and whose next limb is not. */
  lemma OddTimesRun(u: seq<Limb>, i: nat, cnt: nat, odd: int) returns (odd': int)
    requires i < |u| && (forall j :: 0 <= j < i ==> u[j] == 0)
    requires cnt < LIMB_BITS && OddTimes(u[i], cnt, odd)
    ensures OddTimes(Val(u), LIMB_BITS * i + cnt, odd')
  {
    ValSplit(u, i);
    LowSlice(u, i);
    LowZeros(u, i);
    UpperStep(u, i);
    odd' := OddOnTop(u[i], cnt, odd, Val(u[i + 1..]));
    PwIsPow2(i);
    Pow2Add(LIMB_BITS * i, cnt);
    MulAssoc(Pow2(LIMB_BITS * i), Pow2(cnt), odd');
  }

  /** The position of the lowest set bit of a positive number. */
  method Scan(u: Mpz) returns (bit: nat)
    requires u.Valid() && u.size > 0
    ensures OddTimes(u.Value(), bit, u.Value() / Pow2(bit))
  {
    var i, limb := 0, u.d[0];
    while limb == 0
      invariant 0 <= i < u.size && limb == u.d[i] && forall j :: 0 <= j < i ==> u.d[j] == 0
      decreases u.size - i
    {
      i := i + 1;
      limb := u.d[i];
    }
    var cnt := Ctz(limb);
    ghost var odd := OddTimesRun(u.d[..u.size], i, cnt, limb / Pow2(cnt));
    bit := i * LIMB_BITS + cnt;
    OddQuotient(u.Value(), bit, odd);
  }

  // ---- multiplying by a power of two ----

  /** The shifted limbs with what left them on top. */
  lemma CarriedTop(u: seq<Limb>, t: seq<Limb>, cy: Limb, c: int) returns (s: seq<Limb>)
    requires |t| == |u| > 0 && u[|u| - 1] != 0 && 1 <= c && Val(t) + Pw(|t|) * cy == c * Val(u)
    ensures s == t + if cy == 0 then [] else [cy]
    ensures Val(s) == c * Val(u) && s[|s| - 1] != 0
  {
    if cy == 0 {
      s := t;
      ValTopNonzero(u);
      MulMono(Val(u), 1, c);
      LargeTop(t);
    } else {
      s := t + [cy];
      ValSnoc(t, cy);
    }
  }

  /** The limbs of a number scaled by 2^(64 * limbs + shift), above as many zeros. */
  lemma ShiftedRun(s: seq<Limb>, x: int, limbs: nat, shift: nat)
    requires limbs <= |s| && (forall j :: 0 <= j < limbs ==> s[j] == 0)
    requires Val(s[limbs..]) == Pow2(shift) * x
    ensures Val(s) == x * Pow2(LIMB_BITS * limbs + shift)
  {
    ValSplit(s, limbs);
    LowSlice(s, limbs);
    LowZeros(s, limbs);
    PwIsPow2(limbs);
    Pow2Add(LIMB_BITS * limbs, shift);
    Reassociate(Pw(limbs), Pow2(shift), x);
  }

  lemma Reassociate(p: int, c: int, x: int)
    ensures p * (c * x) == x * (p * c)
  {
    MulAssoc(p, c, x);
  }

  /** The limbs of u shifted by less than a limb, and placed from limb `limbs` of d on. */
  method ShiftInto(d: array<Limb>, ud: array<Limb>, un: nat, limbs: nat, shift: nat) returns (rn: nat)
    requires 0 < un <= ud.Length && ud[un - 1] != 0 && shift < LIMB_BITS
    requires un + limbs + (if shift > 0 then 1 else 0) <= d.Length
    modifies d
    ensures limbs < rn <= d.Length && d[rn - 1] != 0
    ensures Val(d[limbs..rn]) == Pow2(shift) * old(Val(ud[..un]))
  {
    ghost var u := ud[..un];
    assert u == ud[0..0 + un];
    rn := un + limbs;
    if shift > 0 {
      var cy := LShift(d, limbs, ud, 0, un, shift);
      ghost var t := d[limbs..rn];
      ghost var s := CarriedTop(u, t, cy, Pow2(shift));
      d[rn] := cy;
      rn := rn + if cy == 0 then 0 else 1;
      assert d[limbs..rn] == s && d[rn - 1] == s[|s| - 1];
    } else {
      Copyd(d, limbs, ud, 0, un);
      assert d[limbs..rn] == u && d[rn - 1] == u[un - 1] && Pow2(0) == 1;
    }
  }

  /** The limbs of u shifted up inside d, which may be u's own array. */
  method ShiftUp(d: array<Limb>, ud: array<Limb>, un: nat, limbs: nat, shift: nat) returns (rn: nat)
    requires 0 < un <= ud.Length && ud[un - 1] != 0 && shift < LIMB_BITS
    requires un + limbs + (if shift > 0 then 1 else 0) <= d.Length
    modifies d
    ensures 0 < rn <= d.Length && d[rn - 1] != 0
    ensures Val(d[..rn]) == old(Val(ud[..un])) * Pow2(LIMB_BITS * limbs + shift)
  {
    ghost var x := Val(ud[..un]);
    rn := ShiftInto(d, ud, un, limbs, shift);
    ghost var s := d[limbs..rn];
    Zero(d, limbs);
    assert d[..rn][limbs..] == s;
    ShiftedRun(d[..rn], x, limbs, shift);
  }

  /** r = u * 2^bits. */
  method Mul2exp(r: Mpz, u: Mpz, bits: nat)
    requires u.Valid() && r.Apart(u)
    modifies r, r.d
    ensures r.Valid() && (r.d == old(r.d) || fresh(r.d))
    ensures r.Value() == old(u.Value()) * Pow2(bits)
  {
    var us := u.size;
    if us == 0 {
      r.size := 0;
      return;
    }
    ghost var U := u.d[..Abs(us)];
    MulSub(Pow2(bits), 0, Val(U));
    var limbs, shift := bits / LIMB_BITS, bits % LIMB_BITS;
    r.Realloc(Abs(us) + limbs + if shift > 0 then 1 else 0);
    assert u.d[..Abs(us)] == U;
    var rn: int := ShiftUp(r.d, u.d, Abs(us), limbs, shift);
    r.size := if us < 0 then -rn else rn;
  }

  // ---- dividing by a power of two ----

  /** The number without its 64 * limbs + shift low bits, from the limbs above. */
  lemma UpperQuotient(u: seq<Limb>, limbs: nat, shift: nat, q: int, lost: int)
    requires limbs <= |u| && Val(u[limbs..]) == Pow2(shift) * q + lost && 0 <= lost < Pow2(shift)
    ensures Val(u) / Pow2(LIMB_BITS * limbs + shift) == q
    ensures Val(u) % Pow2(LIMB_BITS * limbs + shift) == Val(u[..limbs]) + Pw(limbs) * lost
  {
    ValSplit(u, limbs);
    ValBound(u[..limbs]);
    PwIsPow2(limbs);
    Pow2Add(LIMB_BITS * limbs, shift);
    NestedSplit(Val(u[..limbs]), Pw(limbs), q, lost, Pow2(shift));
  }

  lemma NestedSplit(low: int, p: int, q: int, lost: int, c: int)
    requires 0 <= low < p && 0 <= lost < c
    ensures 0 < p * c && (low + p * (c * q + lost)) / (p * c) == q
    ensures (low + p * (c * q + lost)) % (p * c) == low + p * lost
  {
    MulPositive(p, c);
    MulDist(p, c * q, lost);
    MulAssoc(p, c, q);
    MulNonNeg(p, lost);
    MulMono(p, lost + 1, c);
    MulDist(p, lost, 1);
    DivModUnique(low + p * (c * q + lost), p * c, q, low + p * lost);
  }

  /** Bits that a word-sized shift drops are few: what is left keeps all limbs but perhaps one. */
  lemma FewLost(x: int, q: int, lost: int, n: nat, shift: nat)
    requires shift <= LIMB_BITS && x == Pow2(shift) * q + lost && 0 <= lost < Pow2(shift) && Pw(n) <= x
    ensures 0 <= q && (n > 0 ==> Pw(n - 1) <= q)
  {
    AtLeastPart(x, q, lost, Pow2(shift), 0);
    if n > 0 {
      Pow2Complement(shift);
      MulMono(Pw(n - 1), Pow2(shift), B);
      AtLeastPart(x, q, lost, Pow2(shift), Pw(n - 1));
    }
  }

  lemma AtLeastPart(x: int, q: int, lost: int, c: int, p: int)
    requires x == c * q + lost && 0 <= lost < c && p * c <= x
    ensures p <= q
  {
    MulDist(c, q, 1);
    MulCancel(p, q + 1, c);
  }

  /** The limbs of u from limb `limbs` on, shifted down into d, which may be u's own array. */
  method ShiftDown(d: array<Limb>, ud: array<Limb>, un: nat, limbs: nat, shift: nat) returns (qn: nat)
    requires limbs < un <= ud.Length && ud[un - 1] != 0 && shift < LIMB_BITS && un - limbs <= d.Length
    modifies d
    ensures qn <= d.Length && (qn > 0 ==> d[qn - 1] != 0)
    ensures Val(d[..qn]) == old(Val(ud[..un])) / Pow2(LIMB_BITS * limbs + shift)
  {
    ghost var u := ud[..un];
    qn := un - limbs;
    ghost var top := u[limbs..];
    assert top == ud[limbs..limbs + qn];
    ghost var lost := 0;
    if shift != 0 {
      lost := ud[limbs] % Pow2(shift);
      var _ := RShift(d, 0, ud, limbs, qn, shift);
    } else {
      Copyi(d, 0, ud, limbs, qn);
      assert Pow2(0) == 1;
    }
    ghost var s := d[..qn];
    assert s == d[0..0 + qn];
    UpperQuotient(u, limbs, shift, Val(s), lost);
    ValTopNonzero(top);
    FewLost(Val(top), Val(s), lost, qn - 1, shift);
    QuotientLimbs(s, Val(s));
    if d[qn - 1] == 0 {
      qn := qn - 1;
      assert d[..qn] == s[..qn];
    }
  }

  /** A run cut at bit 64 * limbs + shift, by way of the limb that bit is in. */
  lemma CutAt(u: seq<Limb>, limbs: nat, shift: nat) returns (q: int)
    requires limbs < |u| && shift < LIMB_BITS
    ensures Val(u) / Pow2(LIMB_BITS * limbs + shift) == q && q % 2 == Shr(u[limbs], shift) % 2
    ensures Val(u) % Pow2(LIMB_BITS * limbs + shift) == Val(u[..limbs]) + Pw(limbs) * (u[limbs] % Pow2(shift))
  {
    UpperStep(u, limbs);
    q := CutUpper(u[limbs], shift, Val(u[limbs + 1..]));
    UpperQuotient(u, limbs, shift, q, u[limbs] % Pow2(shift));
  }

  lemma CutUpper(x: Limb, shift: nat, rest: int) returns (q: int)
    requires shift < LIMB_BITS
    ensures x + B * rest == Pow2(shift) * q + x % Pow2(shift) && q % 2 == Shr(x, shift) % 2
    ensures 0 <= x % Pow2(shift) < Pow2(shift)
  {
    var half := Pow2(LIMB_BITS - 1 - shift);
    Pow2Complement(shift);
    DivBounds(x, Pow2(shift));
    q := CutLimb(x, Pow2(shift), x / Pow2(shift), x % Pow2(shift), half, rest, B);
  }

  lemma CutLimb(x: int, c: int, low: int, lost: int, half: int, rest: int, b: int) returns (q: int)
    requires x == low * c + lost && c * (2 * half) == b
    ensures x + b * rest == c * q + lost && q % 2 == low % 2
  {
    MulAssoc(c, 2 * half, rest);
    MulAssoc(2, half, rest);
    MulDist(c, low, 2 * (half * rest));
    q := low + 2 * (half * rest);
    SameParity(low, half * rest);
  }

  lemma SameParity(x: int, z: int)
    ensures (x + 2 * z) % 2 == x % 2
  {}

  /** Whether n limbs are all zero. */
  method IsZero(up: array<Limb>, n: nat) returns (z: bool)
    requires n <= up.Length
    ensures z == (Val(up[..n]) == 0)
  {
    var k := NormalizedSize(up, n);
    z := k == 0;
    if k > 0 {
      ValTopNonzero(up[..k]);
    }
  }

  /** Whether dropping the 64 * limbs + shift low bits loses a one. */
  method LosesBits(up: array<Limb>, un: nat, limbs: nat, shift: nat) returns (lost: bool)
    requires 0 < un <= up.Length && up[un - 1] != 0 && shift < LIMB_BITS
    ensures lost == (Val(up[..un]) % Pow2(LIMB_BITS * limbs + shift) != 0)
  {
    ghost var u := up[..un];
    if un <= limbs {
      ShiftedOut(u, LIMB_BITS * limbs + shift);
      ValTopNonzero(u);
      return true;
    }
    ghost var q := CutAt(u, limbs, shift);
    assert u[..limbs] == up[..limbs];
    ValBound(u[..limbs]);
    DivBounds(u[limbs], Pow2(shift));
    var z := IsZero(up, limbs);
    LowMask(up[limbs], shift);
    lost := !z || Apply(And, up[limbs], Pow2(shift) - 1) != 0;
    MulMono(Pw(limbs), if u[limbs] % Pow2(shift) > 0 then 1 else 0, u[limbs] % Pow2(shift));
  }

  lemma ShiftedOut(u: seq<Limb>, cnt: nat)
    requires |u| <= cnt / LIMB_BITS
    ensures Val(u) / Pow2(cnt) == 0 && Val(u) % Pow2(cnt) == Val(u)
  {
    ValBound(u);
    PwIsPow2(|u|);
    Pow2Monotone(LIMB_BITS * |u|, cnt);
    DivModUnique(Val(u), Pow2(cnt), 0, Val(u));
  }

  /** q = |u| / 2^cnt, rounded down. */
  method ShiftMagnitude(q: Mpz, u: Mpz, cnt: nat)
    requires u.Valid() && q.Apart(u) && u.size != 0
    modifies q, q.d
    ensures q.Valid() && (q.d == old(q.d) || fresh(q.d))
    ensures q.Value() == old(u.Magnitude()) / Pow2(cnt)
  {
    var un := Abs(u.size);
    ghost var U := u.d[..un];
    var limbs, shift := cnt / LIMB_BITS, cnt % LIMB_BITS;
    var qn: int := 0;
    if limbs < un {
      q.Realloc(un - limbs);
      assert u.d[..un] == U;
      qn := ShiftDown(q.d, u.d, un, limbs, shift);
    } else {
      ShiftedOut(U, cnt);
    }
    q.size := qn;
  }

  /** q = u / 2^cnt, rounded as the mode says. */
  method DivQ2exp(q: Mpz, u: Mpz, cnt: nat, mode: RoundMode) returns (ghost quot: int, ghost rem: int)
    requires u.Valid() && q.Apart(u)
    modifies q, q.d
    ensures q.Valid() && (q.d == old(q.d) || fresh(q.d)) && q.Value() == quot
    ensures IsDivision(mode, old(u.Value()), Pow2(cnt), quot, rem)
  {
    var un := u.size;
    if un == 0 {
      q.size := 0;
      return 0, 0;
    }
    ghost var m, c := u.Magnitude(), Pow2(cnt);
    Nonzero(u);
    DivBounds(m, c);
    var lost := LosesBits(u.d, Abs(un), cnt / LIMB_BITS, cnt % LIMB_BITS);
    var adjust := mode == (if un > 0 then Ceil else Floor) && lost;
    quot, rem := RoundedQuotient(mode, un, m, c, m / c, m % c, adjust);
    ShiftMagnitude(q, u, cnt);
    Adjust(q, adjust, un < 0);
  }

  /** One more when asked, and then the sign. */
  method Adjust(q: Mpz, adjust: bool, negative: bool)
    requires q.Valid()
    modifies q, q.d
    ensures q.Valid() && (q.d == old(q.d) || fresh(q.d))
    ensures var m := old(q.Value()) + (if adjust then 1 else 0); q.Value() == if negative then -m else m
  {
    if adjust {
      q.AddUi(q, 1);
    }
    if negative {
      q.SetNeg(q);
    }
  }

  /** q = u / 2^cnt, rounded towards zero. */
  method TdivQ2exp(q: Mpz, u: Mpz, cnt: nat)
    requires u.Valid() && q.Apart(u)
    modifies q, q.d
    ensures q.Valid() && (q.d == old(q.d) || fresh(q.d))
    ensures q.Value() == TDiv(old(u.Value()), Pow2(cnt))
  {
    ghost var x, rem := u.Value(), 0;
    ghost var quot;
    quot, rem := DivQ2exp(q, u, cnt, Trunc);
    TruncIsTDiv(x, Pow2(cnt), quot, rem);
  }

  /** A positive number loses its trailing zero bits, whose number is returned. */
  method MakeOdd(r: Mpz) returns (shift: nat)
    requires r.Valid() && r.size > 0
    modifies r, r.d
    ensures r.Valid() && (r.d == old(r.d) || fresh(r.d))
    ensures r.Value() > 0 && r.Value() % 2 == 1 && old(r.Value()) == Pow2(shift) * r.Value()
  {
    Nonzero(r);
    ghost var x := r.Value();
    shift := Scan(r);
    TdivQ2exp(r, r, shift);
    MulCancel(0, x / Pow2(shift), Pow2(shift));
  }
}
