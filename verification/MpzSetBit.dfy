/** Single bits of mpz variables, whose sign and magnitude stand for two's complement. */
module MpzSetBit {
  import opened Arith
  import opened Powers
  import opened Limbs
  import opened Bits
  import opened Bitwise
  import opened Mpn
  import opened Mpz
  import opened MpzDiv
  import opened MpzShift

  // ---- testing a bit ----

  /** Negating a number keeps its bits up to the lowest one that is set, and turns all others over. */
  lemma BitOfNegative(m: int, k: nat)
    ensures Bit(-m, k) <==> (if m % Pow2(k) == 0 then Bit(m, k) else !Bit(m, k))
  {
    BitOfQuotient(m, k);
    BitOfQuotient(-m, k);
    NegatedQuotient(m, Pow2(k), m / Pow2(k), m % Pow2(k));
    NegatedParity(m / Pow2(k));
  }

  lemma NegatedQuotient(m: int, p: int, q: int, r: int)
    requires 0 < p && q == m / p && r == m % p
    ensures (-m) / p == if r == 0 then -q else -q - 1
  {
    DivBounds(m, p);
    MulSub(p, 0, q);
    MulDist(p, -q, -1);
    DivModUnique(-m, p, if r == 0 then -q else -q - 1, if r == 0 then 0 else p - r);
  }

  lemma NegatedParity(q: int)
    ensures (-q) % 2 == q % 2 && (-q - 1) % 2 == 1 - q % 2
  {}

  /** Above its last limb a number has only sign bits. */
  lemma BitAbove(d: Mpz, k: nat)
    requires d.Valid() && Abs(d.size) <= k / LIMB_BITS
    ensures Bit(d.Value(), k) <==> d.size < 0
  {
    var u := d.d[..Abs(d.size)];
    Nonzero(d);
    ShiftedOut(u, k);
    BitOfQuotient(Val(u), k);
    BitOfNegative(Val(u), k);
  }

  /** Whether bits below 64 * limbIndex + shift are set. */
  method AnyBelow(dp: array<Limb>, dn: nat, limbIndex: nat, shift: nat) returns (any: bool)
    requires limbIndex < dn <= dp.Length && shift < LIMB_BITS
    ensures any == (Val(dp[..dn]) % Pow2(LIMB_BITS * limbIndex + shift) != 0)
  {
    ghost var u := dp[..dn];
    ghost var q := CutAt(u, limbIndex, shift);
    ShrParts(u[limbIndex], shift);
    BelowIsLow(u, limbIndex, shift);
    if shift > 0 && ShlW(dp[limbIndex], LIMB_BITS - shift) > 0 {
      return true;
    }
    var i := limbIndex;
    while i > 0
      invariant 0 <= i <= limbIndex && forall j :: i <= j < limbIndex ==> u[j] == 0
    {
      i := i - 1;
      if dp[i] > 0 {
        NonzeroLimb(u[..limbIndex], i);
        return true;
      }
    }
    LowZeros(u[..limbIndex], limbIndex);
    any := false;
  }

  /** The bits below one are set when those in its limb are, or those in the limbs below. */
  lemma BelowIsLow(u: seq<Limb>, limbIndex: nat, shift: nat)
    requires limbIndex < |u| && shift < LIMB_BITS
    ensures Val(u[..limbIndex]) + Pw(limbIndex) * (u[limbIndex] % Pow2(shift)) != 0 <==>
            Val(u[..limbIndex]) != 0 || (shift > 0 && ShlW(u[limbIndex], LIMB_BITS - shift) > 0)
  {
    var r := u[limbIndex] % Pow2(shift);
    ValBound(u[..limbIndex]);
    DivBounds(u[limbIndex], Pow2(shift));
    ShrParts(u[limbIndex], shift);
    assert Pow2(0) == 1;
    if r > 0 {
      MulPositive(Pw(limbIndex), r);
      MulPositive(r, Pow2(LIMB_BITS - shift));
    }
  }

  lemma {:induction false} NonzeroLimb(s: seq<Limb>, i: nat)
    requires i < |s| && s[i] > 0
    ensures Val(s) > 0
  {
    LowGrows(s, i + 1, |s|);
    LowBound(s, i);
    MulPositive(Pw(i), s[i]);
  }

  lemma {:induction false} LowGrows(s: seq<Limb>, m: nat, n: nat)
    requires m <= n <= |s|
    ensures Low(s, m) <= Low(s, n)
  {
    if m < n {
      LowGrows(s, m, n - 1);
      MulNonNeg(Pw(n - 1), s[n - 1]);
    }
  }

  /** Bit bitIndex of d in two's complement. */
  method TstBit(d: Mpz, bitIndex: nat) returns (bit: bool)
    requires d.Valid()
    ensures bit == Bit(d.Value(), bitIndex)
  {
    var dn := Abs(d.size);
    var limbIndex, shift := bitIndex / LIMB_BITS, bitIndex % LIMB_BITS;
    if limbIndex >= dn {
      BitAbove(d, bitIndex);
      return d.size < 0;
    }
    ghost var m := d.Magnitude();
    ghost var q := CutAt(d.d[..dn], limbIndex, shift);
    BitOfQuotient(m, bitIndex);
    bit := Shr(d.d[limbIndex], shift) % 2 == 1;
    if d.size < 0 {
      BitOfNegative(m, bitIndex);
      var any := AnyBelow(d.d, dn, limbIndex, shift);
      if any {
        bit := !bit;
      }
    }
  }

  // ---- adding and taking off a power of two ----

  lemma PowerFits(shift: nat)
    requires shift < LIMB_BITS
    ensures 0 < Pow2(shift) < B
  {
    Pow2Monotone(shift, LIMB_BITS - 1);
    Pow2Constants();
  }

  /** 2^(64 * limbIndex + shift) put above the dn limbs of a number, over zeros. */
  method PutAbove(dp: array<Limb>, dn: nat, limbIndex: nat, shift: nat)
    requires dn <= limbIndex < dp.Length && shift < LIMB_BITS
    modifies dp
    ensures Val(dp[..limbIndex + 1]) == old(Val(dp[..dn])) + Pow2(LIMB_BITS * limbIndex + shift) && dp[limbIndex] != 0
  {
    ghost var u := dp[..dn];
    PowerFits(shift);
    dp[limbIndex] := Pow2(shift);
    for i := dn to limbIndex
      invariant dp[limbIndex] == Pow2(shift) && dp[..dn] == u && forall j :: dn <= j < i ==> dp[j] == 0
    {
      dp[i] := 0;
    }
    ghost var t := dp[..limbIndex];
    ValSplit(t, dn);
    assert t[..dn] == u;
    LowZeros(t[dn..], limbIndex - dn);
    ValSnoc(t, dp[limbIndex]);
    assert dp[..limbIndex + 1] == t + [dp[limbIndex]];
    PwIsPow2(limbIndex);
    Pow2Add(LIMB_BITS * limbIndex, shift);
  }

  /** A change of the limbs from limbIndex on is worth that much more. */
  lemma ChangedAbove(s: seq<Limb>, t: seq<Limb>, limbIndex: nat, shift: nat, cy: int, sign: int)
    requires limbIndex < |s| == |t| && s[..limbIndex] == t[..limbIndex]
    requires Val(t[limbIndex..]) + sign * (Pw(|s| - limbIndex) * cy) == Val(s[limbIndex..]) + sign * Pow2(shift)
    requires sign == 1 || sign == -1
    ensures Val(t) + sign * (Pw(|s|) * cy) == Val(s) + sign * Pow2(LIMB_BITS * limbIndex + shift)
  {
    var p, w := Pw(limbIndex), Pw(|s| - limbIndex);
    ValSplit(s, limbIndex);
    ValSplit(t, limbIndex);
    PwIsPow2(limbIndex);
    Pow2Add(LIMB_BITS * limbIndex, shift);
    PwAdd(limbIndex, |s| - limbIndex);
    MulAssoc(p, w, cy);
    ScaledChange(p, Val(s[limbIndex..]), Val(t[limbIndex..]), w * cy, Pow2(shift), sign);
  }

  lemma ScaledChange(p: int, a: int, b: int, x: int, y: int, sign: int)
    requires b + sign * x == a + sign * y && (sign == 1 || sign == -1)
    ensures p * b + sign * (p * x) == p * a + sign * (p * y)
  {
    if sign == 1 {
      MulDist(p, b, x);
      MulDist(p, a, y);
    } else {
      MulSub(p, b, x);
      MulSub(p, a, y);
    }
  }

  /** 2^(64 * limbIndex + shift) added inside a number; returns the carry. */
  method AddWithin(dp: array<Limb>, dn: nat, limbIndex: nat, shift: nat) returns (cy: Limb)
    requires limbIndex < dn <= dp.Length && shift < LIMB_BITS
    modifies dp
    ensures Val(dp[..dn]) + Pw(dn) * cy == old(Val(dp[..dn])) + Pow2(LIMB_BITS * limbIndex + shift)
    ensures OnlyChanges(dp, 0, dn)
  {
    ghost var s := dp[..dn];
    assert s[limbIndex..] == dp[limbIndex..limbIndex + (dn - limbIndex)];
    PowerFits(shift);
    cy := Add1(dp, limbIndex, dp, limbIndex, dn - limbIndex, Pow2(shift));
    ghost var t := dp[..dn];
    assert t[limbIndex..] == dp[limbIndex..limbIndex + (dn - limbIndex)] && t[..limbIndex] == s[..limbIndex];
    ChangedAbove(s, t, limbIndex, shift, cy, 1);
  }

  /** The same taken off; there is no borrow. */
  method SubWithin(dp: array<Limb>, dn: nat, limbIndex: nat, shift: nat)
    requires limbIndex < dn <= dp.Length && shift < LIMB_BITS
    requires Pow2(LIMB_BITS * limbIndex + shift) <= Val(dp[..dn])
    modifies dp
    ensures Val(dp[..dn]) == old(Val(dp[..dn])) - Pow2(LIMB_BITS * limbIndex + shift)
  {
    ghost var s := dp[..dn];
    assert s[limbIndex..] == dp[limbIndex..limbIndex + (dn - limbIndex)];
    PowerFits(shift);
    var cy := Sub1(dp, limbIndex, dp, limbIndex, dn - limbIndex, Pow2(shift));
    ghost var t := dp[..dn];
    assert t[limbIndex..] == dp[limbIndex..limbIndex + (dn - limbIndex)] && t[..limbIndex] == s[..limbIndex];
    ChangedAbove(s, t, limbIndex, shift, cy, -1);
    ValBound(t);
    MulMono(Pw(dn), if cy > 0 then 1 else 0, cy);
  }

  /** |d| += 2^bitIndex. */
  method AbsAddBit(d: Mpz, bitIndex: nat)
    requires d.Valid()
    modifies d, d.d
    ensures d.Valid() && (d.d == old(d.d) || fresh(d.d))
    ensures d.Value() == Signed(old(d.size), old(d.Magnitude()) + Pow2(bitIndex))
  {
    var ds := d.size;
    var dn: int := AbsAddBitSize(d, bitIndex);
    d.size := if ds < 0 then -dn else dn;
  }

  method AbsAddBitSize(d: Mpz, bitIndex: nat) returns (dn: nat)
    requires d.Valid()
    modifies d, d.d
    ensures d.size == old(d.size) && (d.d == old(d.d) || fresh(d.d))
    ensures 0 < dn <= d.d.Length && d.d[dn - 1] != 0 && Val(d.d[..dn]) == old(d.Magnitude()) + Pow2(bitIndex)
  {
    dn := Abs(d.size);
    ghost var u := d.d[..dn];
    var limbIndex, shift := bitIndex / LIMB_BITS, bitIndex % LIMB_BITS;
    if limbIndex >= dn {
      d.Realloc(limbIndex + 1);
      assert d.d[..dn] == u;
      PutAbove(d.d, dn, limbIndex, shift);
      dn := limbIndex + 1;
    } else {
      var cy := AddWithin(d.d, dn, limbIndex, shift);
      StillTop(u, d.d[..dn], cy, Pow2(bitIndex));
      dn := StoreCarryOut(d, dn, cy);
    }
  }

  lemma StillTop(u: seq<Limb>, t: seq<Limb>, cy: Limb, p: int)
    requires |u| == |t| > 0 && u[|u| - 1] != 0 && Val(t) + Pw(|t|) * cy == Val(u) + p && 0 <= p
    ensures cy == 0 ==> t[|t| - 1] != 0
  {
    if cy == 0 {
      ValTopNonzero(u);
      LargeTop(t);
    }
  }

  /** A carry out of the last limb needs one limb more. */
  method StoreCarryOut(d: Mpz, dn0: nat, cy: Limb) returns (dn: nat)
    requires 0 < dn0 <= d.d.Length && (cy == 0 ==> d.d[dn0 - 1] != 0)
    modifies d, d.d
    ensures d.size == old(d.size) && (d.d == old(d.d) || fresh(d.d))
    ensures 0 < dn <= d.d.Length && d.d[dn - 1] != 0 && Val(d.d[..dn]) == old(Val(d.d[..dn0])) + Pw(dn0) * cy
  {
    dn := dn0;
    if cy > 0 {
      ghost var u := d.d[..dn];
      d.Realloc(dn + 1);
      assert d.d[..dn] == u;
      d.StoreCarry(dn, cy);
      dn := dn + 1;
    }
  }

  /** |d| -= 2^bitIndex. */
  method AbsSubBit(d: Mpz, bitIndex: nat)
    requires d.Valid() && Pow2(bitIndex) <= d.Magnitude()
    modifies d, d.d
    ensures d.Valid() && d.d == old(d.d)
    ensures d.Value() == Signed(old(d.size), old(d.Magnitude()) - Pow2(bitIndex))
  {
    var dn, ds := Abs(d.size), d.size;
    ghost var u := d.d[..dn];
    var limbIndex, shift := bitIndex / LIMB_BITS, bitIndex % LIMB_BITS;
    if dn <= limbIndex {
      ValBound(u);
      PwIsPow2(dn);
      Pow2Monotone(LIMB_BITS * dn, bitIndex);
      assert false;
    }
    SubWithin(d.d, dn, limbIndex, shift);
    var n: int := NormalizedSize(d.d, dn);
    d.size := if ds < 0 then -n else n;
  }

  // ---- setting a bit ----

  /** Where a bit is clear, adding its weight sets it and leaves all others. */
  lemma {:induction false} AddedBit(x: int, k: nat, j: nat)
    requires !Bit(x, k)
    ensures Bit(x + Pow2(k), j) <==> j == k || Bit(x, j)
    decreases k
  {
    if k == 0 {
      assert (x + 1) / 2 == x / 2;
    } else {
      var h := Pow2(k - 1);
      assert (x + 2 * h) / 2 == x / 2 + h && (x + 2 * h) % 2 == x % 2;
      if j > 0 {
        AddedBit(x / 2, k - 1, j - 1);
      }
    }
  }

  /** A clear bit of a negative number means that its magnitude is at least that bit's weight. */
  lemma ClearBelow(m: int, k: nat)
    requires 0 < m && !Bit(-m, k)
    ensures Pow2(k) <= m
  {
    BitOfNegative(m, k);
    BitOfQuotient(m, k);
    DivBounds(m, Pow2(k));
    if m < Pow2(k) {
      DivModUnique(m, Pow2(k), 0, m);
    }
  }

  /** Bit bitIndex of d is set, and no other is changed. */
  method SetBit(d: Mpz, bitIndex: nat)
    requires d.Valid()
    modifies d, d.d
    ensures d.Valid() && (d.d == old(d.d) || fresh(d.d))
    ensures d.Value() == old(d.Value()) + if Bit(old(d.Value()), bitIndex) then 0 else Pow2(bitIndex)
    ensures forall j: nat :: Bit(d.Value(), j) <==> j == bitIndex || Bit(old(d.Value()), j)
  {
    ghost var x := d.Value();
    Nonzero(d);
    var bit := TstBit(d, bitIndex);
    if !bit {
      if d.size >= 0 {
        AbsAddBit(d, bitIndex);
      } else {
        ClearBelow(d.Magnitude(), bitIndex);
        AbsSubBit(d, bitIndex);
      }
      forall j: nat ensures Bit(x + Pow2(bitIndex), j) <==> j == bitIndex || Bit(x, j) {
        AddedBit(x, bitIndex, j);
      }
    }
  }

  /** Setting a bit of zero. */
  lemma BitOfZero(k: nat)
    ensures !Bit(0, k)
  {
    BitOfQuotient(0, k);
    DivModUnique(0, Pow2(k), 0, 0);
  }
}
