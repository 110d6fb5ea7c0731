/** Integer roots by Newton's iteration, and powers by repeated squaring. */
module RootRem {
  import opened Arith
  import opened Powers
  import opened Limbs
  import opened Bitwise
  import opened Mpz
  import opened MpzDiv
  import opened MpzDivUi
  import opened MpzSetBit
  import opened MpzShift
  import opened Numerals
  import opened Strings

  // ---- powers ----

  /** r = b^e, one squaring for every bit of the word e from the top down. */
  method PowUi(r: Mpz, b: Mpz, e: Limb)
    requires b.Valid()
    modifies r
    ensures r.Valid() && fresh(r.d) && r.Value() == Pow(old(b.Value()), e)
  {
    var tr := PowLoop(b, e);
    r.Swap(tr);
  }

  method PowLoop(b: Mpz, e: Limb) returns (tr: Mpz)
    requires b.Valid()
    ensures fresh(tr) && fresh(tr.d) && tr.Valid() && tr.Value() == Pow(b.Value(), e)
  {
    tr := new Mpz();
    tr.SetSmall(1, false);
    NoHighBits(e);
    var bit: Limb := B / 2;  // the highest
    ghost var k := LIMB_BITS;
    HighestBit();
    while bit > 0
      invariant tr.Valid() && fresh(tr.d) && tr.Value() == Pow(b.Value(), HighBits(e, k))
      invariant bit == if k == 0 then 0 else Pow2(k - 1)
      decreases bit
      modifies tr
    {
      k := k - 1;
      PowStep(tr, b, e, bit, k);
      bit := NextMask(bit, k);
    }
  }

  lemma HighestBit()
    ensures B / 2 == Pow2(LIMB_BITS - 1)
  {
    Pow2Constants();
  }

  method NextMask(bit: Limb, ghost k: nat) returns (next: Limb)
    requires bit == Pow2(k)
    ensures next < bit && next == if k == 0 then 0 else Pow2(k - 1)
  {
    next := bit / 2;
  }

  /** A mask of one bit selects that bit. */
  lemma {:induction false} MaskedBit(x: int, k: nat)
    requires 0 <= x
    ensures Apply(And, x, Pow2(k)) != 0 <==> Bit(x, k)
    decreases k
  {
    BitwiseStep(And, x, Pow2(k));
    if k == 0 {
      AndZero(x / 2);
    } else {
      MaskedBit(x / 2, k - 1);
    }
  }

  /** Square, and multiply by b when bit k of e, selected by the mask 2^k, is set. */
  method PowStep(tr: Mpz, b: Mpz, e: Limb, bit: Limb, ghost k: nat)
    requires tr.Valid() && b.Valid() && Unlike(tr, b) && bit == Pow2(k)
    requires tr.Value() == Pow(b.Value(), HighBits(e, k + 1))
    modifies tr
    ensures tr.Valid() && (tr.d == old(tr.d) || fresh(tr.d))
    ensures tr.Value() == Pow(b.Value(), HighBits(e, k))
  {
    NextBit(e, Pow2(k));
    MaskedBit(e, k);
    BitOfQuotient(e, k);
    SquareStep(b.Value(), HighBits(e, k));
    tr.Mul(tr, tr);
    if Apply(And, e, bit) != 0 {
      tr.Mul(tr, b);
    }
  }

  lemma NoHighBits(e: Limb)
    ensures HighBits(e, LIMB_BITS) == 0 && HighBits(e, 0) == e
  {
    Pow2Constants();
    DivModUnique(e, B, 0, e);
    DivModUnique(e, 1, e, 0);
  }

  /** e without its k low bits. */
  function HighBits(e: Limb, k: nat): (h: nat) {
    DivBounds(e, Pow2(k));
    e / Pow2(k)
  }

  lemma SquareStep(b: int, q: nat)
    ensures Pow(b, q) == if q % 2 == 1 then Pow(b, q / 2) * Pow(b, q / 2) * b else Pow(b, q / 2) * Pow(b, q / 2)
  {
    PowAdd(b, q / 2, q / 2);
    if q % 2 == 1 {
      assert Pow(b, q) == b * Pow(b, q - 1);
    }
  }

  lemma NextBit(e: int, p: int)
    requires 0 <= e && 0 < p
    ensures 0 <= e / p && e / (2 * p) == (e / p) / 2
  {
    DivBounds(e, p);
    HalfQuotient(e, p, e / p, e % p);
  }

  lemma HalfQuotient(e: int, p: int, q: int, r: int)
    requires 0 < p && e == q * p + r && 0 <= r < p
    ensures e / (2 * p) == q / 2
  {
    var h := q / 2;
    MulAssoc(h, 2, p);
    MulAssoc(2, h, p);
    if q == 2 * h {
      DivModUnique(e, 2 * p, h, r);
    } else {
      MulDist(p, 2 * h, 1);
      DivModUnique(e, 2 * p, h, p + r);
    }
  }

  // ---- Newton's iteration ----

  /** x^z + (z-1) u^z >= z x u^(z-1): the tangent to the z-th power lies below it. */
  lemma {:induction false} Tangent(x: int, u: int, z: nat)
    requires 0 <= x && 0 <= u && 1 <= z
    ensures z * (x * Pow(u, z - 1)) <= Pow(x, z) + (z - 1) * Pow(u, z)
    decreases z
  {
    if z == 1 {
      assert Pow(u, 0) == 1 && Pow(x, 1) == x * Pow(x, 0);
    } else {
      Tangent(x, u, z - 1);
      PowBaseMonotone(0, u, z - 2);
      TangentStep(x, u, z - 1, Pow(x, z - 1), Pow(x, z), Pow(u, z - 2), Pow(u, z - 1), Pow(u, z));
    }
  }

  /** One step of the induction, with X = x^z and w = u^(z-1). */
  lemma TangentStep(x: int, u: int, z: int, X: int, X': int, w: int, w': int, w'': int)
    requires 0 <= x && 0 <= u && 1 <= z && 0 <= w && X' == x * X && w' == u * w && w'' == u * w'
    requires z * (x * w) <= X + (z - 1) * w'
    ensures (z + 1) * (x * w') <= X' + z * w''
  {
    // the difference is x times the hypothesis plus z * w * (x - u)^2
    var a, b := x * (x * w), x * w';
    assert z * a <= X' + (z - 1) * b by {
      MulMono(x, z * (x * w), X + (z - 1) * w');
      MulDist(x, X, (z - 1) * w');
      MulAssoc(x, z, x * w);
      MulAssoc(z, x, x * w);
      MulAssoc(x, z - 1, w');
      MulAssoc(z - 1, x, w');
    }
    assert 0 <= a - 2 * b + w'' by { SquareTerms(x, u, w); }
    MulNonNeg(z, a - 2 * b + w'');
    MulDist(z, a - 2 * b, w'');
    MulSub(z, a, 2 * b);
    MulAssoc(z, 2, b);
    MulDist(b, z, 1);
    MulSub(b, z, 1);
  }

  lemma SquareTerms(x: int, u: int, w: int)
    requires 0 <= w
    ensures 0 <= x * (x * w) - 2 * (x * (u * w)) + u * (u * w)
  {
    var e := x - u;
    MulSub(w, x, u);
    MulSub(e, x * w, u * w);
    MulSub(x * w, x, u);
    MulSub(u * w, x, u);
    MulAssoc(x, u, w);
    MulAssoc(u, x, w);
    assert 0 <= e * (e * w) by {
      if e >= 0 {
        MulNonNeg(e, w);
        MulNonNeg(e, e * w);
      } else {
        MulNonNeg(-e, w);
        MulNonNeg(-e, -e * w);
        MulSub(w, 0, e);
        MulSub(e * w, 0, e);
      }
    }
  }

  /** The next iterate on magnitudes. */
  function Newton(y: nat, u: nat, z: nat): int
    requires 0 < u && 0 < z
  {
    PowPositive(u, z - 1);
    (y / Pow(u, z - 1) + (z - 1) * u) / z
  }

  /** An iterate never drops below the root: if w^z <= y then the next iterate is at least w. */
  lemma NewtonAbove(y: nat, u: nat, z: nat, w: nat)
    requires 0 < u && 0 < z && Pow(w, z) <= y
    ensures w <= Newton(y, u, z)
  {
    var p := Pow(u, z - 1);
    PowPositive(u, z - 1);
    Tangent(w, u, z);
    DivBounds(y, p);
    assert (z * w - (z - 1) * u) * p <= y by {
      MulSub(p, z * w, (z - 1) * u);
      MulAssoc(z, w, p);
      MulAssoc(z - 1, u, p);
    }
    MulDist(p, y / p, 1);
    MulCancel(z * w - (z - 1) * u, y / p + 1, p);
    AtLeast(y / p + (z - 1) * u, z, w);
  }

  lemma AtLeast(n: int, z: int, w: int)
    requires 0 < z && z * w <= n
    ensures w <= n / z
  {
    DivBounds(n, z);
    MulDist(z, n / z, 1);
    MulCancel(w, n / z + 1, z);
  }

  /** Above the root the iteration decreases. */
  lemma NewtonDecreases(y: nat, u: nat, z: nat)
    requires 0 < u && 0 < z && y < Pow(u, z)
    ensures Newton(y, u, z) < u
  {
    var p := Pow(u, z - 1);
    PowPositive(u, z - 1);
    DivBounds(y, p);
    MulCancel(y / p, u, p);
    var n := y / p + (z - 1) * u;
    MulSub(u, z, 1);
    DivBounds(n, z);
    MulCancel(n / z, u, z);
  }

  /** The starting point 2^(L/z + 1) is above the root of any number of L bits. */
  lemma StartAbove(y: nat, bits: nat, z: nat)
    requires 0 < z && y < Pow2(bits)
    ensures y < Pow(Pow2(bits / z + 1), z) < Pow(Pow2(bits / z + 1) + 1, z)
  {
    var k := bits / z + 1;
    PowOfPow2(k, z);
    DivBounds(bits, z);
    MulDist(z, bits / z, 1);
    Pow2Monotone(bits, k * z);
    PowIncreases(Pow2(k), z);
  }

  lemma {:induction false} PowIncreases(a: int, e: nat)
    requires 0 < a && 0 < e
    ensures Pow(a, e) < Pow(a + 1, e)
  {
    PowBaseMonotone(a, a + 1, e - 1);
    PowPositive(a, e - 1);
    MulMono(a + 1, Pow(a, e - 1), Pow(a + 1, e - 1));
    MulDist(Pow(a, e - 1), a, 1);
  }

  /** A number has no more bits than its binary numeral. */
  lemma BitsBound(x: nat)
    ensures x < Pow2(|Numeral(x, 2)|)
  {
    var s := Numeral(x, 2);
    NumeralDenotes(x, 2);
    DigitsBound(s, |s|, 2);
    PowOfPow2(1, |s|);
    assert Pow2(1) == 2;
  }

  datatype RootOutcome = NegativeWithEvenRoot | ZerothRoot | Rooted

  /** x is the z-th root of y rounded towards zero. */
  ghost predicate IsRoot(x: int, y: int, z: nat) {
    && Pow(Abs(x), z) <= Abs(y) < Pow(Abs(x) + 1, z)
    && (x < 0 ==> y < 0) && (x > 0 ==> y > 0)
  }

  /** The root is unique. */
  lemma RootUnique(x: int, x': int, y: int, z: nat)
    requires 0 < z && IsRoot(x, y, z) && IsRoot(x', y, z)
    ensures x == x'
  {
    if Abs(x) < Abs(x') {
      PowBaseMonotone(Abs(x) + 1, Abs(x'), z);
    } else if Abs(x') < Abs(x) {
      PowBaseMonotone(Abs(x') + 1, Abs(x), z);
    }
  }

  /** A power keeps the sign of its base when the exponent is odd. */
  lemma {:induction false} PowSign(b: int, e: nat)
    ensures Pow(-b, e) == if e % 2 == 0 then Pow(b, e) else -Pow(b, e)
  {
    if e > 0 {
      PowSign(b, e - 1);
      MulSub(b, 0, Pow(b, e - 1));
      MulSub(Pow(b, e - 1), 0, b);
      MulSub(0 - b, 0, Pow(b, e - 1));
    }
  }

  /** u is a magnitude still above or at the root of y, with the sign of y. */
  ghost predicate Iterate(t: int, y: int, z: nat) {
    && t != 0 && (t < 0) == (y < 0)
    && Abs(y) < Pow(Abs(t) + 1, z)
  }

  /** What one iteration keeps, and what stopping means. */
  lemma NewtonStep(y: int, u: int, t: int, z: nat)
    requires 0 < z && 2 <= Abs(y) && Iterate(u, y, z)
    requires t == if y < 0 then -Newton(Abs(y), Abs(u), z) else Newton(Abs(y), Abs(u), z)
    ensures Iterate(t, y, z)
    ensures Abs(t) >= Abs(u) ==> IsRoot(u, y, z)
  {
    var n := Newton(Abs(y), Abs(u), z);
    PowOne(z);
    NewtonAbove(Abs(y), Abs(u), z, 1);
    if Pow(n + 1, z) <= Abs(y) {
      NewtonAbove(Abs(y), Abs(u), z, n + 1);
    }
    if Abs(y) < Pow(Abs(u), z) {
      NewtonDecreases(Abs(y), Abs(u), z);
    }
  }

  lemma {:induction false} PowOne(e: nat)
    ensures Pow(1, e) == 1
  {
    if e > 0 {
      PowOne(e - 1);
    }
  }

  /** The truncating divisions act on magnitudes, the sign being carried along. */
  lemma SignedNewton(y: int, u: int, z: nat)
    requires y != 0 && u != 0 && (u < 0) == (y < 0) && 0 < z && (y < 0 ==> z % 2 == 1)
    ensures Pow(u, z - 1) != 0
    ensures TDiv(TDiv(y, Pow(u, z - 1)) + u * (z - 1), z)
         == if y < 0 then -Newton(Abs(y), Abs(u), z) else Newton(Abs(y), Abs(u), z)
  {
    var U, Y := Abs(u), Abs(y);
    var p := Pow(U, z - 1);
    PowPositive(U, z - 1);
    PowSign(U, z - 1);
    assert Pow(u, z - 1) == p;
    DivBounds(Y, p);
    MulSub(z - 1, 0, u);
    MulNonNeg(z - 1, U);
    var s := Y / p + (z - 1) * U;
    assert TDiv(y, p) + u * (z - 1) == if y < 0 then -s else s;
  }

  /** The next iterate of a square root: u = t, t = (y / u + u) / 2. */
  method SquareRootStep(y: Mpz, t: Mpz, u: Mpz)
    requires y.Valid() && t.Valid() && u.Valid() && Unlike(y, t) && Unlike(y, u) && Unlike(t, u)
    requires 0 < y.Value() && 0 < t.Value()
    modifies t, t.d, u, u.d
    ensures t.Valid() && u.Valid() && Unlike(t, u)
    ensures t.d == old(u.d) || fresh(t.d)
    ensures u.d == old(t.d)
    ensures u.Value() == old(t.Value()) && t.Value() == Newton(y.Value(), u.Value(), 2)
  {
    u.Swap(t);
    ghost var Y, x := y.Value(), u.Value();
    TdivQ(t, y, u);
    DivBounds(Y, x);
    HalveSum(t, u);
    assert Pow(x, 1) == x * Pow(x, 0);
  }

  /** t = (t + u) / 2. */
  method HalveSum(t: Mpz, u: Mpz)
    requires t.Valid() && u.Valid() && Unlike(t, u) && 0 <= t.Value() && 0 < u.Value()
    modifies t, t.d
    ensures t.Valid() && (t.d == old(t.d) || fresh(t.d))
    ensures t.Value() == (old(t.Value()) + u.Value()) / 2
  {
    t.Add(t, u);
    Nonzero(t);
    assert Pow2(1) == 2;
    TdivQ2exp(t, t, 1);
  }

  /** One round of the square root's loop; the root is found when the iterate no longer shrinks. */
  method SquareRootRound(y: Mpz, t: Mpz, u: Mpz) returns (done: bool)
    requires y.Valid() && t.Valid() && u.Valid() && Unlike(y, t) && Unlike(y, u) && Unlike(t, u)
    requires 2 <= y.Value() && Iterate(t.Value(), y.Value(), 2)
    modifies t, t.d, u, u.d
    ensures t.Valid() && u.Valid() && Unlike(t, u)
    ensures (t.d == old(u.d) || fresh(t.d)) && u.d == old(t.d)
    ensures Iterate(t.Value(), y.Value(), 2)
    ensures if done then IsRoot(u.Value(), y.Value(), 2) else Abs(t.Value()) < old(Abs(t.Value()))
  {
    SquareRootStep(y, t, u);
    NewtonStep(y.Value(), u.Value(), t.Value(), 2);
    done := NoSmaller(t, u);
  }

  /** |t| >= |u| */
  method NoSmaller(t: Mpz, u: Mpz) returns (b: bool)
    requires t.Valid() && u.Valid()
    ensures b == (Abs(t.Value()) >= Abs(u.Value()))
  {
    MagnitudeIs(t);
    MagnitudeIs(u);
    var c := t.CmpAbs(u);
    b := !(c < 0);
  }

  /** The iteration of the square root, from a start t above the root. */
  method SquareRootLoop(y: Mpz, t: Mpz, u: Mpz)
    requires y.Valid() && t.Valid() && u.Valid() && Unlike(y, t) && Unlike(y, u) && Unlike(t, u)
    requires 2 <= y.Value() && Iterate(t.Value(), y.Value(), 2)
    modifies t, t.d, u, u.d
    ensures t.Valid() && u.Valid() && Unlike(t, u)
    ensures (t.d in old({t.d, u.d}) || fresh(t.d)) && (u.d in old({t.d, u.d}) || fresh(u.d))
    ensures IsRoot(u.Value(), y.Value(), 2)
  {
    var done := false;
    while !done
      invariant t.Valid() && u.Valid() && Unlike(t, u)
      invariant (t.d in old({t.d, u.d}) || fresh(t.d)) && (u.d in old({t.d, u.d}) || fresh(u.d))
      invariant Iterate(t.Value(), y.Value(), 2)
      invariant done ==> IsRoot(u.Value(), y.Value(), 2)
      decreases !done, Abs(t.Value())
    {
      done := SquareRootRound(y, t, u);
    }
  }

  /** The next iterate of a z-th root: u = t, t = (y / u^(z-1) + u * (z-1)) / z. */
  method RootStep(y: Mpz, z: Limb, t: Mpz, u: Mpz, v: Mpz)
    requires y.Valid() && t.Valid() && u.Valid() && v.Valid()
    requires Unlike(y, t) && Unlike(y, u) && Unlike(y, v) && Unlike(t, u) && Unlike(t, v) && Unlike(u, v)
    requires 0 < z && y.Value() != 0 && t.Value() != 0 && (t.Value() < 0) == (y.Value() < 0)
    requires y.Value() < 0 ==> z % 2 == 1
    modifies t, t.d, u, u.d, v, v.d
    ensures t.Valid() && u.Valid() && v.Valid() && Unlike(t, u) && Unlike(t, v) && Unlike(u, v)
    ensures fresh(t.d) && u.d == old(t.d) && (v.d == old(v.d) || fresh(v.d))
    ensures u.Value() == old(t.Value())
    ensures t.Value() == if y.Value() < 0 then -Newton(Abs(y.Value()), Abs(u.Value()), z)
                         else Newton(Abs(y.Value()), Abs(u.Value()), z)
  {
    u.Swap(t);
    SignedNewton(y.Value(), u.Value(), z);
    DivideByPower(y, z, t, u);
    AddAndDivide(z, t, u, v);
  }

  /** t = (t + u * (z-1)) / z, through v. */
  method AddAndDivide(z: Limb, t: Mpz, u: Mpz, v: Mpz)
    requires t.Valid() && u.Valid() && Unlike(t, u) && Unlike(t, v) && Unlike(u, v) && 0 < z
    modifies t, t.d, v, v.d
    ensures t.Valid() && v.Valid() && Unlike(t, v)
    ensures (t.d == old(t.d) || fresh(t.d)) && (v.d == old(v.d) || fresh(v.d))
    ensures t.Value() == TDiv(old(t.Value()) + u.Value() * (z - 1), z)
  {
    v.MulUi(u, z - 1);
    t.Add(t, v);
    TdivQUi(t, t, z);
  }

  /** t = y / u^(z-1). */
  method DivideByPower(y: Mpz, z: Limb, t: Mpz, u: Mpz)
    requires y.Valid() && u.Valid() && Unlike(y, t) && Unlike(t, u)
    requires 0 < z && Pow(u.Value(), z - 1) != 0
    modifies t
    ensures t.Valid() && fresh(t.d) && t.Value() == TDiv(y.Value(), Pow(u.Value(), z - 1))
  {
    PowUi(t, u, z - 1);
    TdivQ(t, y, t);
  }

  /** One round of the general loop. */
  method RootRound(y: Mpz, z: Limb, t: Mpz, u: Mpz, v: Mpz) returns (done: bool)
    requires y.Valid() && t.Valid() && u.Valid() && v.Valid()
    requires Unlike(y, t) && Unlike(y, u) && Unlike(y, v) && Unlike(t, u) && Unlike(t, v) && Unlike(u, v)
    requires 2 <= Abs(y.Value()) && 0 < z && (y.Value() < 0 ==> z % 2 == 1) && Iterate(t.Value(), y.Value(), z)
    modifies t, t.d, u, u.d, v, v.d
    ensures t.Valid() && u.Valid() && v.Valid() && Unlike(t, u) && Unlike(t, v) && Unlike(u, v)
    ensures fresh(t.d) && u.d == old(t.d) && (v.d == old(v.d) || fresh(v.d))
    ensures Iterate(t.Value(), y.Value(), z)
    ensures if done then IsRoot(u.Value(), y.Value(), z) else Abs(t.Value()) < old(Abs(t.Value()))
  {
    RootStep(y, z, t, u, v);
    NewtonStep(y.Value(), u.Value(), t.Value(), z);
    done := NoSmaller(t, u);
  }

  /** The iteration of a root of any order. */
  method RootLoop(y: Mpz, z: Limb, t: Mpz, u: Mpz)
    requires y.Valid() && t.Valid() && u.Valid() && Unlike(y, t) && Unlike(y, u) && Unlike(t, u)
    requires 2 <= Abs(y.Value()) && 0 < z && (y.Value() < 0 ==> z % 2 == 1) && Iterate(t.Value(), y.Value(), z)
    modifies t, t.d, u, u.d
    ensures t.Valid() && u.Valid() && Unlike(t, u)
    ensures (t.d in old({t.d, u.d}) || fresh(t.d)) && (u.d in old({t.d, u.d}) || fresh(u.d))
    ensures IsRoot(u.Value(), y.Value(), z)
  {
    var v := new Mpz();
    var done := false;
    while !done
      invariant t.Valid() && u.Valid() && v.Valid() && fresh(v.d)
      invariant Unlike(t, u) && Unlike(t, v) && Unlike(u, v)
      invariant (t.d in old({t.d, u.d}) || fresh(t.d)) && (u.d in old({t.d, u.d}) || fresh(u.d))
      invariant Iterate(t.Value(), y.Value(), z)
      invariant done ==> IsRoot(u.Value(), y.Value(), z)
      decreases !done, Abs(t.Value())
    {
      done := RootRound(y, z, t, u, v);
    }
  }

  /** A power of two above the root of |y|. */
  method Start(y: Mpz, z: Limb) returns (t: Mpz)
    requires y.Valid() && 2 <= Abs(y.Value()) && 0 < z
    ensures fresh(t) && fresh(t.d) && t.Valid() && Iterate(t.Value(), Abs(y.Value()), z)
  {
    t := new Mpz();
    var bits := SizeInBase(y, 2);
    BitsBound(Abs(y.Value()));
    StartAbove(Abs(y.Value()), bits, z);
    BitOfZero(bits / z + 1);
    SetBit(t, bits / z + 1);
  }

  /** u = the z-th root of y, |y| at least 2, rounded towards zero; t is scratch space. */
  method FindRoot(y: Mpz, z: Limb) returns (t: Mpz, u: Mpz)
    requires y.Valid() && 2 <= Abs(y.Value()) && 0 < z && (y.Value() < 0 ==> z % 2 == 1)
    ensures u.Valid() && Unlike(t, u) && fresh(t) && fresh(t.d) && fresh(u) && fresh(u.d)
    ensures IsRoot(u.Value(), y.Value(), z)
  {
    u := new Mpz();
    t := Start(y, z);
    Nonzero(y);
    if z == 2 {
      SquareRootLoop(y, t, u);
    } else {
      if y.size < 0 {
        t.SetNeg(t);
      }
      RootLoop(y, z, t, u);
    }
  }

  /** The results, each when wanted: r = y - u^z and then x = u, by exchanging the two. */
  method Deliver(x: Mpz?, r: Mpz?, y: Mpz, z: Limb, t: Mpz, u: Mpz)
    requires y.Valid() && u.Valid() && Unlike(y, t) && Unlike(y, u) && Unlike(t, u)
    requires x != null ==> x.Apart(y) && Unlike(x, t) && Unlike(x, u)
    requires r != null ==> r.Apart(y) && Unlike(r, t) && Unlike(r, u)
    requires x != null && r != null ==> Unlike(x, r)
    modifies x, t, u, if r != null then {r, r.d} else {}
    ensures x != null ==> x.Valid() && x.Value() == old(u.Value()) && x.d == old(u.d)
    ensures r != null ==> r.Valid() && r.Value() == old(y.Value()) - Pow(old(u.Value()), z)
    ensures r != null ==> r.d == old(r.d) || fresh(r.d)
  {
    if r != null {
      PowUi(t, u, z);
      r.Sub(y, t);
    }
    if x != null {
      x.Swap(u);
    }
  }

  /** The results for y = -1, 0 or 1. */
  method DeliverSmall(x: Mpz?, r: Mpz?, y: Mpz)
    requires y.Valid() && (x != null ==> x.Apart(y)) && (r != null ==> r.Apart(y))
    requires x != null && r != null ==> Unlike(x, r)
    modifies if x != null then {x, x.d} else {}, r
    ensures x != null ==> x.Valid() && x.Value() == old(y.Value()) && (x.d == old(x.d) || fresh(x.d))
    ensures r != null ==> r.Valid() && r.Value() == 0 && r.d == old(r.d)
  {
    if x != null {
      x.Set(y);
    }
    if r != null {
      r.size := 0;
    }
  }

  /** x = the z-th root of y rounded towards zero, r = what is left of y. */
  method RootRem(x: Mpz?, r: Mpz?, y: Mpz, z: Limb) returns (res: RootOutcome, ghost root: int, ghost rem: int)
    requires y.Valid() && (x != null ==> x.Apart(y)) && (r != null ==> r.Apart(y))
    requires x != null && r != null ==> Unlike(x, r)
    modifies if x != null then {x, x.d} else {}, if r != null then {r, r.d} else {}
    ensures res.NegativeWithEvenRoot? <==> old(y.Value()) < 0 && z % 2 == 0
    ensures res.ZerothRoot? <==> 0 <= old(y.Value()) && z == 0
    ensures res.Rooted? ==> IsRoot(root, old(y.Value()), z) && old(y.Value()) == Pow(root, z) + rem
    ensures res.Rooted? && x != null ==> x.Valid() && x.Value() == root && (x.d == old(x.d) || fresh(x.d))
    ensures res.Rooted? && r != null ==> r.Valid() && r.Value() == rem && (r.d == old(r.d) || fresh(r.d))
  {
    Nonzero(y);
    MagnitudeIs(y);
    ghost var Y := y.Value();
    if y.size < 0 && z % 2 == 0 {
      return NegativeWithEvenRoot, 0, 0;
    }
    if z == 0 {
      return ZerothRoot, 0, 0;
    }
    var c := y.CmpAbsUi(1);
    if c <= 0 {
      SmallRoot(Y, z);
      DeliverSmall(x, r, y);
      return Rooted, Y, 0;
    }
    root := LargeRoot(x, r, y, z);
    res, rem := Rooted, Y - Pow(root, z);
  }

  method LargeRoot(x: Mpz?, r: Mpz?, y: Mpz, z: Limb) returns (ghost root: int)
    requires y.Valid() && (x != null ==> x.Apart(y)) && (r != null ==> r.Apart(y))
    requires x != null && r != null ==> Unlike(x, r)
    requires 2 <= Abs(y.Value()) && 0 < z && (y.Value() < 0 ==> z % 2 == 1)
    modifies if x != null then {x, x.d} else {}, if r != null then {r, r.d} else {}
    ensures IsRoot(root, old(y.Value()), z)
    ensures x != null ==> x.Valid() && x.Value() == root && (x.d == old(x.d) || fresh(x.d))
    ensures r != null ==> r.Valid() && r.Value() == old(y.Value()) - Pow(root, z) && (r.d == old(r.d) || fresh(r.d))
  {
    var t, u := FindRoot(y, z);
    root := u.Value();
    Deliver(x, r, y, z, t, u);
  }

  lemma SmallRoot(y: int, z: nat)
    requires Abs(y) <= 1 && 0 < z && (y < 0 ==> z % 2 == 1)
    ensures IsRoot(y, y, z) && y == Pow(y, z)
  {
    PowOne(z);
    PowSign(1, z);
    PowIncreases(1, z);
  }
}
