/** Extended greatest common divisor and modular inverse, by the binary algorithm. */
module GcdExt {
  import opened Arith
  import opened Powers
  import opened Limbs
  import opened Mpz
  import opened MpzDiv
  import opened MpzDivUi
  import opened MpzSetBit
  import opened MpzShift
  import opened Wrappers

  ghost predicate Divides(d: int, n: int) {
    if d == 0 then n == 0 else n % d == 0
  }

  lemma MultipleDivides(d: int, k: int)
    ensures Divides(d, d * k)
  {
    if d != 0 {
      var n := d * k;
      var q := n / d;
      assert n == d * q + n % d;
      MulSub(d, k, q);
      if d > 0 {
        MultipleInRange(k - q, d);
      } else {
        MulSub(k - q, 0, d);
        MultipleInRange(k - q, -d);
      }
    }
  }

  lemma DividesCofactor(d: int, n: int) returns (k: int)
    requires Divides(d, n)
    ensures n == d * k
  {
    if d == 0 {
      k := 0;
    } else {
      k := n / d;
    }
  }

  /** g is the greatest common divisor: it divides both, and every common divisor divides it. */
  ghost predicate IsGcd(g: int, u: int, v: int) {
    && 0 <= g && Divides(g, u) && Divides(g, v)
    && forall c :: Divides(c, u) && Divides(c, v) ==> Divides(c, g)
  }

  /** A common divisor that is an integer combination is the greatest one. */
  lemma CombinationIsGcd(g: int, u: int, v: int, s: int, t: int)
    requires 0 <= g && Divides(g, u) && Divides(g, v) && g == s * u + t * v
    ensures IsGcd(g, u, v)
  {
    forall c | Divides(c, u) && Divides(c, v)
      ensures Divides(c, g)
    {
      var x := DividesCofactor(c, u);
      var y := DividesCofactor(c, v);
      MulAssoc(s, c, x);
      MulAssoc(c, s, x);
      MulAssoc(t, c, y);
      MulAssoc(c, t, y);
      MulDist(c, s * x, t * y);
      MultipleDivides(c, s * x + t * y);
    }
  }

  /** The greatest common divisor is unique. */
  lemma GcdUnique(g: int, h: int, u: int, v: int)
    requires IsGcd(g, u, v) && IsGcd(h, u, v)
    ensures g == h
  {
    assert Divides(h, g) && Divides(g, h);
    var x := DividesCofactor(h, g);
    var y := DividesCofactor(g, h);
    if g > 0 && h > 0 {
      MulCancel(0, x, h);
      MulCancel(0, y, g);
      MulMono(h, 1, x);
      MulMono(g, 1, y);
    }
  }

  /** The halving never meets an odd cofactor: both are even, or both are after one adjustment. */
  lemma BothEven(s0: int, t0: int, s1: int, t1: int, p: int)
    requires s0 * t1 + t0 * s1 == 2 * p && (s1 % 2 == 1 || t1 % 2 == 1)
    ensures (s0 - s1) * t1 + (t0 + t1) * s1 == 2 * p
    ensures (s0 % 2 == 0 && t0 % 2 == 0) || ((s0 - s1) % 2 == 0 && (t0 + t1) % 2 == 0)
  {
    MulSub(t1, s0, s1);
    MulDist(s1, t0, t1);
    ParityOfSum(s0, t0, s1, t1, p);
  }

  lemma ParityOfSum(s0: int, t0: int, s1: int, t1: int, p: int)
    requires s0 * t1 + t0 * s1 == 2 * p && (s1 % 2 == 1 || t1 % 2 == 1)
    ensures (s0 % 2 == 0 && t0 % 2 == 0) || ((s0 - s1) % 2 == 0 && (t0 + t1) % 2 == 0)
  {
    Parity(s0, t1);
    Parity(t0, s1);
    EvenSum(s0 * t1, t0 * s1, s0, t1, t0, s1);
  }

  lemma EvenSum(x: int, y: int, a: int, b: int, c: int, e: int)
    requires (x + y) % 2 == 0 && x % 2 == (a % 2) * (b % 2) && y % 2 == (c % 2) * (e % 2)
    requires e % 2 == 1 || b % 2 == 1
    ensures (a % 2 == 0 && c % 2 == 0) || ((a - e) % 2 == 0 && (c + b) % 2 == 0)
  {}

  lemma Parity(x: int, y: int)
    ensures (x * y) % 2 == (x % 2) * (y % 2)
  {
    var a, i := x / 2, x % 2;
    MulDist(y, 2 * a, i);
    MulAssoc(2, a, y);
    ParityOfProduct(x * y, a * y, i, y, y % 2);
  }

  lemma ParityOfProduct(p: int, k: int, i: int, y: int, j: int)
    requires (i == 0 || i == 1) && p == 2 * k + i * y && j == y % 2
    ensures p % 2 == i * j
  {
    if i == 0 {
      assert i * y == 0 && i * j == 0;
    } else {
      assert i * y == y && i * j == j;
    }
  }

  lemma HalfRelation(s0: int, t0: int, s1: int, t1: int, p: int)
    requires s0 * t1 + t0 * s1 == 2 * p && s0 % 2 == 0 && t0 % 2 == 0
    ensures (s0 / 2) * t1 + (t0 / 2) * s1 == p
  {
    var a, c := s0 / 2, t0 / 2;
    assert s0 == 2 * a && t0 == 2 * c;
    Halved(a, c, s1, t1);
  }

  lemma Halved(a: int, c: int, s1: int, t1: int)
    ensures 2 * a * t1 + 2 * c * s1 == 2 * (a * t1 + c * s1)
  {
    MulAssoc(2, a, t1);
    MulAssoc(2, c, s1);
  }

  /** After the last adjustment the cofactors are at most about half of the reduced operands. */
  lemma Reduced(s0: int, t0: int, x: int, y: int)
    requires s0 * x + t0 * y == 1 && 2 * Abs(s0) <= y && 0 < x && 0 < y
    ensures 2 * Abs(t0) <= x + 2
  {
    // |t0| * y == |1 - s0 * x| <= 1 + x * y / 2
    var a, b := Abs(s0), Abs(t0);
    assert b * y <= 1 + a * x by {
      if s0 < 0 { MulSub(x, 0, s0); }
      if t0 < 0 { MulSub(y, 0, t0); }
    }
    MulMono(x, 2 * a, y);
    MulAssoc(2, a, x);
    MulAssoc(2, b, y);
    assert (2 * b) * y <= 2 + x * y;
    MulDist(y, x, 2);
    MulDist(y, x + 2, 1);
    MulCancel(2 * b, x + 3, y);
  }

  /** Signs and the common factor put back. */
  lemma Combine(u: int, v: int, g: int, s0: int, t0: int, x: int, y: int)
    requires 0 < g && Abs(u) == g * x && Abs(v) == g * y && s0 * x + t0 * y == 1
    requires 2 * Abs(s0) <= y && 2 * Abs(t0) <= x + 2
    ensures Divides(g, u) && Divides(g, v)
    ensures var s, t := if u < 0 then -s0 else s0, if v < 0 then -t0 else t0;
      && g == s * u + t * v
      && 2 * Abs(s) * g <= Abs(v) && 2 * Abs(t) * g <= Abs(u) + 2 * g
  {
    SignedDivides(u, g, x);
    SignedDivides(v, g, y);
    CombinedSum(g, Abs(u), Abs(v), s0, t0, x, y);
    NegateBoth(s0, u);
    NegateBoth(t0, v);
    ScaledBound(g, 2 * Abs(s0), y);
    ScaledBound(g, 2 * Abs(t0), x + 2);
    MulDist(g, x, 2);
  }

  lemma ScaledBound(g: int, a: int, b: int)
    requires 0 < g && a <= b
    ensures a * g <= g * b
  {
    MulMono(g, a, b);
  }

  lemma SignedDivides(u: int, g: int, x: int)
    requires Abs(u) == g * x
    ensures Divides(g, u)
  {
    MulSub(g, 0, x);
    MultipleDivides(g, if u < 0 then 0 - x else x);
  }

  lemma CombinedSum(g: int, u: int, v: int, s0: int, t0: int, x: int, y: int)
    requires u == g * x && v == g * y && s0 * x + t0 * y == 1
    ensures s0 * u + t0 * v == g
  {
    MulAssoc(s0, g, x);
    MulAssoc(g, s0, x);
    MulAssoc(t0, g, y);
    MulAssoc(g, t0, y);
    MulDist(g, s0 * x, t0 * y);
  }

  lemma NegateBoth(a: int, x: int)
    ensures (-a) * x == a * (-x)
  {
    MulSub(x, 0, a);
    MulSub(a, 0, x);
  }

  /** Dividing an operand by the gcd leaves its cofactor. */
  lemma Cofactor(u: int, U: int, tv: int, x: int, p: int)
    requires 0 < tv && 0 < p && 0 < u && u == p * U && U == tv * x
    ensures 0 < tv * p && u == tv * p * x && u / (tv * p) == x && 0 < x
  {
    MulPositive(tv, p);
    MulAssoc(p, tv, x);
    MulAssoc(tv, p, x);
    DivModUnique(u, tv * p, x, 0);
    MulCancel(0, x, tv * p);
  }

  /** With the common power of two gone, the reduced operands are not both even. */
  lemma SomeOdd(tu: int, tv: int, uz: nat, vz: nat, g: int, x: int, y: int)
    requires tu % 2 == 1 && tv % 2 == 1 && (uz == 0 || vz == 0)
    requires Pow2(uz) * tu == g * x && Pow2(vz) * tv == g * y
    ensures x % 2 == 1 || y % 2 == 1
  {
    Parity(g, x);
    Parity(g, y);
  }

  // ---- the main loop ----

  /** The four relations the loop keeps, between the operands U, V and the odd numbers tu, tv. */
  ghost predicate Relations(U: int, V: int, tu: int, tv: int, t0: int, t1: int, s0: int, s1: int, p: int) {
    && U == t0 * tu + t1 * tv && V == s0 * tu + s1 * tv
    && p * tu == s1 * U - t1 * V && p * tv == t0 * V - s0 * U
    && 0 <= t0 && 0 <= t1 && 0 <= s0 && 0 <= s1
  }

  /** Taking tu off tv, and then a power of two c out of the difference. */
  lemma StepV(U: int, V: int, tu: int, tv: int, tv': int, t0: int, t1: int, s0: int, s1: int, p: int, c: int)
    requires Relations(U, V, tu, tv, t0, t1, s0, s1, p) && tv - tu == c * tv' && 0 < c
    ensures Relations(U, V, tu, tv', t0 + t1, t1 * c, s0 + s1, s1 * c, p * c)
  {
    MulNonNeg(t1, c);
    MulNonNeg(s1, c);
    MulDist(tu, t0, t1);
    MulDist(tu, s0, s1);
    MulSub(t1, tv, tu);
    MulSub(s1, tv, tu);
    MulAssoc(t1, c, tv');
    MulAssoc(s1, c, tv');
    MulAssoc(p, c, tv');
    MulSub(p, tv, tu);
    MulDist(V, t0, t1);
    MulDist(U, s0, s1);
    ScaleRelation(p, c, tu, s1, U, t1, V);
  }

  /** Taking tv off tu, and then a power of two c out of the difference. */
  lemma StepU(U: int, V: int, tu: int, tu': int, tv: int, t0: int, t1: int, s0: int, s1: int, p: int, c: int)
    requires Relations(U, V, tu, tv, t0, t1, s0, s1, p) && tu - tv == c * tu' && 0 < c
    ensures Relations(U, V, tu', tv, t0 * c, t0 + t1, s0 * c, s0 + s1, p * c)
  {
    MulNonNeg(t0, c);
    MulNonNeg(s0, c);
    MulDist(tv, t0, t1);
    MulDist(tv, s0, s1);
    MulSub(t0, tu, tv);
    MulSub(s0, tu, tv);
    MulAssoc(t0, c, tu');
    MulAssoc(s0, c, tu');
    MulAssoc(p, c, tu');
    MulSub(p, tu, tv);
    MulDist(V, t0, t1);
    MulDist(U, s0, s1);
    ScaleRelation(p, c, tv, t0, V, s0, U);
  }

  lemma ScaleRelation(p: int, c: int, t: int, a: int, x: int, b: int, y: int)
    requires p * t == a * x - b * y
    ensures p * c * t == a * c * x - b * c * y
  {
    MulAssoc(p, c, t);
    MulAssoc(c, p, t);
    MulAssoc(a, c, x);
    MulAssoc(c, a, x);
    MulAssoc(b, c, y);
    MulAssoc(c, b, y);
    MulSub(c, a * x, b * y);
  }

  /** The object still has the array it had, or a new one. */
  twostate predicate Kept(x: Mpz)
    reads x
  {
    x.d == old(x.d) || fresh(x.d)
  }

  /** larger = the odd part of larger - smaller; returns how many twos were taken out. */
  method TakeOff(larger: Mpz, smaller: Mpz, ghost x: int, ghost y: int) returns (shift: nat)
    requires larger.Valid() && smaller.Valid() && Unlike(larger, smaller)
    requires larger.Value() == y && smaller.Value() == x < y
    modifies larger, larger.d
    ensures larger.Valid() && Kept(larger) && larger.Value() == OddPart(y - x) && shift == Twos(y - x)
  {
    larger.Sub(larger, smaller);
    Nonzero(larger);
    shift := MakeOdd(larger);
    OddPartUnique(y - x, shift, larger.Value());
  }

  /** a = a + b, b = b * 2^shift. */
  method Accumulate(a: Mpz, b: Mpz, shift: nat)
    requires a.Valid() && b.Valid() && Unlike(a, b)
    modifies a, a.d, b, b.d
    ensures a.Valid() && b.Valid() && Unlike(a, b) && Kept(a) && Kept(b)
    ensures a.Value() == old(a.Value()) + old(b.Value()) && b.Value() == old(b.Value()) * Pow2(shift)
  {
    a.Add(a, b);
    Mul2exp(b, b, shift);
  }

  method AccumulateBoth(a0: Mpz, a1: Mpz, b0: Mpz, b1: Mpz, shift: nat)
    requires a0.Valid() && a1.Valid() && b0.Valid() && b1.Valid()
    requires Unlike(a0, a1) && Unlike(a0, b0) && Unlike(a0, b1) && Unlike(a1, b0) && Unlike(a1, b1) && Unlike(b0, b1)
    modifies a0, a0.d, a1, a1.d, b0, b0.d, b1, b1.d
    ensures a0.Valid() && a1.Valid() && b0.Valid() && b1.Valid()
    ensures Unlike(a0, a1) && Unlike(a0, b0) && Unlike(a0, b1) && Unlike(a1, b0) && Unlike(a1, b1) && Unlike(b0, b1)
    ensures Kept(a0) && Kept(a1) && Kept(b0) && Kept(b1)
    ensures a0.Value() == old(a0.Value()) + old(a1.Value()) && a1.Value() == old(a1.Value()) * Pow2(shift)
    ensures b0.Value() == old(b0.Value()) + old(b1.Value()) && b1.Value() == old(b1.Value()) * Pow2(shift)
  {
    Accumulate(a0, a1, shift);
    Accumulate(b0, b1, shift);
  }

  /** Six objects with storage of their own. */
  ghost predicate Own(tu: Mpz, tv: Mpz, t0: Mpz, t1: Mpz, s0: Mpz, s1: Mpz)
    reads tu, tv, t0, t1, s0, s1
  {
    && Unlike(tu, tv) && Unlike(tu, t0) && Unlike(tu, t1) && Unlike(tu, s0) && Unlike(tu, s1)
    && Unlike(tv, t0) && Unlike(tv, t1) && Unlike(tv, s0) && Unlike(tv, s1)
    && Unlike(t0, t1) && Unlike(t0, s0) && Unlike(t0, s1)
    && Unlike(t1, s0) && Unlike(t1, s1) && Unlike(s0, s1)
  }

  /** The numbers of the main loop, and how many twos its cofactors are scaled by. */
  datatype Cofactors = Cofactors(tu: int, tv: int, t0: int, t1: int, s0: int, s1: int, power: nat)

  /** The numbers six objects hold, provided each is valid and has storage of its own. */
  ghost function Numbers(tu: Mpz, tv: Mpz, t0: Mpz, t1: Mpz, s0: Mpz, s1: Mpz, power: nat): Option<Cofactors>
    reads tu, tu.d, tv, tv.d, t0, t0.d, t1, t1.d, s0, s0.d, s1, s1.d
  {
    if Own(tu, tv, t0, t1, s0, s1)
       && tu.Valid() && tv.Valid() && t0.Valid() && t1.Valid() && s0.Valid() && s1.Valid() then
      Some(Cofactors(tu.Value(), tv.Value(), t0.Value(), t1.Value(), s0.Value(), s1.Value(), power))
    else
      None
  }

  // ---- the main loop on numbers ----

  /** What is left of a positive number without its factors of two, and their number. */
  function OddPart(x: int): (r: int)
    requires x > 0
    ensures 0 < r <= x && r % 2 == 1
  {
    if x % 2 == 1 then x else OddPart(x / 2)
  }

  function Twos(x: int): nat
    requires x > 0
  {
    if x % 2 == 1 then 0 else 1 + Twos(x / 2)
  }

  lemma {:induction false} OddPartScaled(x: int)
    requires x > 0
    ensures x == Pow2(Twos(x)) * OddPart(x)
  {
    if x % 2 == 0 {
      OddPartScaled(x / 2);
      MulAssoc(2, Pow2(Twos(x / 2)), OddPart(x / 2));
    }
  }

  lemma {:induction false} OddPartUnique(x: int, shift: nat, r: int)
    requires x > 0 && x == Pow2(shift) * r && r % 2 == 1
    ensures r == OddPart(x) && shift == Twos(x)
    decreases shift
  {
    if shift > 0 {
      MulAssoc(2, Pow2(shift - 1), r);
      OddPartUnique(x / 2, shift - 1, r);
    }
  }

  /** The loop takes the smaller number off the larger, and the twos out of the difference. */
  function Rounded(c: Cofactors): (c': Cofactors)
    requires 0 < c.tu < c.tv
    ensures 0 < c'.tu && 0 < c'.tv && c'.tu + c'.tv < c.tu + c.tv
  {
    var shift := Twos(c.tv - c.tu);
    Cofactors(c.tu, OddPart(c.tv - c.tu), c.t0 + c.t1, c.t1 * Pow2(shift), c.s0 + c.s1, c.s1 * Pow2(shift),
              c.power + shift)
  }

  /** The same numbers, with the two sides exchanged. */
  function Crossed(c: Cofactors): Cofactors {
    Cofactors(c.tv, c.tu, c.t1, c.t0, c.s1, c.s0, c.power)
  }

  function Met(c: Cofactors): (c': Cofactors)
    requires 0 < c.tu && 0 < c.tv
    ensures 0 < c'.tu && 0 < c'.tv
    decreases c.tu + c.tv
  {
    if c.tu == c.tv then c
    else if c.tu < c.tv then Met(Rounded(c))
    else Met(Crossed(Rounded(Crossed(c))))
  }

  /** What the loop keeps: tu and tv are odd, and in the four relations with U and V. */
  ghost predicate Running(U: int, V: int, c: Cofactors) {
    && c.tu > 0 && c.tv > 0 && c.tu % 2 == 1 && c.tv % 2 == 1
    && Relations(U, V, c.tu, c.tv, c.t0, c.t1, c.s0, c.s1, Pow2(c.power))
  }

  /** A round for tu < tv keeps it. */
  lemma RoundV(U: int, V: int, c: Cofactors)
    requires Running(U, V, c) && c.tu < c.tv
    ensures Running(U, V, Rounded(c))
  {
    var d := c.tv - c.tu;
    OddPartScaled(d);
    StepV(U, V, c.tu, c.tv, OddPart(d), c.t0, c.t1, c.s0, c.s1, Pow2(c.power), Pow2(Twos(d)));
    Pow2Add(c.power, Twos(d));
  }

  /** And so does a round for tu > tv. */
  lemma RoundU(U: int, V: int, c: Cofactors)
    requires Running(U, V, c) && c.tv < c.tu
    ensures Running(U, V, Crossed(Rounded(Crossed(c))))
  {
    var d := c.tu - c.tv;
    OddPartScaled(d);
    StepU(U, V, c.tu, OddPart(d), c.tv, c.t0, c.t1, c.s0, c.s1, Pow2(c.power), Pow2(Twos(d)));
    Pow2Add(c.power, Twos(d));
  }

  /** So the relations hold when the two numbers meet. */
  lemma {:induction false} MetRunning(U: int, V: int, c: Cofactors)
    requires Running(U, V, c)
    ensures Running(U, V, Met(c)) && Met(c).tu == Met(c).tv
    decreases c.tu + c.tv
  {
    if c.tu < c.tv {
      RoundV(U, V, c);
      MetRunning(U, V, Rounded(c));
    } else if c.tu > c.tv {
      RoundU(U, V, c);
      MetRunning(U, V, Crossed(Rounded(Crossed(c))));
    }
  }

  // ---- the main loop on mpz variables ----

  /** The first half of a round: the larger number. */
  method ReduceLarger(larger: Mpz, smaller: Mpz, a0: Mpz, a1: Mpz, b0: Mpz, b1: Mpz, power: nat, ghost c: Cofactors)
    returns (shift: nat)
    requires Numbers(smaller, larger, a0, a1, b0, b1, power) == Some(c) && 0 < c.tu < c.tv
    modifies larger, larger.d
    ensures shift == Twos(c.tv - c.tu) && Kept(larger)
    ensures Numbers(smaller, larger, a0, a1, b0, b1, power + shift)
         == Some(c.(tv := OddPart(c.tv - c.tu), power := c.power + shift))
  {
    shift := TakeOff(larger, smaller, c.tu, c.tv);
  }

  /** The second half: the cofactors. */
  method ReduceCofactors(larger: Mpz, smaller: Mpz, a0: Mpz, a1: Mpz, b0: Mpz, b1: Mpz, power: nat, shift: nat,
                         ghost c: Cofactors)
    requires Numbers(smaller, larger, a0, a1, b0, b1, power) == Some(c)
    modifies a0, a0.d, a1, a1.d, b0, b0.d, b1, b1.d
    ensures Numbers(smaller, larger, a0, a1, b0, b1, power)
         == Some(Accumulated(c, shift))
    ensures Kept(a0) && Kept(a1) && Kept(b0) && Kept(b1)
  {
    AccumulateBoth(a0, a1, b0, b1, shift);
  }

  /** Take the smaller of two odd numbers off the larger, and move the cofactors along. */
  method Reduce(larger: Mpz, smaller: Mpz, a0: Mpz, a1: Mpz, b0: Mpz, b1: Mpz, power: nat, ghost c: Cofactors)
    returns (power': nat)
    requires Numbers(smaller, larger, a0, a1, b0, b1, power) == Some(c) && 0 < c.tu < c.tv
    modifies larger, larger.d, a0, a0.d, a1, a1.d, b0, b0.d, b1, b1.d
    ensures Numbers(smaller, larger, a0, a1, b0, b1, power') == Some(Rounded(c))
    ensures Kept(larger) && Kept(a0) && Kept(a1) && Kept(b0) && Kept(b1)
  {
    ghost var c1 := RoundedParts(c);
    var shift := ReduceLarger(larger, smaller, a0, a1, b0, b1, power, c);
    power' := power + shift;
    ReduceCofactors(larger, smaller, a0, a1, b0, b1, power', shift, c1);
  }

  /** A round in two steps: the larger number, and then the cofactors. */
  lemma RoundedParts(c: Cofactors) returns (c1: Cofactors)
    requires 0 < c.tu < c.tv
    ensures c1 == c.(tv := OddPart(c.tv - c.tu), power := c.power + Twos(c.tv - c.tu))
    ensures Rounded(c) == Accumulated(c1, Twos(c.tv - c.tu))
  {
    c1 := c.(tv := OddPart(c.tv - c.tu), power := c.power + Twos(c.tv - c.tu));
  }

  /** t0 and s0 gain t1 and s1, which are scaled. */
  function Accumulated(c: Cofactors, shift: nat): Cofactors {
    c.(t0 := c.t0 + c.t1, t1 := c.t1 * Pow2(shift), s0 := c.s0 + c.s1, s1 := c.s1 * Pow2(shift))
  }

  lemma NumbersCrossed(tu: Mpz, tv: Mpz, t0: Mpz, t1: Mpz, s0: Mpz, s1: Mpz, power: nat, c: Cofactors)
    requires Numbers(tu, tv, t0, t1, s0, s1, power) == Some(c)
    ensures Numbers(tv, tu, t1, t0, s1, s0, power) == Some(Crossed(c))
  {}

  /** The reduction for tu > tv. */
  method ReduceCrossed(tu: Mpz, tv: Mpz, t0: Mpz, t1: Mpz, s0: Mpz, s1: Mpz, power: nat, ghost c: Cofactors)
    returns (power': nat)
    requires Numbers(tu, tv, t0, t1, s0, s1, power) == Some(c) && 0 < c.tv < c.tu
    modifies tu, tu.d, t0, t0.d, t1, t1.d, s0, s0.d, s1, s1.d
    ensures Numbers(tu, tv, t0, t1, s0, s1, power') == Some(Crossed(Rounded(Crossed(c))))
    ensures Kept(tu) && Kept(t0) && Kept(t1) && Kept(s0) && Kept(s1)
  {
    NumbersCrossed(tu, tv, t0, t1, s0, s1, power, c);
    power' := Reduce(tu, tv, t1, t0, s1, s0, power, Crossed(c));
    NumbersCrossed(tv, tu, t1, t0, s1, s0, power', Rounded(Crossed(c)));
  }

  /** tu compared with tv. */
  method Compare(tu: Mpz, tv: Mpz, t0: Mpz, t1: Mpz, s0: Mpz, s1: Mpz, power: nat, ghost c: Cofactors)
    returns (cmp: int)
    requires Numbers(tu, tv, t0, t1, s0, s1, power) == Some(c)
    ensures Numbers(tu, tv, t0, t1, s0, s1, power) == Some(c) && cmp == Mpn.Sign(c.tu - c.tv)
  {
    cmp := tu.Cmp(tv);
  }

  /** One round of the main loop. */
  method Round(tu: Mpz, tv: Mpz, t0: Mpz, t1: Mpz, s0: Mpz, s1: Mpz, power: nat, ghost c: Cofactors)
    returns (met: bool, power': nat, ghost c': Cofactors)
    requires Numbers(tu, tv, t0, t1, s0, s1, power) == Some(c) && 0 < c.tu && 0 < c.tv
    modifies tu, tu.d, tv, tv.d, t0, t0.d, t1, t1.d, s0, s0.d, s1, s1.d
    ensures Numbers(tu, tv, t0, t1, s0, s1, power') == Some(c')
    ensures 0 < c'.tu && 0 < c'.tv && Met(c') == Met(c)
    ensures if met then c'.tu == c'.tv else c'.tu + c'.tv < c.tu + c.tv
    ensures Kept(tu) && Kept(tv) && Kept(t0) && Kept(t1) && Kept(s0) && Kept(s1)
  {
    met, power', c' := false, power, c;
    var cmp := Compare(tu, tv, t0, t1, s0, s1, power, c);
    if cmp == 0 {
      met := true;
    } else if cmp < 0 {
      power' := Reduce(tv, tu, t0, t1, s0, s1, power, c);
      c' := Rounded(c);
    } else {
      power' := ReduceCrossed(tu, tv, t0, t1, s0, s1, power, c);
      c' := Crossed(Rounded(Crossed(c)));
    }
  }

  /** Subtract the smaller from the larger and take out twos, until the two odd numbers meet. */
  method SubtractLoop(tu: Mpz, tv: Mpz, t0: Mpz, t1: Mpz, s0: Mpz, s1: Mpz, powerIn: nat, ghost cIn: Cofactors)
    returns (power: nat)
    requires Numbers(tu, tv, t0, t1, s0, s1, powerIn) == Some(cIn) && 0 < cIn.tu && 0 < cIn.tv
    modifies tu, tu.d, tv, tv.d, t0, t0.d, t1, t1.d, s0, s0.d, s1, s1.d
    ensures Numbers(tu, tv, t0, t1, s0, s1, power) == Some(Met(cIn))
    ensures Kept(tu) && Kept(tv) && Kept(t0) && Kept(t1) && Kept(s0) && Kept(s1)
  {
    power := powerIn;
    ghost var c := cIn;
    var met := false;
    while !met
      invariant Numbers(tu, tv, t0, t1, s0, s1, power) == Some(c)
      invariant 0 < c.tu && 0 < c.tv && Met(c) == Met(cIn) && (met ==> c.tu == c.tv)
      invariant Kept(tu) && Kept(tv) && Kept(t0) && Kept(t1) && Kept(s0) && Kept(s1)
      decreases !met, c.tu + c.tv
    {
      met, power, c := Round(tu, tv, t0, t1, s0, s1, power, c);
    }
  }

  lemma Meet(tv: int, U: int, V: int, t0: int, t1: int, s0: int, s1: int, p: int)
    requires 0 < tv && Relations(U, V, tv, tv, t0, t1, s0, s1, p)
    ensures U == tv * (t0 + t1) && V == tv * (s0 + s1)
    ensures t0 * (s0 + s1) - s0 * (t0 + t1) == p
  {
    MulDist(tv, t0, t1);
    MulDist(tv, s0, s1);
    GcdFound(tv, U, V, t0, s0, t0 + t1, s0 + s1, p);
  }

  lemma InitialRelations(tu0: int, tv: int, c: int, e: int, tu: int, q: int)
    requires 0 < tu0 && 0 < tv && 1 <= c && 1 <= e && tu == tu0 % tv && q == tu0 / tv
    ensures Relations(c * tu0, e * tv, tu, tv, c, q * c, 0, e, c * e)
  {
    DivBounds(tu0, tv);
    assert tu0 == q * tv + tu;
    assert c * tu0 == q * c * tv + c * tu by {
      MulDist(c, q * tv, tu);
      MulAssoc(q, c, tv);
      MulAssoc(c, q, tv);
    }
    MulNonNeg(q, c);
    assert c * e * tu == e * (c * tu0) - q * c * (e * tv) by {
      MulAssoc(c, e, tu);
      MulAssoc(e, c, tu);
      MulDist(e, q * c * tv, c * tu);
      MulAssoc(q * c, e, tv);
      MulAssoc(e, q * c, tv);
    }
    MulAssoc(c, e, tv);
  }

  /** A power of two c taken out of tu. */
  lemma ShiftRelations(U: int, V: int, tu: int, tu': int, tv: int, t0: int, t1: int, s0: int, s1: int, p: int, c: int)
    requires Relations(U, V, tu, tv, t0, t1, s0, s1, p) && tu == c * tu' && 0 < c
    ensures Relations(U, V, tu', tv, t0 * c, t1, s0 * c, s1, p * c)
  {
    MulNonNeg(t0, c);
    MulNonNeg(s0, c);
    MulAssoc(t0, c, tu');
    MulAssoc(s0, c, tu');
    MulAssoc(p, c, tu');
    ScaleRelation(p, c, tv, t0, V, s0, U);
  }

  /** At the end U == tv * x and V == tv * y, and tv cancels. */
  lemma GcdFound(tv: int, U: int, V: int, t0: int, s0: int, x: int, y: int, p: int)
    requires 0 < tv && U == tv * x && V == tv * y && p * tv == t0 * V - s0 * U
    ensures t0 * y - s0 * x == p
  {
    assert (t0 * y - s0 * x) * tv == p * tv by {
      MulSub(tv, t0 * y, s0 * x);
      MulAssoc(t0, y, tv);
      MulAssoc(s0, x, tv);
    }
    MulSub(tv, t0 * y - s0 * x, p);
    MultipleInRange(t0 * y - s0 * x - p, tv);
  }

  // ---- before the main loop ----

  /** The odd part of |u|. */
  method OddMagnitude(u: Mpz) returns (tu: Mpz, uz: nat)
    requires u.Valid() && u.size != 0
    ensures fresh(tu) && fresh(tu.d) && tu.Valid() && tu.Value() > 0 && tu.Value() % 2 == 1
    ensures Abs(u.Value()) == Pow2(uz) * tu.Value()
  {
    Nonzero(u);
    tu := new Mpz();
    tu.SetAbs(u);
    Nonzero(tu);
    uz := MakeOdd(tu);
  }

  /** t1 = tu / tv * 2^uz, tu = tu mod tv. */
  method FirstDivision(tu: Mpz, tv: Mpz, t1: Mpz, uz: nat)
    requires tu.Valid() && tv.Valid() && t1.Valid() && Unlike(tu, tv) && Unlike(tu, t1) && Unlike(tv, t1)
    requires 0 < tu.Value() && 0 < tv.Value()
    modifies tu, tu.d, t1, t1.d
    ensures tu.Valid() && t1.Valid() && Unlike(tu, t1) && Kept(tu) && Kept(t1)
    ensures tu.Value() == old(tu.Value()) % tv.Value() && t1.Value() == old(tu.Value()) / tv.Value() * Pow2(uz)
  {
    ghost var n, d := tu.Value(), tv.Value();
    var res;
    ghost var quot, rem;
    res, quot, rem := DivQr(t1, tu, tu, tv, Trunc);
    DivBounds(n, d);
    DivisionUnique(Trunc, n, d, quot, rem, n / d, n % d);
    Mul2exp(t1, t1, uz);
  }

  /** The numbers after the first division. */
  function First(tu: int, tv: int, uz: nat, vz: nat): Cofactors
    requires 0 < tv
  {
    Cofactors(tu % tv, tv, Pow2(uz), tu / tv * Pow2(uz), 0, Pow2(vz), uz + vz)
  }

  /** And with the twos taken out of a nonzero remainder. */
  function FirstOdd(c: Cofactors): Cofactors
    requires 0 < c.tu
  {
    var shift := Twos(c.tu);
    c.(tu := OddPart(c.tu), t0 := c.t0 * Pow2(shift), s0 := c.s0 * Pow2(shift), power := c.power + shift)
  }

  /** 2^bit in a new object. */
  method NewPower(bit: nat) returns (x: Mpz)
    ensures fresh(x) && fresh(x.d) && x.Valid() && x.Value() == Pow2(bit)
  {
    x := new Mpz();
    BitOfZero(bit);
    SetBit(x, bit);
  }

  /** The cofactors before the first division. */
  method NewCofactors(uz: nat, vz: nat) returns (t0: Mpz, t1: Mpz, s0: Mpz, s1: Mpz)
    ensures fresh({t0, t0.d, t1, t1.d, s0, s0.d, s1, s1.d})
    ensures Unlike(t0, t1) && Unlike(t0, s0) && Unlike(t0, s1) && Unlike(t1, s0) && Unlike(t1, s1) && Unlike(s0, s1)
    ensures t0.Valid() && t1.Valid() && s0.Valid() && s1.Valid()
    ensures t0.Value() == Pow2(uz) && s0.Value() == 0 && s1.Value() == Pow2(vz)
  {
    t0 := NewPower(uz);
    t1 := new Mpz();
    s0 := new Mpz();
    s1 := NewPower(vz);
  }

  method Prepare(tu: Mpz, tv: Mpz, uz: nat, vz: nat) returns (t0: Mpz, t1: Mpz, s0: Mpz, s1: Mpz, power: nat)
    requires tu.Valid() && tv.Valid() && Unlike(tu, tv) && 0 < tu.Value() && 0 < tv.Value()
    modifies tu, tu.d
    ensures Kept(tu) && fresh({t0, t0.d, t1, t1.d, s0, s0.d, s1, s1.d})
    ensures Numbers(tu, tv, t0, t1, s0, s1, power) == Some(First(old(tu.Value()), tv.Value(), uz, vz))
  {
    t0, t1, s0, s1 := NewCofactors(uz, vz);
    FirstDivision(tu, tv, t1, uz);
    power := uz + vz;
  }

  method TakeTwos(x: Mpz, ghost v: int) returns (shift: nat)
    requires x.Valid() && x.Value() == v > 0
    modifies x, x.d
    ensures x.Valid() && Kept(x) && x.Value() == OddPart(v) && shift == Twos(v)
  {
    Nonzero(x);
    shift := MakeOdd(x);
    OddPartUnique(v, shift, x.Value());
  }

  method FirstShift(tu: Mpz, tv: Mpz, t0: Mpz, t1: Mpz, s0: Mpz, s1: Mpz, powerIn: nat, ghost c: Cofactors)
    returns (power: nat)
    requires Numbers(tu, tv, t0, t1, s0, s1, powerIn) == Some(c) && 0 < c.tu
    modifies tu, tu.d, t0, t0.d, s0, s0.d
    ensures Numbers(tu, tv, t0, t1, s0, s1, power) == Some(FirstOdd(c))
    ensures Kept(tu) && Kept(tv) && Kept(t0) && Kept(t1) && Kept(s0) && Kept(s1)
  {
    var shift := FirstTwos(tu, tv, t0, t1, s0, s1, powerIn, c);
    power := powerIn + shift;
    ScaleFirst(tu, tv, t0, t1, s0, s1, power, shift, c.(tu := OddPart(c.tu), power := c.power + shift));
  }

  method FirstTwos(tu: Mpz, tv: Mpz, t0: Mpz, t1: Mpz, s0: Mpz, s1: Mpz, power: nat, ghost c: Cofactors)
    returns (shift: nat)
    requires Numbers(tu, tv, t0, t1, s0, s1, power) == Some(c) && 0 < c.tu
    modifies tu, tu.d
    ensures shift == Twos(c.tu) && Kept(tu)
    ensures Numbers(tu, tv, t0, t1, s0, s1, power + shift) == Some(c.(tu := OddPart(c.tu), power := c.power + shift))
  {
    shift := TakeTwos(tu, c.tu);
  }

  method ScaleFirst(tu: Mpz, tv: Mpz, t0: Mpz, t1: Mpz, s0: Mpz, s1: Mpz, power: nat, shift: nat, ghost c: Cofactors)
    requires Numbers(tu, tv, t0, t1, s0, s1, power) == Some(c)
    modifies t0, t0.d, s0, s0.d
    ensures Numbers(tu, tv, t0, t1, s0, s1, power) == Some(c.(t0 := c.t0 * Pow2(shift), s0 := c.s0 * Pow2(shift)))
    ensures Kept(t0) && Kept(s0)
  {
    ScaleBoth(t0, s0, shift);
  }

  method ScaleBoth(a: Mpz, b: Mpz, shift: nat)
    requires a.Valid() && b.Valid() && Unlike(a, b)
    modifies a, a.d, b, b.d
    ensures a.Valid() && b.Valid() && Unlike(a, b) && Kept(a) && Kept(b)
    ensures a.Value() == old(a.Value()) * Pow2(shift) && b.Value() == old(b.Value()) * Pow2(shift)
  {
    Mul2exp(a, a, shift);
    Mul2exp(b, b, shift);
  }

  /** All numbers up to the end of the main loop. */
  function Looped(tu: int, tv: int, uz: nat, vz: nat): (c: Cofactors)
    requires 0 < tu && 0 < tv
    ensures 0 < c.tv
  {
    var c := First(tu, tv, uz, vz);
    if c.tu > 0 then Met(FirstOdd(c)) else c
  }

  /** tv becomes the odd part of the gcd; s0 and t0 its cofactors, scaled by 2^power. */
  method OddCofactors(tu: Mpz, tv: Mpz, uz: nat, vz: nat) returns (t0: Mpz, t1: Mpz, s0: Mpz, s1: Mpz, power: nat)
    requires tu.Valid() && tv.Valid() && Unlike(tu, tv) && 0 < tu.Value() && 0 < tv.Value()
    modifies tu, tu.d, tv, tv.d
    ensures Kept(tu) && Kept(tv) && fresh({t0, t0.d, t1, t1.d, s0, s0.d, s1, s1.d})
    ensures Numbers(tu, tv, t0, t1, s0, s1, power) == Some(Looped(old(tu.Value()), old(tv.Value()), uz, vz))
  {
    ghost var c := First(tu.Value(), tv.Value(), uz, vz);
    t0, t1, s0, s1, power := Prepare(tu, tv, uz, vz);
    power := ShiftAndLoop(tu, tv, t0, t1, s0, s1, power, c);
  }

  method ShiftAndLoop(tu: Mpz, tv: Mpz, t0: Mpz, t1: Mpz, s0: Mpz, s1: Mpz, powerIn: nat, ghost c: Cofactors)
    returns (power: nat)
    requires Numbers(tu, tv, t0, t1, s0, s1, powerIn) == Some(c) && 0 <= c.tu && 0 < c.tv
    modifies tu, tu.d, tv, tv.d, t0, t0.d, t1, t1.d, s0, s0.d, s1, s1.d
    ensures Numbers(tu, tv, t0, t1, s0, s1, power) == Some(if c.tu > 0 then Met(FirstOdd(c)) else c)
    ensures Kept(tu) && Kept(tv) && Kept(t0) && Kept(t1) && Kept(s0) && Kept(s1)
  {
    power := powerIn;
    Nonzero(tu);
    if tu.size > 0 {
      power := FirstShift(tu, tv, t0, t1, s0, s1, power, c);
      power := SubtractLoop(tu, tv, t0, t1, s0, s1, power, FirstOdd(c));
    }
  }

  /** What the main loop finds. */
  lemma LoopedFinds(tu: int, tv: int, uz: nat, vz: nat) returns (x: int, y: int)
    requires tu > 0 && tv > 0 && tu % 2 == 1 && tv % 2 == 1
    ensures var c := Looped(tu, tv, uz, vz);
      && c.tv > 0 && Pow2(uz) * tu == c.tv * x && Pow2(vz) * tv == c.tv * y
      && 0 <= c.s0 <= y && c.t0 * y - c.s0 * x == Pow2(c.power)
  {
    var U, V, c := Pow2(uz) * tu, Pow2(vz) * tv, First(tu, tv, uz, vz);
    Pow2Add(uz, vz);
    InitialRelations(tu, tv, Pow2(uz), Pow2(vz), c.tu, tu / tv);
    if c.tu == 0 {
      x, y := c.t1, c.s1;
      GcdFound(tv, U, V, c.t0, c.s0, x, y, Pow2(c.power));
    } else {
      var r, shift := OddPart(c.tu), Twos(c.tu);
      OddPartScaled(c.tu);
      Pow2Add(c.power, shift);
      ShiftRelations(U, V, c.tu, r, tv, c.t0, c.t1, c.s0, c.s1, Pow2(c.power), Pow2(shift));
      MetRunning(U, V, FirstOdd(c));
      var m := Met(FirstOdd(c));
      x, y := m.t0 + m.t1, m.s0 + m.s1;
      Meet(m.tv, U, V, m.t0, m.t1, m.s0, m.s1, Pow2(m.power));
    }
  }

  // ---- after the main loop ----

  /** Whether a number is odd, from its lowest limb. */
  method IsOdd(x: Mpz) returns (odd: bool)
    requires x.Valid()
    ensures odd == (x.Value() % 2 == 1)
  {
    odd := x.size != 0 && x.d[0] % 2 == 1;
    if x.size != 0 {
      var u := x.d[..Abs(x.size)];
      assert u == [u[0]] + u[1..];
      ValCons(u[0], u[1..]);
    }
  }

  /** q = |n / g|. */
  method QuotientMagnitude(q: Mpz, n: Mpz, g: Mpz)
    requires q.Valid() && n.Valid() && g.Valid() && Unlike(q, n) && Unlike(q, g) && n.Apart(g) && 0 < g.Value()
    modifies q, q.d
    ensures q.Valid() && Kept(q) && q.Value() == Abs(n.Value()) / g.Value()
  {
    TdivQ(q, n, g);
    DivBounds(Abs(n.Value()), g.Value());
    Nonzero(q);
    q.SetAbs(q);
  }

  /** One factor of two taken out of both cofactors, after an adjustment when one of them is odd. */
  function Halve(s0: int, t0: int, s1: int, t1: int): (int, int) {
    if s0 % 2 == 1 || t0 % 2 == 1 then (TDiv(s0 - s1, 2), TDiv(t0 + t1, 2)) else (TDiv(s0, 2), TDiv(t0, 2))
  }

  function HalveAll(s0: int, t0: int, s1: int, t1: int, power: nat): (int, int)
    decreases power
  {
    if power == 0 then (s0, t0) else
      var h := Halve(s0, t0, s1, t1);
      HalveAll(h.0, h.1, s1, t1, power - 1)
  }

  lemma HalveStep(s0: int, t0: int, s1: int, t1: int, p: int)
    requires s0 * t1 + t0 * s1 == 2 * p && -s1 <= s0 <= 0 && (s1 % 2 == 1 || t1 % 2 == 1)
    ensures var h := Halve(s0, t0, s1, t1); h.0 * t1 + h.1 * s1 == p && -s1 <= h.0 <= 0
  {
    BothEven(s0, t0, s1, t1, p);
    var a, c := if s0 % 2 == 1 || t0 % 2 == 1 then s0 - s1 else s0, if s0 % 2 == 1 || t0 % 2 == 1 then t0 + t1 else t0;
    HalfRelation(a, c, s1, t1, p);
    EvenTDiv(a);
    EvenTDiv(c);
  }

  lemma EvenTDiv(x: int)
    requires x % 2 == 0
    ensures TDiv(x, 2) == x / 2
  {}

  /** s0*t1 + t0*s1 == 2^power comes down to 1. */
  lemma {:induction false} HalveAllFinds(s0: int, t0: int, s1: int, t1: int, power: nat)
    requires s0 * t1 + t0 * s1 == Pow2(power) && -s1 <= s0 <= 0 && (s1 % 2 == 1 || t1 % 2 == 1)
    ensures var h := HalveAll(s0, t0, s1, t1, power); h.0 * t1 + h.1 * s1 == 1 && -s1 <= h.0 <= 0
    decreases power
  {
    if power > 0 {
      HalveStep(s0, t0, s1, t1, Pow2(power - 1));
      var h := Halve(s0, t0, s1, t1);
      HalveAllFinds(h.0, h.1, s1, t1, power - 1);
    }
  }

  /** Four objects with storage of their own. */
  ghost predicate Own4(s0: Mpz, t0: Mpz, s1: Mpz, t1: Mpz)
    reads s0, t0, s1, t1
  {
    Unlike(s0, t0) && Unlike(s0, s1) && Unlike(s0, t1) && Unlike(t0, s1) && Unlike(t0, t1) && Unlike(s1, t1)
  }

  /** Both cofactors made even. */
  method MakeEven(s0: Mpz, t0: Mpz, s1: Mpz, t1: Mpz)
    requires s0.Valid() && t0.Valid() && s1.Valid() && t1.Valid() && Own4(s0, t0, s1, t1)
    modifies s0, s0.d, t0, t0.d
    ensures s0.Valid() && t0.Valid() && Own4(s0, t0, s1, t1) && Kept(s0) && Kept(t0)
    ensures var adjust := old(s0.Value()) % 2 == 1 || old(t0.Value()) % 2 == 1;
      && s0.Value() == old(s0.Value()) - (if adjust then s1.Value() else 0)
      && t0.Value() == old(t0.Value()) + (if adjust then t1.Value() else 0)
  {
    var odd := EitherOdd(s0, t0);
    if odd {
      s0.Sub(s0, s1);
      t0.Add(t0, t1);
    }
  }

  method EitherOdd(s0: Mpz, t0: Mpz) returns (odd: bool)
    requires s0.Valid() && t0.Valid()
    ensures odd == (s0.Value() % 2 == 1 || t0.Value() % 2 == 1)
  {
    odd := IsOdd(s0);
    if !odd {
      odd := IsOdd(t0);
    }
  }

  method HalveOnce(s0: Mpz, t0: Mpz, s1: Mpz, t1: Mpz)
    requires s0.Valid() && t0.Valid() && s1.Valid() && t1.Valid() && Own4(s0, t0, s1, t1)
    modifies s0, s0.d, t0, t0.d
    ensures s0.Valid() && t0.Valid() && Own4(s0, t0, s1, t1) && Kept(s0) && Kept(t0)
    ensures (s0.Value(), t0.Value()) == Halve(old(s0.Value()), old(t0.Value()), s1.Value(), t1.Value())
  {
    MakeEven(s0, t0, s1, t1);
    HalveBoth(s0, t0);
  }

  method HalveBoth(s0: Mpz, t0: Mpz)
    requires s0.Valid() && t0.Valid() && Unlike(s0, t0)
    modifies s0, s0.d, t0, t0.d
    ensures s0.Valid() && t0.Valid() && Unlike(s0, t0) && Kept(s0) && Kept(t0)
    ensures s0.Value() == TDiv(old(s0.Value()), 2) && t0.Value() == TDiv(old(t0.Value()), 2)
  {
    TdivQUi(s0, s0, 2);
    TdivQUi(t0, t0, 2);
  }

  /** The powers of two taken out of both cofactors, one at a time. */
  method RemoveTwos(s0: Mpz, t0: Mpz, s1: Mpz, t1: Mpz, powerIn: nat)
    requires s0.Valid() && t0.Valid() && s1.Valid() && t1.Valid() && Own4(s0, t0, s1, t1)
    modifies s0, s0.d, t0, t0.d
    ensures s0.Valid() && t0.Valid() && Own4(s0, t0, s1, t1) && Kept(s0) && Kept(t0)
    ensures (s0.Value(), t0.Value()) == HalveAll(old(s0.Value()), old(t0.Value()), s1.Value(), t1.Value(), powerIn)
  {
    ghost var a, b := s1.Value(), t1.Value();
    ghost var goal := HalveAll(s0.Value(), t0.Value(), a, b, powerIn);
    var power := powerIn;
    while power > 0
      invariant s0.Valid() && t0.Valid() && Own4(s0, t0, s1, t1) && Kept(s0) && Kept(t0)
      invariant s1.Valid() && t1.Valid() && s1.Value() == a && t1.Value() == b
      invariant HalveAll(s0.Value(), t0.Value(), a, b, power) == goal
    {
      HalveOnce(s0, t0, s1, t1);
      power := power - 1;
    }
  }

  /** The smaller of two neighbouring cofactors, with its partner. */
  function Nearest(s0: int, t0: int, s1: int, t1: int): (int, int) {
    if Abs(s0) > Abs(s0 + s1) then (s0 + s1, t0 - t1) else (s0, t0)
  }

  lemma NearestSmall(s0: int, t0: int, s1: int, t1: int)
    requires s0 * t1 + t0 * s1 == 1 && -s1 <= s0 <= 0
    ensures var n := Nearest(s0, t0, s1, t1); n.0 * t1 + n.1 * s1 == 1 && 2 * Abs(n.0) <= s1
  {
    MulDist(t1, s0, s1);
    MulSub(s1, t0, t1);
  }

  /** s0 and t0 replaced by s1 and t0 - t1 when |s1| is the smaller. */
  method TakeSmaller(s0: Mpz, t0: Mpz, s1: Mpz, t1: Mpz)
    requires s0.Valid() && t0.Valid() && s1.Valid() && t1.Valid() && Own4(s0, t0, s1, t1)
    modifies s0, t0, t0.d, s1
    ensures s0.Valid() && t0.Valid() && Unlike(s0, t0) && Kept(t0) && (s0.d == old(s0.d) || s0.d == old(s1.d))
    ensures var smaller := Abs(old(s0.Value())) > Abs(old(s1.Value()));
      && s0.Value() == (if smaller then old(s1.Value()) else old(s0.Value()))
      && t0.Value() == old(t0.Value()) - (if smaller then t1.Value() else 0)
  {
    MagnitudeIs(s0);
    MagnitudeIs(s1);
    var c := s0.CmpAbs(s1);
    if c > 0 {
      s0.Swap(s1);
      t0.Sub(t0, t1);
    }
  }

  method TakeNearest(s0: Mpz, t0: Mpz, s1: Mpz, t1: Mpz)
    requires s0.Valid() && t0.Valid() && s1.Valid() && t1.Valid() && Own4(s0, t0, s1, t1)
    modifies s0, t0, t0.d, s1, s1.d
    ensures s0.Valid() && t0.Valid() && Unlike(s0, t0) && Kept(t0)
    ensures s0.d == old(s0.d) || s0.d == old(s1.d) || fresh(s0.d)
    ensures (s0.Value(), t0.Value()) == Nearest(old(s0.Value()), old(t0.Value()), old(s1.Value()), t1.Value())
  {
    s1.Add(s0, s1);
    TakeSmaller(s0, t0, s1, t1);
  }

  /** x = -x when asked. */
  method NegateIf(x: Mpz, negative: bool)
    requires x.Valid()
    modifies x, x.d
    ensures x.Valid() && Kept(x) && x.Value() == if negative then -old(x.Value()) else old(x.Value())
  {
    if negative {
      x.SetNeg(x);
    }
  }

  /** The cofactors of the odd part, made those of the operands: all twos out, the smaller one of two taken. */
  function Final(c: Cofactors, s1: int, t1: int): (int, int) {
    var h := HalveAll(-c.s0, c.t0, s1, t1, c.power);
    Nearest(h.0, h.1, s1, t1)
  }

  method ScaleAndNegate(tv: Mpz, s0: Mpz, gz: nat)
    requires tv.Valid() && s0.Valid() && Unlike(tv, s0) && 0 < tv.Value()
    modifies tv, tv.d, s0, s0.d
    ensures tv.Valid() && s0.Valid() && Unlike(tv, s0) && Kept(tv) && Kept(s0)
    ensures 0 < tv.Value() == old(tv.Value()) * Pow2(gz) && s0.Value() == -old(s0.Value())
  {
    MulPositive(tv.Value(), Pow2(gz));
    Mul2exp(tv, tv, gz);
    s0.SetNeg(s0);
  }

  /** s1 = |v / g| and t1 = |u / g|. */
  method Quotients(u: Mpz, v: Mpz, g: Mpz, s1: Mpz, t1: Mpz, ghost U: int, ghost V: int)
    requires u.Valid() && v.Valid() && u.Value() == U && v.Value() == V && g.Valid() && s1.Valid() && t1.Valid()
    requires Unlike(s1, t1) && Unlike(g, s1) && Unlike(g, t1) && u.Apart(g) && v.Apart(g)
    requires Unlike(u, s1) && Unlike(u, t1) && Unlike(v, s1) && Unlike(v, t1) && 0 < g.Value()
    modifies s1, s1.d, t1, t1.d
    ensures s1.Valid() && t1.Valid() && Unlike(s1, t1) && Kept(s1) && Kept(t1)
    ensures s1.Value() == Abs(V) / g.Value() && t1.Value() == Abs(U) / g.Value()
  {
    QuotientMagnitude(s1, v, g);
    QuotientMagnitude(t1, u, g);
  }

  /** All twos out, and the smaller cofactor of two. */
  method FinalCofactors(s0: Mpz, t0: Mpz, s1: Mpz, t1: Mpz, power: nat, ghost c: Cofactors)
    requires s0.Valid() && t0.Valid() && s1.Valid() && t1.Valid() && Own4(s0, t0, s1, t1)
    requires s0.Value() == -c.s0 && t0.Value() == c.t0 && c.power == power
    modifies s0, s0.d, t0, t0.d, s1, s1.d
    ensures s0.Valid() && t0.Valid() && Unlike(s0, t0) && Kept(t0)
    ensures s0.d == old(s0.d) || s0.d == old(s1.d) || fresh(s0.d)
    ensures (s0.Value(), t0.Value()) == Final(c, old(s1.Value()), t1.Value())
  {
    RemoveTwos(s0, t0, s1, t1, power);
    TakeNearest(s0, t0, s1, t1);
  }

  /** x shares nothing with the five objects. */
  ghost predicate Outside(x: Mpz, tv: Mpz, s0: Mpz, t0: Mpz, s1: Mpz, t1: Mpz)
    reads x, tv, s0, t0, s1, t1
  {
    Unlike(x, tv) && Unlike(x, s0) && Unlike(x, t0) && Unlike(x, s1) && Unlike(x, t1)
  }

  /** tv = the gcd, s1 and t1 the operands divided by it, s0 negated. */
  method Divided(u: Mpz, v: Mpz, tv: Mpz, s0: Mpz, t0: Mpz, s1: Mpz, t1: Mpz, gz: nat, ghost U: int, ghost V: int)
    requires u.Valid() && v.Valid() && u.Value() == U && v.Value() == V
    requires tv.Valid() && s0.Valid() && t0.Valid() && s1.Valid() && t1.Valid()
    requires Own4(s0, t0, s1, t1) && Unlike(tv, s0) && Unlike(tv, t0) && Unlike(tv, s1) && Unlike(tv, t1)
    requires Outside(u, tv, s0, t0, s1, t1) && Outside(v, tv, s0, t0, s1, t1) && 0 < tv.Value()
    modifies tv, tv.d, s0, s0.d, s1, s1.d, t1, t1.d
    ensures tv.Valid() && s0.Valid() && s1.Valid() && t1.Valid() && Own4(s0, t0, s1, t1)
    ensures Unlike(tv, s0) && Unlike(tv, t0) && Unlike(tv, s1) && Unlike(tv, t1)
    ensures Kept(tv) && Kept(s0) && Kept(s1) && Kept(t1)
    ensures tv.Value() == old(tv.Value()) * Pow2(gz) && s0.Value() == -old(s0.Value()) && 0 < tv.Value()
    ensures s1.Value() == Abs(V) / tv.Value() && t1.Value() == Abs(U) / tv.Value()
  {
    ScaleAndNegate(tv, s0, gz);
    Quotients(u, v, tv, s1, t1, U, V);
  }

  /** tv = the gcd, s0 and t0 its cofactors up to the signs of the operands. */
  method Finish(u: Mpz, v: Mpz, tv: Mpz, s0: Mpz, t0: Mpz, s1: Mpz, t1: Mpz, gz: nat, power: nat, ghost c: Cofactors,
                ghost U: int, ghost V: int)
    requires u.Valid() && v.Valid() && u.Value() == U && v.Value() == V
    requires tv.Valid() && s0.Valid() && t0.Valid() && s1.Valid() && t1.Valid()
    requires Own4(s0, t0, s1, t1) && Unlike(tv, s0) && Unlike(tv, t0) && Unlike(tv, s1) && Unlike(tv, t1)
    requires Outside(u, tv, s0, t0, s1, t1) && Outside(v, tv, s0, t0, s1, t1) && 0 < tv.Value()
    requires c.s0 == s0.Value() && c.t0 == t0.Value() && c.power == power
    modifies tv, tv.d, s0, s0.d, t0, t0.d, s1, s1.d, t1, t1.d
    ensures tv.Valid() && s0.Valid() && t0.Valid() && Unlike(tv, s0) && Unlike(tv, t0) && Unlike(s0, t0)
    ensures Kept(tv) && Kept(t0) && (s0.d == old(s0.d) || s0.d == old(s1.d) || fresh(s0.d))
    ensures 0 < tv.Value() == old(tv.Value()) * Pow2(gz)
    ensures (s0.Value(), t0.Value()) == Final(c, Abs(V) / tv.Value(), Abs(U) / tv.Value())
  {
    Divided(u, v, tv, s0, t0, s1, t1, gz, U, V);
    FinalCofactors(s0, t0, s1, t1, power, c);
  }

  /** g divides both operands and is the combination s*u + t*v, with s and t at most about half of v/g and u/g. */
  ghost predicate IsCombination(g: int, s: int, t: int, u: int, v: int) {
    && 0 < g && Divides(g, u) && Divides(g, v) && g == s * u + t * v
    && 2 * Abs(s) * g <= Abs(v) && 2 * Abs(t) * g <= Abs(u) + 2 * g
  }

  /** What the algorithm computes, for operands with 2^gz taken out and odd parts tu and tv. */
  lemma FinalFinds(u: int, v: int, tu: int, tv: int, uz: nat, vz: nat, gz: nat, g: int, f: (int, int))
    requires tu > 0 && tv > 0 && tu % 2 == 1 && tv % 2 == 1 && (uz == 0 || vz == 0) && u != 0 && v != 0
    requires Abs(u) == Pow2(gz) * (Pow2(uz) * tu) && Abs(v) == Pow2(gz) * (Pow2(vz) * tv)
    requires 0 < g == Looped(tu, tv, uz, vz).tv * Pow2(gz)
    requires f == Final(Looped(tu, tv, uz, vz), Abs(v) / g, Abs(u) / g)
    ensures IsCombination(g, if u < 0 then -f.0 else f.0, if v < 0 then -f.1 else f.1, u, v)
  {
    var c := Looped(tu, tv, uz, vz);
    var x, y := LoopedFinds(tu, tv, uz, vz);
    Cofactor(Abs(u), Pow2(uz) * tu, c.tv, x, Pow2(gz));
    Cofactor(Abs(v), Pow2(vz) * tv, c.tv, y, Pow2(gz));
    SomeOdd(tu, tv, uz, vz, c.tv, x, y);
    FinalSmall(c, x, y);
    Combine(u, v, g, f.0, f.1, x, y);
  }

  lemma FinalSmall(c: Cofactors, x: int, y: int)
    requires 0 <= c.s0 <= y && c.t0 * y - c.s0 * x == Pow2(c.power) && 0 < x && 0 < y && (x % 2 == 1 || y % 2 == 1)
    ensures var f := Final(c, y, x); f.0 * x + f.1 * y == 1 && 2 * Abs(f.0) <= y && 2 * Abs(f.1) <= x + 2
  {
    MulSub(x, 0, c.s0);
    HalveAllFinds(-c.s0, c.t0, y, x, c.power);
    var h := HalveAll(-c.s0, c.t0, y, x, c.power);
    NearestSmall(h.0, h.1, y, x);
    var f := Final(c, y, x);
    Reduced(f.0, f.1, x, y);
  }

  /** The algorithm proper, with the common power of two 2^gz set aside: tv = the gcd, and its cofactors. */
  method GcdextOdd(u: Mpz, v: Mpz, tu: Mpz, tv: Mpz, uz: nat, vz: nat, gz: nat, ghost U: int, ghost V: int)
    returns (s0: Mpz, t0: Mpz)
    requires u.Valid() && v.Valid() && tu.Valid() && tv.Valid() && Unlike(tu, tv)
    requires Unlike(u, tu) && Unlike(u, tv) && Unlike(v, tu) && Unlike(v, tv)
    requires u.Value() == U != 0 && v.Value() == V != 0
    requires tu.Value() > 0 && tv.Value() > 0 && tu.Value() % 2 == 1 && tv.Value() % 2 == 1 && (uz == 0 || vz == 0)
    requires Abs(U) == Pow2(gz) * (Pow2(uz) * tu.Value()) && Abs(V) == Pow2(gz) * (Pow2(vz) * tv.Value())
    modifies tu, tu.d, tv, tv.d
    ensures fresh({s0, s0.d, t0, t0.d}) && Kept(tv) && Unlike(tv, s0) && Unlike(tv, t0) && Unlike(s0, t0)
    ensures tv.Valid() && s0.Valid() && t0.Valid()
    ensures IsCombination(tv.Value(), s0.Value(), t0.Value(), U, V)
  {
    Nonzero(u);
    Nonzero(v);
    ghost var x, y := tu.Value(), tv.Value();
    s0, t0 := LoopAndFinish(u, v, tu, tv, uz, vz, gz, Looped(x, y, uz, vz), U, V);
    SignBoth(tv, s0, t0, u.size < 0, v.size < 0, U, V, x, y, uz, vz, gz);
  }

  /** The signs of the operands, put on the cofactors of their magnitudes. */
  method SignBoth(tv: Mpz, s0: Mpz, t0: Mpz, negS: bool, negT: bool, ghost U: int, ghost V: int,
                  ghost x: int, ghost y: int, ghost uz: nat, ghost vz: nat, ghost gz: nat)
    requires tv.Valid() && s0.Valid() && t0.Valid() && Unlike(tv, s0) && Unlike(tv, t0) && Unlike(s0, t0)
    requires x > 0 && y > 0 && x % 2 == 1 && y % 2 == 1 && (uz == 0 || vz == 0) && U != 0 && V != 0
    requires Abs(U) == Pow2(gz) * (Pow2(uz) * x) && Abs(V) == Pow2(gz) * (Pow2(vz) * y)
    requires 0 < tv.Value() == Looped(x, y, uz, vz).tv * Pow2(gz) && negS == (U < 0) && negT == (V < 0)
    requires (s0.Value(), t0.Value()) == Final(Looped(x, y, uz, vz), Abs(V) / tv.Value(), Abs(U) / tv.Value())
    modifies s0, s0.d, t0, t0.d
    ensures s0.Valid() && t0.Valid() && Unlike(s0, t0) && Kept(s0) && Kept(t0)
    ensures tv.Valid() && IsCombination(tv.Value(), s0.Value(), t0.Value(), U, V)
  {
    FinalFinds(U, V, x, y, uz, vz, gz, tv.Value(), (s0.Value(), t0.Value()));
    SignCofactors(s0, t0, negS, negT);
  }

  method LoopAndFinish(u: Mpz, v: Mpz, tu: Mpz, tv: Mpz, uz: nat, vz: nat, gz: nat, ghost c: Cofactors,
                       ghost U: int, ghost V: int)
    returns (s0: Mpz, t0: Mpz)
    requires u.Valid() && v.Valid() && tu.Valid() && tv.Valid() && Unlike(tu, tv)
    requires Unlike(u, tu) && Unlike(u, tv) && Unlike(v, tu) && Unlike(v, tv) && u.Value() == U && v.Value() == V
    requires tu.Value() > 0 && tv.Value() > 0 && c == Looped(tu.Value(), tv.Value(), uz, vz)
    modifies tu, tu.d, tv, tv.d
    ensures fresh({s0, s0.d, t0, t0.d}) && Kept(tv) && Unlike(tv, s0) && Unlike(tv, t0) && Unlike(s0, t0)
    ensures tv.Valid() && s0.Valid() && t0.Valid() && 0 < tv.Value() == c.tv * Pow2(gz)
    ensures (s0.Value(), t0.Value()) == Final(c, Abs(V) / tv.Value(), Abs(U) / tv.Value())
  {
    var t1, s1, power;
    t0, t1, s0, s1, power := OddCofactors(tu, tv, uz, vz);
    Finish(u, v, tv, s0, t0, s1, t1, gz, power, c, U, V);
  }

  method SignCofactors(s0: Mpz, t0: Mpz, negS: bool, negT: bool)
    requires s0.Valid() && t0.Valid() && Unlike(s0, t0)
    modifies s0, s0.d, t0, t0.d
    ensures s0.Valid() && t0.Valid() && Unlike(s0, t0) && Kept(s0) && Kept(t0)
    ensures s0.Value() == (if negS then -old(s0.Value()) else old(s0.Value()))
    ensures t0.Value() == (if negT then -old(t0.Value()) else old(t0.Value()))
  {
    NegateIf(s0, negS);
    NegateIf(t0, negT);
  }

  // ---- the whole operation ----

  /** The odd parts of both operands, and the powers of two beside the common one. */
  method OddMagnitudes(u: Mpz, v: Mpz) returns (tu: Mpz, tv: Mpz, uz: nat, vz: nat, gz: nat)
    requires u.Valid() && v.Valid() && u.Value() != 0 && v.Value() != 0
    ensures fresh({tu, tu.d, tv, tv.d}) && Unlike(tu, tv) && tu.Valid() && tv.Valid()
    ensures tu.Value() > 0 && tv.Value() > 0 && tu.Value() % 2 == 1 && tv.Value() % 2 == 1 && (uz == 0 || vz == 0)
    ensures Abs(u.Value()) == Pow2(gz) * (Pow2(uz) * tu.Value()) && Abs(v.Value()) == Pow2(gz) * (Pow2(vz) * tv.Value())
  {
    tu, uz := OddMagnitude(u);
    tv, vz := OddMagnitude(v);
    gz := if uz < vz then uz else vz;
    TwosApart(gz, uz, tu.Value());
    TwosApart(gz, vz, tv.Value());
    uz, vz := uz - gz, vz - gz;
  }

  lemma TwosApart(gz: nat, z: nat, x: int)
    requires gz <= z
    ensures Pow2(z) * x == Pow2(gz) * (Pow2(z - gz) * x)
  {
    Pow2Add(gz, z - gz);
    MulAssoc(Pow2(gz), Pow2(z - gz), x);
  }

  /** g is the greatest common divisor and s*u + t*v, with small cofactors. */
  ghost predicate IsBezout(g: int, s: int, t: int, u: int, v: int) {
    && 0 < g && IsGcd(g, u, v) && g == s * u + t * v
    && 2 * Abs(s) * g <= Abs(v) + 2 * g && 2 * Abs(t) * g <= Abs(u) + 2 * g
  }

  lemma CombinationIsBezout(g: int, s: int, t: int, u: int, v: int)
    requires IsCombination(g, s, t, u, v)
    ensures IsBezout(g, s, t, u, v) && IsBezout(g, t, s, v, u)
  {
    CombinationIsGcd(g, u, v, s, t);
    CombinationIsGcd(g, v, u, t, s);
  }

  /** The gcd of two nonzero numbers, and its cofactors, in new objects. */
  method GcdextNonzero(u: Mpz, v: Mpz, ghost U: int, ghost V: int) returns (g: Mpz, s: Mpz, t: Mpz)
    requires u.Valid() && v.Valid() && u.Value() == U != 0 && v.Value() == V != 0
    ensures fresh({g, g.d, s, s.d, t, t.d}) && Unlike(g, s) && Unlike(g, t) && Unlike(s, t)
    ensures g.Valid() && s.Valid() && t.Valid() && IsBezout(g.Value(), s.Value(), t.Value(), U, V)
  {
    var tu, tv, uz, vz, gz := OddMagnitudes(u, v);
    g := tv;
    if tu.size < tv.size {
      tu.Swap(tv);
      t, s := GcdextOdd(v, u, tu, tv, vz, uz, gz, V, U);
      CombinationIsBezout(tv.Value(), t.Value(), s.Value(), V, U);
    } else {
      s, t := GcdextOdd(u, v, tu, tv, uz, vz, gz, U, V);
      CombinationIsBezout(tv.Value(), s.Value(), t.Value(), U, V);
    }
  }

  /** A result, when wanted, takes over a new object's number. */
  method DeliverTo(x: Mpz?, t: Mpz)
    requires t.Valid() && (x != null ==> x != t)
    modifies x, t
    ensures x != null ==> x.Valid() && x.Value() == old(t.Value()) && x.d == old(t.d)
    ensures x == null ==> t.size == old(t.size) && t.d == old(t.d)
  {
    if x != null {
      x.Swap(t);
    }
  }

  /** g = |w|, one cofactor the sign of w and the other zero, when wanted. */
  method GcdextZero(g: Mpz, zero: Mpz?, one: Mpz?, w: Mpz)
    requires w.Valid() && g.Apart(w) && (zero != null ==> zero.Apart(w)) && (one != null ==> one.Apart(w))
    requires (zero != null ==> Unlike(g, zero)) && (one != null ==> Unlike(g, one))
    requires zero != null && one != null ==> Unlike(zero, one)
    modifies g, g.d, zero, one, if one != null then {one.d} else {}
    ensures g.Valid() && Kept(g) && g.Value() == Abs(old(w.Value()))
    ensures zero != null ==> zero.Valid() && zero.Value() == 0 && zero.d == old(zero.d)
    ensures one != null ==> one.Valid() && one.Value() == Mpn.Sign(old(w.Value())) && Kept(one)
  {
    Nonzero(w);
    MagnitudeIs(w);
    var negative, nonzero := w.size < 0, w.size != 0;
    g.SetAbs(w);
    if zero != null {
      zero.size := 0;
    }
    if one != null {
      one.SetSmall(if nonzero then 1 else 0, negative);
    }
  }

  lemma GcdOfZero(w: int)
    ensures IsGcd(Abs(w), 0, w) && IsGcd(Abs(w), w, 0) && Abs(w) == Mpn.Sign(w) * w
  {
    MultipleDivides(Abs(w), 0);
    MultipleDivides(Abs(w), Mpn.Sign(w));
    CombinationIsGcd(Abs(w), 0, w, 0, Mpn.Sign(w));
    CombinationIsGcd(Abs(w), w, 0, Mpn.Sign(w), 0);
  }

  /** The objects a result is delivered to: apart from both operands. */
  ghost predicate Fit(x: Mpz?, u: Mpz, v: Mpz)
    reads u, v, if x != null then {x} else {}
  {
    x != null ==> x.Apart(u) && x.Apart(v)
  }

  ghost predicate Differ(x: Mpz?, y: Mpz?)
    reads if x != null then {x} else {}, if y != null then {y} else {}
  {
    x != null && y != null ==> Unlike(x, y)
  }

  /** g = gcd(u, v) == s*u + t*v; the cofactors are delivered when wanted. */
  method Gcdext(g: Mpz, s: Mpz?, t: Mpz?, u: Mpz, v: Mpz) returns (ghost sv: int, ghost tv: int)
    requires u.Valid() && v.Valid() && u.Apart(v) && Fit(g, u, v) && Fit(s, u, v) && Fit(t, u, v)
    requires Differ(g, s) && Differ(g, t) && Differ(s, t)
    modifies g, g.d, if s != null then {s, s.d} else {}, if t != null then {t, t.d} else {}
    ensures g.Valid() && Kept(g) && IsGcd(g.Value(), old(u.Value()), old(v.Value()))
    ensures g.Value() == sv * old(u.Value()) + tv * old(v.Value())
    ensures old(u.Value()) != 0 && old(v.Value()) != 0 ==>
      && g.Value() > 0 && 2 * Abs(sv) * g.Value() <= Abs(old(v.Value())) + 2 * g.Value()
      && 2 * Abs(tv) * g.Value() <= Abs(old(u.Value())) + 2 * g.Value()
    ensures s != null ==> s.Valid() && s.Value() == sv && Kept(s)
    ensures t != null ==> t.Valid() && t.Value() == tv && Kept(t)
  {
    Nonzero(u);
    Nonzero(v);
    if u.size == 0 {
      sv, tv := 0, Mpn.Sign(v.Value());
      GcdOfZero(v.Value());
      GcdextZero(g, s, t, v);
    } else if v.size == 0 {
      sv, tv := Mpn.Sign(u.Value()), 0;
      GcdOfZero(u.Value());
      GcdextZero(g, t, s, u);
    } else {
      var g', s', t' := GcdextNonzero(u, v, u.Value(), v.Value());
      sv, tv := s'.Value(), t'.Value();
      DeliverAll(g, s, t, g', s', t');
    }
  }

  method DeliverAll(g: Mpz, s: Mpz?, t: Mpz?, g': Mpz, s': Mpz, t': Mpz)
    requires g'.Valid() && s'.Valid() && t'.Valid() && Unlike(g', s') && Unlike(g', t') && Unlike(s', t')
    requires Differ(g, s) && Differ(g, t) && Differ(s, t)
    requires g !in {g', s', t'} && s !in {g', s', t'} && t !in {g', s', t'}
    modifies g, s, t, g', s', t'
    ensures g.Valid() && g.Value() == old(g'.Value()) && g.d == old(g'.d)
    ensures s != null ==> s.Valid() && s.Value() == old(s'.Value()) && s.d == old(s'.d)
    ensures t != null ==> t.Valid() && t.Value() == old(t'.Value()) && t.d == old(t'.d)
  {
    DeliverTo(g, g');
    DeliverTo(s, s');
    DeliverTo(t, t');
  }

  // ---- modular inverse ----

  /** r = 1/u modulo m. It exists exactly when |m| > 1 and u and m are coprime. */
  method Invert(r: Mpz, u: Mpz, m: Mpz) returns (invertible: bool)
    requires u.Valid() && m.Valid() && u.Apart(m)
    modifies r
    ensures invertible <==> Abs(old(m.Value())) > 1 && IsGcd(1, old(u.Value()), old(m.Value()))
    ensures invertible ==> r.Valid() && fresh(r.d) && 0 < r.Value() < Abs(old(m.Value()))
    ensures invertible ==> r.Value() * old(u.Value()) % Abs(old(m.Value())) == 1
    ensures !invertible ==> r.size == old(r.size) && r.d == old(r.d)
  {
    Nonzero(u);
    MagnitudeIs(m);
    var c := m.CmpAbsUi(1);
    if u.size == 0 || c <= 0 {
      if Abs(m.Value()) > 1 {
        NotCoprimeToZero(m.Value());
      }
      return false;
    }
    var tr;
    invertible, tr := Inverse(u, m);
    if invertible {
      r.Swap(tr);
    }
  }

  /** The inverse of a nonzero u modulo m, in a new object. */
  method Inverse(u: Mpz, m: Mpz) returns (invertible: bool, tr: Mpz)
    requires u.Valid() && m.Valid() && u.Apart(m) && u.Value() != 0 && Abs(m.Value()) > 1
    ensures fresh(tr) && fresh(tr.d)
    ensures invertible <==> IsGcd(1, u.Value(), m.Value())
    ensures invertible ==> tr.Valid() && 0 < tr.Value() < Abs(m.Value()) && tr.Value() * u.Value() % Abs(m.Value()) == 1
  {
    ghost var s, t;
    invertible, tr, s, t := CoprimeCofactor(u, m);
    if invertible {
      InverseRange(u.Value(), m.Value(), s, t);
      IntoRange(tr, m);
    }
  }

  /** Whether u and m are coprime, and u's cofactor. */
  method CoprimeCofactor(u: Mpz, m: Mpz) returns (coprime: bool, tr: Mpz, ghost s: int, ghost t: int)
    requires u.Valid() && m.Valid() && u.Apart(m) && u.Value() != 0 && m.Value() != 0
    ensures fresh(tr) && fresh(tr.d) && tr.Valid() && tr.Value() == s
    ensures coprime <==> IsGcd(1, u.Value(), m.Value())
    ensures coprime ==> s * u.Value() + t * m.Value() == 1 && 2 * Abs(s) <= Abs(m.Value()) + 2
  {
    var g := new Mpz();
    tr := new Mpz();
    s, t := Gcdext(g, tr, null, u, m);
    CoprimeIff(g.Value(), u.Value(), m.Value(), s, t);
    coprime := IsOne(g);
  }

  method IsOne(g: Mpz) returns (one: bool)
    requires g.Valid() && 0 <= g.Value()
    ensures one == (g.Value() == 1)
  {
    MagnitudeIs(g);
    var c := g.CmpAbsUi(1);
    one := c == 0;
  }

  lemma CoprimeIff(g: int, u: int, m: int, s: int, t: int)
    requires IsGcd(g, u, m) && g == s * u + t * m && 2 * Abs(s) * g <= Abs(m) + 2 * g
    ensures g == 1 <==> IsGcd(1, u, m)
    ensures g == 1 ==> s * u + t * m == 1 && 2 * Abs(s) <= Abs(m) + 2
  {
    if IsGcd(1, u, m) {
      GcdUnique(g, 1, u, m);
    }
  }

  /** A negative tr is moved up by |m|. */
  method IntoRange(tr: Mpz, m: Mpz)
    requires tr.Valid() && m.Valid() && Unlike(tr, m)
    modifies tr, tr.d
    ensures tr.Valid() && Kept(tr)
    ensures tr.Value() == if old(tr.Value()) < 0 then old(tr.Value()) + Abs(m.Value()) else old(tr.Value())
  {
    Nonzero(tr);
    Nonzero(m);
    if tr.size < 0 {
      if m.size >= 0 {
        tr.Add(tr, m);
      } else {
        tr.Sub(tr, m);
      }
    }
  }

  lemma NotCoprimeToZero(m: int)
    requires Abs(m) > 1
    ensures !IsGcd(1, 0, m)
  {
    MultipleDivides(m, 0);
    MultipleDivides(m, 1);
    assert !Divides(m, 1);
  }

  /** A cofactor of size at most about half the modulus, moved into range, is the inverse. */
  lemma InverseRange(u: int, m: int, s: int, t: int)
    requires Abs(m) > 1 && s * u + t * m == 1 && 2 * Abs(s) <= Abs(m) + 2
    ensures var r := if s < 0 then s + Abs(m) else s;
      0 < r < Abs(m) && r * u % Abs(m) == 1
  {
    var n: int := Abs(m);
    var r := if s < 0 then s + n else s;
    var k := (if m >= 0 then -t else t) + (if s < 0 then u else 0);
    assert r * u == k * n + 1 by {
      MulDist(u, s, n);
      MulSub(m, 0, t);
      NegateBoth(t, m);
      MulDist(n, if m >= 0 then -t else t, u);
    }
    DivModUnique(r * u, n, k, 1);
    assert 0 <= r <= n;
    if r == 0 || r == n {
      DivModUnique(r * u, n, if r == 0 then 0 else u, 0);
      assert false;
    }
  }
}
