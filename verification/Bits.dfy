/** Bitwise operations on naturals, and shifts of limbs. */
module Bits {
  import opened Arith
  import opened Powers
  import opened Limbs

  function BitOr(x: nat, y: nat): (r: nat)
    ensures r <= x + y
  {
    if x == 0 then y else if y == 0 then x
    else 2 * BitOr(x / 2, y / 2) + (if x % 2 == 1 || y % 2 == 1 then 1 else 0)
  }

  /** Or of bit strings that do not meet is their sum. */
  lemma {:induction false} OrDisjoint(x: nat, y: nat, k: nat)
    requires y < Pow2(k) && x % Pow2(k) == 0
    ensures BitOr(x, y) == x + y
    decreases k
  {
    if x != 0 && y != 0 {
      var p := Pow2(k - 1);
      var q := x / (2 * p);
      assert x == 2 * (p * q) by { MulAssoc(2, p, q); }
      assert x / 2 == p * q;
      DivModUnique(p * q, p, q, 0);
      OrDisjoint(x / 2, y / 2, k - 1);
    }
  }

  /** Low word of x shifted left. */
  function ShlW(x: Limb, cnt: nat): Limb {
    x * Pow2(cnt) % B
  }

  function Shr(x: Limb, cnt: nat): (r: Limb)
    ensures r <= x
  {
    ShrSmaller(x, cnt);
    x / Pow2(cnt)
  }

  lemma ShrSmaller(x: int, cnt: nat)
    requires 0 <= x
    ensures 0 <= x / Pow2(cnt) <= x
  {
    DivBounds(x, Pow2(cnt));
    MulMono(x / Pow2(cnt), 1, Pow2(cnt));
  }

  /** Limb n is bit 64 * n. */
  lemma {:induction false} PwIsPow2(n: nat)
    ensures Pw(n) == Pow2(LIMB_BITS * n)
  {
    if n > 0 {
      PwIsPow2(n - 1);
      Pow2Add(LIMB_BITS, LIMB_BITS * (n - 1));
      Pow2Constants();
    }
  }

  lemma Pow2Complement(cnt: nat)
    requires cnt <= LIMB_BITS
    ensures Pow2(cnt) * Pow2(LIMB_BITS - cnt) == B
    ensures Pow2(cnt) <= B
  {
    Pow2Add(cnt, LIMB_BITS - cnt);
    Pow2Constants();
    Pow2Monotone(cnt, LIMB_BITS);
  }

  /** Scaling x by c, where c * t == B: the part of x above t leaves the word. */
  lemma ScaleSplit(x: int, c: int, t: int)
    requires 0 <= x < B && 0 < c && 0 < t && c * t == B
    ensures x == (x / t) * t + x % t
    ensures x * c == (x / t) * B + (x % t) * c
    ensures 0 <= x / t < c
    ensures 0 <= (x % t) * c <= B - c
    ensures x * c % B == (x % t) * c
  {
    var hi, lo := x / t, x % t;
    DivBounds(x, t);
    ScaleProduct(hi, lo, c, t);
    MulMono(c, lo, t - 1);
    MulSub(c, t, 1);
    MulNonNeg(c, lo);
    MulCancel(hi, c, t);
    DivModUnique(x * c, B, hi, lo * c);
  }

  lemma ScaleProduct(hi: int, lo: int, c: int, t: int)
    requires c * t == B
    ensures (hi * t + lo) * c == hi * B + lo * c
  {
    MulDist(c, hi * t, lo);
    MulAssoc(hi, t, c);
  }

  /** A left shift moves the top cnt bits of x out and leaves room for cnt bits. */
  lemma ShlParts(x: Limb, cnt: nat)
    requires cnt <= LIMB_BITS
    ensures x * Pow2(cnt) == Shr(x, LIMB_BITS - cnt) * B + ShlW(x, cnt)
    ensures Shr(x, LIMB_BITS - cnt) < Pow2(cnt)
    ensures ShlW(x, cnt) % Pow2(cnt) == 0 && ShlW(x, cnt) <= B - Pow2(cnt)
  {
    var c, t := Pow2(cnt), Pow2(LIMB_BITS - cnt);
    Pow2Complement(cnt);
    ScaleSplit(x, c, t);
    DivModUnique((x % t) * c, c, x % t, 0);
  }

  /** A right shift splits x into its high part and cnt low bits; shifted up, those fill a word from the top. */
  lemma ShrParts(x: Limb, cnt: nat)
    requires cnt <= LIMB_BITS
    ensures x == Shr(x, cnt) * Pow2(cnt) + x % Pow2(cnt)
    ensures Shr(x, cnt) < Pow2(LIMB_BITS - cnt)
    ensures ShlW(x, LIMB_BITS - cnt) == (x % Pow2(cnt)) * Pow2(LIMB_BITS - cnt)
  {
    Pow2Complement(LIMB_BITS - cnt);
    ScaleSplit(x, Pow2(LIMB_BITS - cnt), Pow2(cnt));
  }
}
