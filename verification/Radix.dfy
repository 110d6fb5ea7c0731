/**
 Changing the radix of a number in place: multiplying a big-endian run of digits by m and
 adding c, from the least significant digit upwards.
 */
module Radix {
  import opened Arith
  import opened Powers
  import opened Numerals

  /** The number written by the digits of s from position p on, most significant first. */
  function Suffix(s: seq<int>, p: nat, b: int): int
    requires p <= |s|
    decreases |s| - p
  {
    if p == |s| then 0 else s[p] * Pow(b, |s| - 1 - p) + Suffix(s, p + 1, b)
  }

  ghost predicate DigitsBelow(s: seq<int>, p: nat, b: int) {
    forall k :: p <= k < |s| ==> 0 <= s[k] < b
  }

  lemma {:induction false} SuffixAgree(s: seq<int>, t: seq<int>, p: nat, b: int)
    requires |s| == |t| && p <= |s| && forall k :: p <= k < |s| ==> s[k] == t[k]
    ensures Suffix(s, p, b) == Suffix(t, p, b)
    decreases |s| - p
  {
    if p < |s| {
      SuffixAgree(s, t, p + 1, b);
    }
  }

  lemma {:induction false} SuffixBound(s: seq<int>, p: nat, b: int)
    requires p <= |s| && DigitsBelow(s, p, b) && 1 <= b
    ensures 0 <= Suffix(s, p, b) < Pow(b, |s| - p)
    decreases |s| - p
  {
    if p < |s| {
      SuffixBound(s, p + 1, b);
      var w := Pow(b, |s| - 1 - p);
      PowPositive(b, |s| - 1 - p);
      MulMono(w, s[p], b - 1);
      MulNonNeg(s[p], w);
      MulDist(w, b, -1);
    }
  }

  /**
   The digits of t beyond p are those of m * s + c, but for the carry, which belongs at p.
   */
  ghost predicate Multiplied(s: seq<int>, t: seq<int>, p: nat, b: int, m: int, c: int, carry: int) {
    && |s| == |t| && p <= |s| && 0 <= carry && DigitsBelow(t, p, b)
    && Suffix(t, p, b) + carry * Pow(b, |s| - p) == m * Suffix(s, p, b) + c
  }

  lemma MultiplyStart(s: seq<int>, t: seq<int>, b: int, m: int, c: int)
    requires |s| == |t| && 0 <= c
    ensures Multiplied(s, t, |s|, b, m, c, c)
  {
    assert Pow(b, 0) == 1;
  }

  /** One more digit: x is the old one, r and carry' what the product leaves. */
  lemma MultiplyStep(s: seq<int>, t: seq<int>, p: nat, b: int, m: int, c: int, carry: int, r: int, carry': int)
    requires 0 < p && Multiplied(s, t, p, b, m, c, carry)
    requires s[p - 1] * m + carry == carry' * b + r && 0 <= r < b && 0 <= carry'
    ensures Multiplied(s, t[p - 1 := r], p - 1, b, m, c, carry')
  {
    var t' := t[p - 1 := r];
    SuffixAgree(t', t, p, b);
    MultiplyColumn(Pow(b, |s| - p), b, m, s[p - 1], carry, r, carry', Suffix(t, p, b), Suffix(s, p, b), c);
  }

  lemma MultiplyColumn(w: int, b: int, m: int, x: int, carry: int, r: int, carry': int, t: int, s: int, c: int)
    requires x * m + carry == carry' * b + r && t + carry * w == m * s + c
    ensures r * w + t + carry' * (b * w) == m * (x * w + s) + c
  {
    MulDist(w, x * m, carry);
    MulDist(w, carry' * b, r);
    MulAssoc(carry', b, w);
    MulAssoc(x, m, w);
    MulAssoc(m, x, w);
    MulDist(m, x * w, s);
  }

  /** A carry out of the digits in use, below a bound on the result, leaves room above them. */
  lemma RoomAbove(s: seq<int>, t: seq<int>, p: nat, b: int, m: int, c: int, carry: int)
    requires 2 <= b && Multiplied(s, t, p, b, m, c, carry) && 0 < carry && m * Suffix(s, p, b) + c < Pow(b, |s|)
    ensures 0 < p
  {
    SuffixBound(t, p, b);
    PowPositive(b, |s| - p);
    MulMono(Pow(b, |s| - p), 1, carry);
  }

  /** Without a carry the product is complete. */
  lemma NoCarry(s: seq<int>, t: seq<int>, p: nat, b: int, m: int, c: int)
    requires Multiplied(s, t, p, b, m, c, 0)
    ensures Suffix(t, p, b) == m * Suffix(s, p, b) + c
  {}

  /** A carry becomes a new leading digit. */
  lemma LeadingCarry(s: seq<int>, t: seq<int>, p: nat, b: int, m: int, c: int, carry: int)
    requires 0 < p && Multiplied(s, t, p, b, m, c, carry)
    ensures Suffix(t[p - 1 := carry], p - 1, b) == m * Suffix(s, p, b) + c
  {
    SuffixAgree(t[p - 1 := carry], t, p, b);
  }
}
