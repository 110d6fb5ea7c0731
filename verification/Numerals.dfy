/**
 Positional notation. `Digits(s, n, b)` reads the first n entries of s as base-b digits,
 most significant first; `Numeral(x, b)` is the shortest way to write x.
 */
module Numerals {
  import opened Arith
  import opened Powers

  type Byte = x: int | 0 <= x < 0x100

  function Digits(s: seq<Byte>, n: nat, b: int): int
    requires n <= |s|
  {
    if n == 0 then 0 else Digits(s, n - 1, b) * b + s[n - 1]
  }

  /** The digits of x without leading zeros; zero is written with one digit. */
  function Numeral(x: nat, b: int): (s: seq<Byte>)
    requires 2 <= b <= 0x100
    ensures |s| > 0
    decreases x
  {
    if x < b then [x] else Shrinks(x, b); Numeral(x / b, b) + [x % b]
  }

  lemma Shrinks(x: int, b: int)
    requires 2 <= b && 0 <= x
    ensures 0 <= x / b && x == (x / b) * b + x % b && 0 <= x % b < b
    ensures x >= b ==> 0 < x / b < x
  {
    DivBounds(x, b);
    if x >= b {
      MulCancel(0, x / b + 1, b);
      MulDist(b, x / b, 1);
      MulCancel(1, x / b + 1, b);
      MulMono(x / b, 2, b);
    }
  }

  predicate AllBelow(s: seq<Byte>, b: int) {
    forall i :: 0 <= i < |s| ==> s[i] < b
  }

  // ---- reading digits ----

  lemma {:induction false} DigitsAgree(s: seq<Byte>, t: seq<Byte>, n: nat, b: int)
    requires n <= |s| && n <= |t| && forall i :: 0 <= i < n ==> s[i] == t[i]
    ensures Digits(s, n, b) == Digits(t, n, b)
  {
    if n > 0 {
      DigitsAgree(s, t, n - 1, b);
    }
  }

  lemma {:induction false} DigitsBound(s: seq<Byte>, n: nat, b: int)
    requires n <= |s| && AllBelow(s, b) && 1 <= b
    ensures 0 <= Digits(s, n, b) < Pow(b, n)
  {
    if n > 0 {
      DigitsBound(s, n - 1, b);
      MulMono(b, Digits(s, n - 1, b), Pow(b, n - 1) - 1);
      MulDist(b, Pow(b, n - 1), -1);
      MulNonNeg(b, Digits(s, n - 1, b));
    }
  }

  /** A nonzero leading digit puts the number at or above its weight. */
  lemma {:induction false} LeadingDigit(s: seq<Byte>, n: nat, b: int)
    requires 0 < n <= |s| && s[0] != 0 && 1 <= b
    ensures Pow(b, n - 1) <= Digits(s, n, b)
  {
    if n > 1 {
      LeadingDigit(s, n - 1, b);
      MulMono(b, Pow(b, n - 2), Digits(s, n - 1, b));
    } else {
      assert Digits(s, 1, b) == s[0];
    }
  }

  // ---- the shortest numeral ----

  /** What characterises it: it denotes x in digits, and does not start with a superfluous zero. */
  ghost predicate IsNumeral(s: seq<Byte>, x: int, b: int) {
    |s| > 0 && AllBelow(s, b) && Digits(s, |s|, b) == x && (s[0] == 0 ==> |s| == 1)
  }

  lemma {:induction false} NumeralDenotes(x: nat, b: int)
    requires 2 <= b <= 0x100
    ensures IsNumeral(Numeral(x, b), x, b)
    ensures x > 0 ==> Numeral(x, b)[0] != 0
    decreases x
  {
    if x >= b {
      Shrinks(x, b);
      NumeralDenotes(x / b, b);
      var s, t := Numeral(x, b), Numeral(x / b, b);
      assert s[..|t|] == t;
      DigitsAgree(s, t, |t|, b);
    } else {
      assert Digits([x], 1, b) == x;
    }
  }

  /** No other string of digits denotes x without a superfluous zero. */
  lemma {:induction false} NumeralUnique(s: seq<Byte>, x: int, b: int)
    requires 2 <= b <= 0x100 && IsNumeral(s, x, b)
    ensures 0 <= x && s == Numeral(x, b)
    decreases |s|
  {
    var n := |s|;
    DigitsBound(s, n, b);
    if n == 1 {
      assert Digits(s, 1, b) == s[0];
    } else {
      var t := s[..n - 1];
      DigitsAgree(s, t, n - 1, b);
      LeadingDigit(t, n - 1, b);
      PowPositive(b, n - 2);
      DivModUnique(x, b, Digits(t, n - 1, b), s[n - 1]);
      MulMono(b, 1, Digits(t, n - 1, b));
      NumeralUnique(t, x / b, b);
      assert s == t + [s[n - 1]];
    }
  }

  /** The digit count is the exponent of the power just above the number. */
  lemma DigitCount(x: nat, b: int, n: nat)
    requires 2 <= b <= 0x100 && 0 < n && Pow(b, n - 1) <= x < Pow(b, n)
    ensures |Numeral(x, b)| == n
  {
    var s := Numeral(x, b);
    NumeralDenotes(x, b);
    PowPositive(b, n - 1);
    LeadingDigit(s, |s|, b);
    DigitsBound(s, |s|, b);
    if |s| < n {
      PowMonotone(b, |s|, n - 1);
    } else if |s| > n {
      PowMonotone(b, n, |s| - 1);
    }
  }

  // ---- least significant digit first ----

  /** The number written by the first n entries of s, least significant first. */
  function Reversed(s: seq<Byte>, n: nat, b: int): int
    requires n <= |s|
  {
    if n == 0 then 0 else Reversed(s, n - 1, b) + Pow(b, n - 1) * s[n - 1]
  }

  lemma {:induction false} ReversedAgree(s: seq<Byte>, t: seq<Byte>, n: nat, b: int)
    requires n <= |s| && n <= |t| && forall i :: 0 <= i < n ==> s[i] == t[i]
    ensures Reversed(s, n, b) == Reversed(t, n, b)
  {
    if n > 0 {
      ReversedAgree(s, t, n - 1, b);
    }
  }

  /** Reading the first k digits of s, and the others as the reverse of t, gives all of t or s. */
  lemma {:induction false} ReverseReads(s: seq<Byte>, t: seq<Byte>, k: nat, b: int)
    requires k <= |s| == |t| && forall i :: 0 <= i < |s| ==> s[i] == t[|s| - 1 - i]
    ensures Reversed(t, |t| - k, b) + Pow(b, |t| - k) * Digits(s, k, b) == Reversed(t, |t|, b)
  {
    if k > 0 {
      ReverseReads(s, t, k - 1, b);
      var p, d := Pow(b, |t| - k), Digits(s, k - 1, b);
      MulAssoc(b, p, d);
      MulAssoc(p, d, b);
      MulDist(p, d * b, s[k - 1]);
    }
  }

  /** Writing digits from the least significant end and turning them round. */
  lemma DigitsOfReverse(s: seq<Byte>, t: seq<Byte>, b: int)
    requires |s| == |t| && forall i :: 0 <= i < |s| ==> s[i] == t[|s| - 1 - i]
    ensures Digits(s, |s|, b) == Reversed(t, |t|, b)
  {
    ReverseReads(s, t, |s|, b);
    MulAssoc(1, 1, Digits(s, |s|, b));
  }

  // ---- byte strings and their numbers ----

  /** The digits of a number without leading zeros; zero has none. */
  function Shortest(x: nat, b: int): (s: seq<Byte>)
    requires 2 <= b <= 0x100
  {
    if x == 0 then [] else Numeral(x, b)
  }

  /** A byte string as a number. */
  function Value(b: seq<Byte>): (x: int)
    ensures 0 <= x
  {
    DigitsBound(b, |b|, 0x100);
    Digits(b, |b|, 0x100)
  }

  lemma ShortestDenotes(x: nat, b: int)
    requires 2 <= b <= 0x100
    ensures var s := Shortest(x, b); AllBelow(s, b) && Digits(s, |s|, b) == x && (s != [] ==> s[0] != 0)
  {
    if x > 0 {
      NumeralDenotes(x, b);
    }
  }

  /** The only such digits. */
  lemma ShortestUnique(s: seq<Byte>, b: int)
    requires 2 <= b <= 0x100 && AllBelow(s, b) && (s != [] ==> s[0] != 0)
    ensures 0 <= Digits(s, |s|, b) && s == Shortest(Digits(s, |s|, b), b)
  {
    if s != [] {
      LeadingDigit(s, |s|, b);
      PowPositive(b, |s| - 1);
      NumeralUnique(s, Digits(s, |s|, b), b);
    }
  }
}
