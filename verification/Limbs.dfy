/**
 Limb arrays and the integers they stand for.

 A limb is a 64-bit word; limbs are stored least significant first. `Val` is the
 integer a run of limbs denotes, `Low(s, n)` the part of it in the n lowest limbs, and
 `Pw(n)` the weight of limb n.
 */
module Limbs {
  import opened Arith

  // The limb base 2^64, its powers, and the half-limb base 2^32.
  const B: int := 0x1_0000_0000_0000_0000
  const BB: int := 0x1_0000_0000_0000_0000_0000_0000_0000_0000
  const BBB: int := 0x1_0000_0000_0000_0000_0000_0000_0000_0000_0000_0000_0000_0000
  const H: int := 0x1_0000_0000
  const LIMB_BITS: nat := 64

  type Limb = x: int | 0 <= x < B

  // Machine arithmetic on limbs: sums and differences wrap modulo B.
  function AddW(x: Limb, y: Limb): Limb { if x + y < B then x + y else x + y - B }
  function SubW(x: Limb, y: Limb): Limb { if x >= y then x - y else x - y + B }

  /** The weight of limb `n`: B^n. */
  function Pw(n: nat): (p: int)
    ensures p >= 1
  {
    if n == 0 then 1 else B * Pw(n - 1)
  }

  /** The integer denoted by the `n` lowest limbs. */
  function Low(s: seq<Limb>, n: nat): int
    requires n <= |s|
  {
    if n == 0 then 0 else Low(s, n - 1) + Pw(n - 1) * s[n - 1]
  }

  /** The integer denoted by a run of limbs. */
  function Val(s: seq<Limb>): int {
    Low(s, |s|)
  }

  lemma {:induction false} PwAdd(m: nat, n: nat)
    ensures Pw(m + n) == Pw(m) * Pw(n)
  {
    if m > 0 {
      PwAdd(m - 1, n);
      MulAssoc(B, Pw(m - 1), Pw(n));
    }
  }

  lemma {:induction false} PwMonotone(m: nat, n: nat)
    requires m <= n
    ensures Pw(m) <= Pw(n)
  {
    if m < n {
      PwMonotone(m, n - 1);
    }
  }

  lemma {:induction false} LowBound(s: seq<Limb>, n: nat)
    requires n <= |s|
    ensures 0 <= Low(s, n) < Pw(n)
  {
    if n > 0 {
      LowBound(s, n - 1);
      MulNonNeg(Pw(n - 1), s[n - 1]);
      MulMono(Pw(n - 1), s[n - 1], B - 1);
    }
  }

  lemma ValBound(s: seq<Limb>)
    ensures 0 <= Val(s) < Pw(|s|)
  {
    LowBound(s, |s|);
  }

  lemma {:induction false} LowAgree(s: seq<Limb>, t: seq<Limb>, n: nat)
    requires n <= |s| && n <= |t|
    requires forall j :: 0 <= j < n ==> s[j] == t[j]
    ensures Low(s, n) == Low(t, n)
  {
    if n > 0 {
      LowAgree(s, t, n - 1);
    }
  }

  lemma LowSlice(s: seq<Limb>, n: nat)
    requires n <= |s|
    ensures Val(s[..n]) == Low(s, n)
  {
    LowAgree(s[..n], s, n);
  }

  /** Appending one limb on top. */
  lemma ValSnoc(s: seq<Limb>, x: Limb)
    ensures Val(s + [x]) == Val(s) + Pw(|s|) * x
  {
    LowAgree(s + [x], s, |s|);
  }

  /** Putting one limb below. */
  lemma ValCons(x: Limb, s: seq<Limb>)
    ensures Val([x] + s) == x + B * Val(s)
  {
    ValAppend([x], s);
    assert Low([x], 1) == x;
  }

  /** Concatenation shifts the high part up by the length of the low part. */
  lemma {:induction false} LowAppend(s: seq<Limb>, t: seq<Limb>, k: nat)
    requires k <= |t|
    ensures Low(s + t, |s| + k) == Val(s) + Pw(|s|) * Low(t, k)
  {
    if k == 0 {
      LowAgree(s + t, s, |s|);
    } else {
      LowAppend(s, t, k - 1);
      PwAdd(|s|, k - 1);
      MulAssoc(Pw(|s|), Pw(k - 1), t[k - 1]);
      MulDist(Pw(|s|), Low(t, k - 1), Pw(k - 1) * t[k - 1]);
    }
  }

  lemma ValAppend(s: seq<Limb>, t: seq<Limb>)
    ensures Val(s + t) == Val(s) + Pw(|s|) * Val(t)
  {
    LowAppend(s, t, |t|);
  }

  /** A run split at any position. */
  lemma ValSplit(s: seq<Limb>, k: nat)
    requires k <= |s|
    ensures Val(s) == Val(s[..k]) + Pw(k) * Val(s[k..])
  {
    assert s == s[..k] + s[k..];
    ValAppend(s[..k], s[k..]);
  }

  /** A nonzero top limb makes the value at least the weight of that limb. */
  lemma ValTopNonzero(s: seq<Limb>)
    requires |s| > 0 && s[|s| - 1] != 0
    ensures Val(s) >= Pw(|s| - 1)
  {
    LowBound(s, |s| - 1);
    MulMono(Pw(|s| - 1), 1, s[|s| - 1]);
  }

  /** A run as large as the weight of its top limb has a nonzero top limb. */
  lemma LargeTop(s: seq<Limb>)
    requires |s| > 0 && Val(s) >= Pw(|s| - 1)
    ensures s[|s| - 1] != 0
  {
    LowBound(s, |s| - 1);
  }

  lemma {:induction false} LowZeros(s: seq<Limb>, n: nat)
    requires n <= |s| && forall i :: 0 <= i < n ==> s[i] == 0
    ensures Low(s, n) == 0
  {
    if n > 0 {
      LowZeros(s, n - 1);
    }
  }

  /** A run of limbs of a given length is determined by its value. */
  lemma {:induction false} LowInjective(s: seq<Limb>, t: seq<Limb>, n: nat)
    requires n <= |s| && n <= |t| && Low(s, n) == Low(t, n)
    ensures forall j :: 0 <= j < n ==> s[j] == t[j]
  {
    if n > 0 {
      LowBound(s, n - 1);
      LowBound(t, n - 1);
      DigitUnique(Pw(n - 1), Low(s, n - 1), s[n - 1], Low(t, n - 1), t[n - 1]);
      LowInjective(s, t, n - 1);
    }
  }
}
