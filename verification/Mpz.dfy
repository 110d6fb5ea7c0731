/**
 Signed integers: a sign, a count of limbs and a limb array. Every operation keeps the
 top limb nonzero, and may have its operands share storage with its result.
 */
module Mpz {
  import opened Arith
  import opened Limbs
  import opened Mpn

  function Abs(x: int): nat {
    if x >= 0 then x else -x
  }

  class Mpz {
    var size: int         // its magnitude counts limbs, its sign is that of the number
    var d: array<Limb>    // d.Length limbs are allocated

    /** No more limbs than allocated, and none of them a leading zero. */
    ghost predicate Valid()
      reads this, d
    {
      Abs(size) <= d.Length && (size != 0 ==> d[Abs(size) - 1] != 0)
    }

    ghost function Magnitude(): int
      reads this, d
      requires Abs(size) <= d.Length
    {
      Val(d[..Abs(size)])
    }

    /** The integer this object stands for. */
    ghost function Value(): int
      reads this, d
      requires Abs(size) <= d.Length
    {
      if size >= 0 then Magnitude() else -Magnitude()
    }

    /** Distinct objects own distinct arrays. */
    ghost predicate Apart(x: Mpz)
      reads this, x
    {
      this == x || d != x.d
    }

    constructor ()
      ensures Valid() && Value() == 0 && size == 0 && fresh(d)
    {
      size := 0;
      d := new Limb[0];
    }

    /** Make room for n limbs, keeping the contents. */
    method Realloc(n: nat)
      modifies this
      ensures size == old(size) && n <= d.Length && old(d.Length) <= d.Length
      ensures d == old(d) || fresh(d)
      ensures d[..old(d.Length)] == old(d[..])
    {
      if n > d.Length {
        var was := d;
        d := new Limb[n](_ => 0);
        Copyi(d, 0, was, 0, was.Length);
        assert d[..was.Length] == d[0..0 + was.Length];
        assert was[..] == was[0..0 + was.Length];
      }
    }

    // ---- comparison ----

    method Cmp(b: Mpz) returns (c: int)
      requires Valid() && b.Valid()
      ensures c == Sign(Value() - b.Value())
    {
      SizeOrder(this, b);
      if size != b.size {
        c := if size < b.size then -1 else 1;
      } else if size >= 0 {
        c := Mpn.Cmp(d, 0, b.d, 0, size);
        assert d[0..0 + size] == d[..size] && b.d[0..0 + size] == b.d[..size];
      } else {
        c := Mpn.Cmp(b.d, 0, d, 0, -size);
        assert d[0..0 + -size] == d[..-size] && b.d[0..0 + -size] == b.d[..-size];
      }
    }

    /** Magnitudes compared. */
    method CmpAbs(b: Mpz) returns (c: int)
      requires Valid() && b.Valid()
      ensures c == Sign(Magnitude() - b.Magnitude())
    {
      c := Mpn.Cmp4(d, Abs(size), b.d, Abs(b.size));
    }

    /** The magnitude compared with a limb. */
    method CmpAbsUi(v: Limb) returns (c: int)
      requires Valid()
      ensures c == Sign(Magnitude() - v)
    {
      if size != 0 {
        OneLimb(d[..Abs(size)]);
      }
      if Abs(size) > 1 {
        c := 1;
      } else {
        var low := if size == 0 then 0 else d[0];
        c := Sign(low - v);
      }
    }

    // ---- addition and subtraction ----

    /** Store |a| + |b| and return its size, leaving the size field alone. */
    method AbsAdd(a: Mpz, b: Mpz) returns (rn: nat)
      requires a.Valid() && b.Valid() && Apart(a) && Apart(b)
      modifies this, d
      ensures size == old(size) && (d == old(d) || fresh(d))
      ensures rn <= d.Length && (rn > 0 ==> d[rn - 1] != 0)
      ensures Val(d[..rn]) == old(a.Magnitude()) + old(b.Magnitude())
    {
      if Abs(a.size) < Abs(b.size) {
        rn := AbsAddLonger(b, a);
      } else {
        rn := AbsAddLonger(a, b);
      }
    }

    method AbsAddLonger(a: Mpz, b: Mpz) returns (rn: nat)
      requires a.Valid() && b.Valid() && Apart(a) && Apart(b) && Abs(b.size) <= Abs(a.size)
      modifies this, d
      ensures size == old(size) && (d == old(d) || fresh(d))
      ensures rn <= d.Length && (rn > 0 ==> d[rn - 1] != 0)
      ensures Val(d[..rn]) == old(a.Magnitude()) + old(b.Magnitude())
    {
      var an, bn := Abs(a.size), Abs(b.size);
      ghost var A, C := a.d[..an], b.d[..bn];
      Realloc(an + 1);
      assert a.d[..an] == A && b.d[..bn] == C;
      rn := AddLimbs(a.d, an, b.d, bn);
    }

    /** Store the sum of ap and bp, and return its size. */
    method AddLimbs(ap: array<Limb>, an: nat, bp: array<Limb>, bn: nat) returns (rn: nat)
      requires bn <= an <= ap.Length && bn <= bp.Length && an < d.Length && (an > 0 ==> ap[an - 1] != 0)
      modifies d
      ensures rn <= d.Length && (rn > 0 ==> d[rn - 1] != 0)
      ensures Val(d[..rn]) == old(Val(ap[..an])) + old(Val(bp[..bn]))
    {
      ghost var A, C := ap[..an], bp[..bn];
      var cy := Mpn.Add(d, ap, an, bp, bn);
      ghost var S := d[..an];
      StoreCarry(an, cy);
      SumTop(S, cy, A, C);
      rn := an + cy;
    }

    method StoreCarry(n: nat, cy: Limb)
      requires n < d.Length
      modifies d
      ensures d[..n] == old(d[..n]) && d[n] == cy
      ensures Val(d[..n + 1]) == old(Val(d[..n])) + Pw(n) * cy
    {
      d[n] := cy;
      assert d[..n + 1] == d[..n] + [cy];
      ValSnoc(d[..n], cy);
    }

    /** Store ||a| - |b||; the size returned is negative when |a| < |b|. */
    method AbsSub(a: Mpz, b: Mpz) returns (rn: int)
      requires a.Valid() && b.Valid() && Apart(a) && Apart(b)
      modifies this, d
      ensures size == old(size) && (d == old(d) || fresh(d))
      ensures Abs(rn) <= d.Length && (rn != 0 ==> d[Abs(rn) - 1] != 0)
      ensures Signed(rn, Val(d[..Abs(rn)])) == old(a.Magnitude()) - old(b.Magnitude())
    {
      var an, bn := Abs(a.size), Abs(b.size);
      var cmp := Mpn.Cmp4(a.d, an, b.d, bn);
      if cmp > 0 {
        rn := AbsSubSmaller(a, b);
      } else if cmp < 0 {
        rn := AbsSubSmaller(b, a);
        rn := -rn;
      } else {
        rn := 0;
      }
    }

    method AbsSubSmaller(a: Mpz, b: Mpz) returns (rn: nat)
      requires a.Valid() && b.Valid() && Apart(a) && Apart(b) && b.Magnitude() < a.Magnitude()
      modifies this, d
      ensures size == old(size) && (d == old(d) || fresh(d))
      ensures rn <= d.Length && (rn != 0 ==> d[rn - 1] != 0)
      ensures Val(d[..rn]) == old(a.Magnitude()) - old(b.Magnitude())
    {
      var an, bn := Abs(a.size), Abs(b.size);
      ghost var A, C := a.d[..an], b.d[..bn];
      NotLonger(A, C);
      Realloc(an);
      assert a.d[..an] == A && b.d[..bn] == C;
      var cy := Mpn.Sub(d, a.d, an, b.d, bn);
      NoBorrow(d[..an], cy, A, C);
      rn := Mpn.NormalizedSize(d, an);
    }

    /** this = a + b. */
    method Add(a: Mpz, b: Mpz)
      requires a.Valid() && b.Valid() && Apart(a) && Apart(b)
      modifies this, d
      ensures Valid() && (d == old(d) || fresh(d))
      ensures Value() == old(a.Value()) + old(b.Value())
    {
      size := Combine(a, b, (a.size >= 0) == (b.size >= 0));
    }

    /** this = a - b. */
    method Sub(a: Mpz, b: Mpz)
      requires a.Valid() && b.Valid() && Apart(a) && Apart(b)
      modifies this, d
      ensures Valid() && (d == old(d) || fresh(d))
      ensures Value() == old(a.Value()) - old(b.Value())
    {
      size := Combine(a, b, (a.size >= 0) != (b.size >= 0));
    }

    /** Store |a| + |b| or ||a| - |b||; the size returned has the sign of a, or the other one when |a| < |b|. */
    method Combine(a: Mpz, b: Mpz, together: bool) returns (rn: int)
      requires a.Valid() && b.Valid() && Apart(a) && Apart(b)
      modifies this, d
      ensures size == old(size) && (d == old(d) || fresh(d))
      ensures Abs(rn) <= d.Length && (rn != 0 ==> d[Abs(rn) - 1] != 0)
      ensures Signed(rn, Val(d[..Abs(rn)]))
           == Signed(old(a.size), old(a.Magnitude()) + if together then old(b.Magnitude()) else -old(b.Magnitude()))
    {
      if together {
        rn := AbsAdd(a, b);
      } else {
        rn := AbsSub(a, b);
      }
      rn := if a.size >= 0 then rn else -rn;
    }

    // ---- assignment, and small operands ----

    method Set(x: Mpz)
      requires x.Valid() && Apart(x)
      modifies this, d
      ensures Valid() && (d == old(d) || fresh(d))
      ensures Value() == old(x.Value())
      ensures size == old(x.size) && d[..Abs(size)] == old(x.d[..Abs(x.size)])
    {
      if this != x {
        var n := Abs(x.size);
        Realloc(n);
        Copyi(d, 0, x.d, 0, n);
        assert d[..n] == d[0..0 + n] && x.d[..n] == x.d[0..0 + n];
        size := x.size;
      }
    }

    /** this = x, for a number of at most one limb. */
    method SetSmall(x: Limb, negative: bool)
      modifies this, d
      ensures Valid() && (d == old(d) || fresh(d))
      ensures Value() == if negative then 0 - x else x
    {
      if x == 0 {
        size := 0;
      } else {
        Realloc(1);
        d[0] := x;
        size := if negative then -1 else 1;
        assert Low(d[..1], 1) == x;
      }
    }

    /** this = |u|. */
    method SetAbs(u: Mpz)
      requires u.Valid() && Apart(u)
      modifies this, d
      ensures Valid() && (d == old(d) || fresh(d))
      ensures Value() == old(u.Magnitude())
    {
      Set(u);
      size := Abs(size);
    }

    /** this = -u. */
    method SetNeg(u: Mpz)
      requires u.Valid() && Apart(u)
      modifies this, d
      ensures Valid() && (d == old(d) || fresh(d))
      ensures Value() == -old(u.Value())
    {
      Set(u);
      ghost var m := Magnitude();
      size := -size;
      assert Magnitude() == m;
    }

    /** The two exchange their numbers, storage and all. */
    method Swap(v: Mpz)
      modifies this, v
      ensures size == old(v.size) && d == old(v.d) && v.size == old(size) && v.d == old(d)
    {
      size, v.size, d, v.d := v.size, size, v.d, d;
    }

    /** Store |a| + b and return its size. */
    method AbsAddUi(a: Mpz, b: Limb) returns (rn: nat)
      requires a.Valid() && Apart(a)
      modifies this, d
      ensures size == old(size) && (d == old(d) || fresh(d))
      ensures rn <= d.Length && (rn > 0 ==> d[rn - 1] != 0)
      ensures Val(d[..rn]) == old(a.Magnitude()) + b
    {
      var an := Abs(a.size);
      if an == 0 {
        Realloc(1);
        d[0] := b;
        assert Low(d[..1], 1) == b;
        rn := if b > 0 then 1 else 0;
      } else {
        ghost var A := a.d[..an];
        Realloc(an + 1);
        assert a.d[..an] == A;
        rn := AddLimb(a.d, an, b);
      }
    }

    /** Store the sum of ap and b, and return its size. */
    method AddLimb(ap: array<Limb>, an: nat, b: Limb) returns (rn: nat)
      requires 0 < an <= ap.Length && an < d.Length && ap[an - 1] != 0
      modifies d
      ensures rn <= d.Length && (rn > 0 ==> d[rn - 1] != 0) && Val(d[..rn]) == old(Val(ap[..an])) + b
    {
      ghost var A := ap[..an];
      assert A == ap[0..0 + an];
      assert Val([b]) == b by { assert Low([b], 1) == b; }
      var cy := Mpn.Add1(d, 0, ap, 0, an, b);
      ghost var S := d[..an];
      assert S == d[0..0 + an];
      StoreCarry(an, cy);
      SumTop(S, cy, A, [b]);
      rn := an + cy;
    }

    /** Store ||a| - b|; the size returned is negative when |a| < b. */
    method AbsSubUi(a: Mpz, b: Limb) returns (rn: int)
      requires a.Valid() && Apart(a)
      modifies this, d
      ensures size == old(size) && (d == old(d) || fresh(d))
      ensures Abs(rn) <= d.Length && (rn != 0 ==> d[Abs(rn) - 1] != 0)
      ensures Signed(rn, Val(d[..Abs(rn)])) == old(a.Magnitude()) - b
    {
      var an := Abs(a.size);
      ghost var A := a.d[..an];
      if an == 0 {
        Realloc(1);
        d[0] := b;
        assert Low(d[..1], 1) == b;
        return if b > 0 then -1 else 0;
      }
      Realloc(an);
      assert a.d[..an] == A == a.d[0..0 + an];
      OneLimb(A);
      if an == 1 && a.d[0] < b {
        d[0] := b - a.d[0];
        assert Low(d[..1], 1) == d[0];
        rn := -1;
      } else {
        rn := SubLimb(a.d, an, b);
      }
    }

    /** Store the difference of ap and b, and return its size. */
    method SubLimb(ap: array<Limb>, an: nat, b: Limb) returns (rn: nat)
      requires 0 < an <= ap.Length && an <= d.Length && b <= Val(ap[..an])
      modifies d
      ensures rn <= d.Length && (rn != 0 ==> d[rn - 1] != 0) && Val(d[..rn]) == old(Val(ap[..an])) - b
    {
      ghost var A := ap[..an];
      assert A == ap[0..0 + an];
      assert Val([b]) == b by { assert Low([b], 1) == b; }
      var cy := Mpn.Sub1(d, 0, ap, 0, an, b);
      assert d[..an] == d[0..0 + an];
      NoBorrow(d[..an], cy, A, [b]);
      rn := Mpn.NormalizedSize(d, an);
    }

    method AddUi(a: Mpz, b: Limb)
      requires a.Valid() && Apart(a)
      modifies this, d
      ensures Valid() && (d == old(d) || fresh(d))
      ensures Value() == old(a.Value()) + b
    {
      var rn: int;
      if a.size >= 0 {
        rn := AbsAddUi(a, b);
      } else {
        rn := AbsSubUi(a, b);
        rn := -rn;
      }
      size := rn;
    }

    method SubUi(a: Mpz, b: Limb)
      requires a.Valid() && Apart(a)
      modifies this, d
      ensures Valid() && (d == old(d) || fresh(d))
      ensures Value() == old(a.Value()) - b
    {
      var rn: int;
      if a.size < 0 {
        rn := AbsAddUi(a, b);
        rn := -rn;
      } else {
        rn := AbsSubUi(a, b);
      }
      size := rn;
    }

    // ---- multiplication ----

    /** this = u * v. */
    method Mul(u: Mpz, v: Mpz)
      requires u.Valid() && v.Valid()
      modifies this
      ensures Valid() && (d == old(d) || fresh(d))
      ensures Value() == old(u.Value()) * old(v.Value())
    {
      var un, vn := u.size, v.size;
      if un == 0 || vn == 0 {
        size := 0;
        return;
      }
      var negative := (un < 0) != (vn < 0);
      SignedProduct(un, vn, u.Magnitude(), v.Magnitude());
      var tp, rn := MulMagnitudes(u, v);
      var n: int := rn;
      size, d := if negative then -n else n, tp;
    }

    /** this = u * v for a limb v. */
    method MulUi(u: Mpz, v: Limb)
      requires u.Valid() && Apart(u)
      modifies this, d
      ensures Valid() && (d == old(d) || fresh(d))
      ensures Value() == old(u.Value()) * v
    {
      var us := u.size;
      if us == 0 || v == 0 {
        size := 0;
        return;
      }
      MulSub(v, 0, u.Magnitude());
      var un: int := MulMagnitude(u, v);
      size := if us < 0 then -un else un;
    }

    /** Store |u| * v and return its size. */
    method MulMagnitude(u: Mpz, v: Limb) returns (rn: nat)
      requires u.Valid() && Apart(u) && u.size != 0 && v != 0
      modifies this, d
      ensures size == old(size) && (d == old(d) || fresh(d))
      ensures 0 < rn <= d.Length && d[rn - 1] != 0
      ensures Val(d[..rn]) == old(u.Magnitude()) * v
    {
      var un := Abs(u.size);
      ghost var U := u.d[..un];
      Realloc(un + 1);
      assert u.d[..un] == U;
      rn := MulLimb(u.d, un, v);
    }

    /** Store the product of up and v, and return its size. */
    method MulLimb(up: array<Limb>, un: nat, v: Limb) returns (rn: nat)
      requires 0 < un <= up.Length && un < d.Length && up[un - 1] != 0 && v != 0
      modifies d
      ensures 0 < rn <= d.Length && d[rn - 1] != 0 && Val(d[..rn]) == old(Val(up[..un])) * v
    {
      ghost var U := up[..un];
      assert U == up[0..0 + un];
      var cy := Mpn.Mul1(d, 0, up, 0, un, v);
      ghost var S := d[..un];
      assert S == d[0..0 + un];
      StoreCarry(un, cy);
      ScaledTop(S, cy, U, v);
      rn := un + if cy > 0 then 1 else 0;
    }

    /** The product of the magnitudes, in space of its own. */
    static method MulMagnitudes(u: Mpz, v: Mpz) returns (tp: array<Limb>, rn: nat)
      requires u.Valid() && v.Valid() && u.size != 0 && v.size != 0
      ensures fresh(tp) && 0 < rn <= tp.Length && tp[rn - 1] != 0
      ensures Val(tp[..rn]) == u.Magnitude() * v.Magnitude()
    {
      var un, vn := Abs(u.size), Abs(v.size);
      tp := new Limb[un + vn](_ => 0);
      ghost var U, V := u.d[..un], v.d[..vn];
      if un >= vn {
        var _ := Mpn.Mul(tp, u.d, un, v.d, vn);
      } else {
        var _ := Mpn.Mul(tp, v.d, vn, u.d, un);
      }
      ghost var S := tp[..un + vn];
      ProductTop(S, U, V);
      rn := un + vn;
      rn := rn - (if tp[rn - 1] == 0 then 1 else 0);
      assert tp[..rn] == S[..rn];
    }
  }

  /** Two objects, with storage of their own. */
  ghost predicate Unlike(a: Mpz, b: Mpz)
    reads a, b
  {
    a != b && a.d != b.d
  }

  lemma SignedProduct(s: int, t: int, m: int, n: int)
    ensures Signed(s, m) * Signed(t, n) == if (s < 0) != (t < 0) then -(m * n) else m * n
  {
    MulSub(m, 0, n);
    MulSub(n, 0, m);
    MulSub(0 - n, 0, m);
  }

  function Signed(s: int, m: int): int {
    if s >= 0 then m else -m
  }

  /** A single limb is the value of its run; a longer run without leading zeros exceeds any limb. */
  lemma OneLimb(a: seq<Limb>)
    requires |a| > 0 && a[|a| - 1] != 0
    ensures |a| == 1 ==> Val(a) == a[0]
    ensures |a| > 1 ==> Val(a) >= B
    ensures forall b: Limb :: Val([b]) == b
  {
    if |a| == 1 {
      assert Low(a, 1) == a[0];
    } else {
      ValTopNonzero(a);
      PwMonotone(1, |a| - 1);
      assert Pw(1) == B;
    }
    forall b: Limb
      ensures Val([b]) == b
    {
      assert Low([b], 1) == b;
    }
  }

  lemma NotLonger(a: seq<Limb>, b: seq<Limb>)
    requires Val(b) < Val(a)
    requires |b| > 0 ==> b[|b| - 1] != 0
    ensures |b| <= |a|
  {
    if |a| < |b| {
      LongerIsLarger(a, b);
    }
  }

  lemma NoBorrow(s: seq<Limb>, cy: Limb, a: seq<Limb>, b: seq<Limb>)
    requires Val(s) - Pw(|s|) * cy == Val(a) - Val(b) && Val(b) <= Val(a) && cy <= 1
    ensures cy == 0
  {
    ValBound(s);
  }

  /** At most the top limb of a product is zero. */
  lemma ProductTop(s: seq<Limb>, u: seq<Limb>, v: seq<Limb>)
    requires |u| > 0 && |v| > 0 && u[|u| - 1] != 0 && v[|v| - 1] != 0
    requires |s| == |u| + |v| && Val(s) == Val(u) * Val(v)
    ensures s[|s| - 1] == 0 ==> s[|s| - 2] != 0 && Val(s[..|s| - 1]) == Val(s)
  {
    if s[|s| - 1] == 0 {
      ValTopNonzero(u);
      ValTopNonzero(v);
      PwAdd(|u| - 1, |v| - 1);
      ProductAtLeast(Pw(|u| - 1), Pw(|v| - 1), Val(u), Val(v));
      LowSlice(s, |s| - 1);
      LargeTop(s[..|s| - 1]);
    }
  }

  lemma ProductAtLeast(p: int, q: int, x: int, y: int)
    requires 0 <= p <= x && 0 <= q <= y
    ensures p * q <= x * y
  {
    MulMono(p, q, y);
    MulMono(y, p, x);
  }

  lemma SizeOrder(a: Mpz, b: Mpz)
    requires a.Valid() && b.Valid()
    ensures a.size < b.size ==> a.Value() < b.Value()
    ensures a.size > b.size ==> a.Value() > b.Value()
  {
    ValBound(a.d[..Abs(a.size)]);
    ValBound(b.d[..Abs(b.size)]);
    if a.size != 0 { ValTopNonzero(a.d[..Abs(a.size)]); }
    if b.size != 0 { ValTopNonzero(b.d[..Abs(b.size)]); }
    if Abs(a.size) < Abs(b.size) {
      LongerIsLarger(a.d[..Abs(a.size)], b.d[..Abs(b.size)]);
    } else if Abs(b.size) < Abs(a.size) {
      LongerIsLarger(b.d[..Abs(b.size)], a.d[..Abs(a.size)]);
    }
  }

  /** Without a carry, the top limb of a multiple is not zero. */
  lemma ScaledTop(s: seq<Limb>, cy: Limb, u: seq<Limb>, v: Limb)
    requires |s| == |u| > 0 && u[|u| - 1] != 0 && v > 0 && Val(s) + Pw(|s|) * cy == Val(u) * v
    ensures cy == 0 ==> s[|s| - 1] != 0
  {
    if cy == 0 {
      ValTopNonzero(u);
      MulMono(Val(u), 1, v);
      LargeTop(s);
    }
  }

  /** Without a carry, the top limb of a sum is not zero if the longer operand's is not. */
  lemma SumTop(s: seq<Limb>, cy: Limb, a: seq<Limb>, b: seq<Limb>)
    requires |s| == |a| && Val(s) + Pw(|s|) * cy == Val(a) + Val(b)
    requires |a| > 0 ==> a[|a| - 1] != 0
    ensures cy == 0 && |s| > 0 ==> s[|s| - 1] != 0
  {
    if cy == 0 && |s| > 0 {
      ValTopNonzero(a);
      ValBound(b);
      LargeTop(s);
    }
  }
}
