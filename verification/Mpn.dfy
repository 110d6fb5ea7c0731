/**
 Natural numbers as runs of limbs inside arrays. A pointer of the C code is an array
 with an offset; each routine states the integer its result denotes, what it leaves
 alone, and which overlaps of its operands it tolerates.
 */
module Mpn {
  import opened Arith
  import opened Powers
  import opened Limbs
  import opened Words
  import opened Bits

  /** Only rp[ro..ro+n] differs from its earlier contents. */
  twostate predicate OnlyChanges<T>(rp: array<T>, ro: nat, n: nat)
    reads rp
  {
    forall j :: (0 <= j < ro || ro + n <= j) && j < rp.Length ==> rp[j] == old(rp[j])
  }

  /** An ascending loop may write rp while reading up when it never writes ahead of its reads. */
  predicate Ascending(rp: array<Limb>, ro: nat, up: array<Limb>, uo: nat) {
    rp != up || ro <= uo
  }

  /** A descending loop, when it never writes behind them. */
  predicate Descending(rp: array<Limb>, ro: nat, up: array<Limb>, uo: nat) {
    rp != up || ro >= uo
  }

  // ---- one column of a carry loop ----

  /** Splitting a column sum into its limb and its carry, at weight p. */
  lemma Column(p: int, r: int, c: int, t: int)
    requires r + B * c == t
    ensures p * r + B * p * c == p * t
  {
    MulAssoc(B, p, c);
    MulAssoc(p, B, c);
    MulDist(p, r, B * c);
  }

  lemma AddColumn(p: int, p': int, c: int, r: int, c': int, x: int, y: int)
    requires r + B * c' == x + y + c && p' == B * p
    ensures p * r + p' * c' == p * c + p * x + p * y
  {
    Column(p, r, c', x + y + c);
    MulDist(p, x + y, c);
    MulDist(p, x, y);
  }

  /** Appending the limb of a column: `c` is the (signed) carry in, `c'` the carry out, `x + y` the column. */
  lemma SnocColumn(s: seq<Limb>, c: int, r: Limb, c': int, x: int, y: int)
    requires r + B * c' == x + y + c
    ensures Val(s + [r]) + Pw(|s| + 1) * c' == Val(s) + Pw(|s|) * c + Pw(|s|) * x + Pw(|s|) * y
  {
    ValSnoc(s, r);
    AddColumn(Pw(|s|), Pw(|s| + 1), c, r, c', x, y);
  }

  /** The same with a product in the column. */
  lemma SnocProduct(s: seq<Limb>, c: int, r: Limb, c': int, x: int, u: Limb, v: int, a: seq<Limb>)
    requires |s| < |a| && u == a[|s|]
    requires r + B * c' == x + u * v + c
    ensures Val(s + [r]) + Pw(|s| + 1) * c'
         == Val(s) + Pw(|s|) * c + Pw(|s|) * x + (Low(a, |s| + 1) * v - Low(a, |s|) * v)
  {
    SnocColumn(s, c, r, c', x, u * v);
    ProductColumn(Pw(|s|), u, v, Low(a, |s|), Low(a, |s| + 1));
  }

  // ---- comparison and size ----

  /** The sign of ap - bp. */
  method Cmp(ap: array<Limb>, ao: nat, bp: array<Limb>, bo: nat, n: nat) returns (c: int)
    requires ao + n <= ap.Length && bo + n <= bp.Length
    ensures c == Sign(Val(ap[ao..ao + n]) - Val(bp[bo..bo + n]))
  {
    ghost var A, C := ap[ao..ao + n], bp[bo..bo + n];
    var k: int := n;
    while k > 0
      invariant 0 <= k <= n
      invariant Val(A) - Val(C) == Low(A, k) - Low(C, k)
    {
      k := k - 1;
      if ap[ao + k] != bp[bo + k] {
        TopDecides(A, C, k);
        return if ap[ao + k] > bp[bo + k] then 1 else -1;
      }
    }
    c := 0;
  }

  function Sign(x: int): int {
    if x > 0 then 1 else if x < 0 then -1 else 0
  }

  lemma TopDecides(a: seq<Limb>, c: seq<Limb>, k: nat)
    requires k < |a| && k < |c| && a[k] != c[k]
    ensures Sign(Low(a, k + 1) - Low(c, k + 1)) == if a[k] > c[k] then 1 else -1
  {
    LowBound(a, k);
    LowBound(c, k);
    if a[k] > c[k] {
      MulMono(Pw(k), c[k] + 1, a[k]);
      MulDist(Pw(k), c[k], 1);
    } else {
      MulMono(Pw(k), a[k] + 1, c[k]);
      MulDist(Pw(k), a[k], 1);
    }
  }

  /** The sign of ap - bp when neither has a leading zero limb. */
  method Cmp4(ap: array<Limb>, an: nat, bp: array<Limb>, bn: nat) returns (c: int)
    requires an <= ap.Length && bn <= bp.Length
    requires an > 0 ==> ap[an - 1] != 0
    requires bn > 0 ==> bp[bn - 1] != 0
    ensures c == Sign(Val(ap[..an]) - Val(bp[..bn]))
  {
    if an != bn {
      if an < bn {
        LongerIsLarger(ap[..an], bp[..bn]);
      } else {
        LongerIsLarger(bp[..bn], ap[..an]);
      }
      c := if an < bn then -1 else 1;
    } else {
      c := Cmp(ap, 0, bp, 0, an);
    }
  }

  lemma LongerIsLarger(a: seq<Limb>, c: seq<Limb>)
    requires |a| < |c| && c[|c| - 1] != 0
    ensures Val(a) < Val(c)
  {
    ValBound(a);
    PwMonotone(|a|, |c| - 1);
    ValTopNonzero(c);
  }

  /** The length without leading zero limbs. */
  method NormalizedSize(xp: array<Limb>, n0: nat) returns (n: nat)
    requires n0 <= xp.Length
    ensures n <= n0 && (n > 0 ==> xp[n - 1] != 0)
    ensures forall j :: n <= j < n0 ==> xp[j] == 0
    ensures Val(xp[..n]) == Val(xp[..n0])
  {
    n := n0;
    while n > 0 && xp[n - 1] == 0
      invariant n <= n0
      invariant forall j :: n <= j < n0 ==> xp[j] == 0
      invariant Val(xp[..n]) == Val(xp[..n0])
    {
      n := n - 1;
      LowAgree(xp[..n], xp[..n + 1], n);
    }
  }

  // ---- copying ----

  method Copyi(d: array<Limb>, dof: nat, s: array<Limb>, so: nat, n: nat)
    requires dof + n <= d.Length && so + n <= s.Length && Ascending(d, dof, s, so)
    modifies d
    ensures d[dof..dof + n] == old(s[so..so + n])
    ensures OnlyChanges(d, dof, n)
  {
    ghost var S := s[so..so + n];
    for i := 0 to n
      invariant forall j :: 0 <= j < i ==> d[dof + j] == S[j]
      invariant forall j :: i <= j < n ==> s[so + j] == S[j]
      invariant OnlyChanges(d, dof, n)
    {
      d[dof + i] := s[so + i];
    }
  }

  method Copyd(d: array<Limb>, dof: nat, s: array<Limb>, so: nat, n: nat)
    requires dof + n <= d.Length && so + n <= s.Length && Descending(d, dof, s, so)
    modifies d
    ensures d[dof..dof + n] == old(s[so..so + n])
    ensures OnlyChanges(d, dof, n)
  {
    ghost var S := s[so..so + n];
    for i := n downto 0
      invariant forall j :: i <= j < n ==> d[dof + j] == S[j]
      invariant forall j :: 0 <= j < i ==> s[so + j] == S[j]
      invariant OnlyChanges(d, dof, n)
    {
      d[dof + i] := s[so + i];
    }
  }

  method Zero(rp: array<Limb>, n: nat)
    requires n <= rp.Length
    modifies rp
    ensures forall j :: 0 <= j < n ==> rp[j] == 0
    ensures OnlyChanges(rp, 0, n)
  {
    for i := n downto 0
      invariant forall j :: i <= j < n ==> rp[j] == 0
      invariant OnlyChanges(rp, 0, n)
    {
      rp[i] := 0;
    }
  }

  // ---- addition and subtraction ----

  /** rp = ap + b on n limbs; returns the carry. */
  method Add1(rp: array<Limb>, ro: nat, ap: array<Limb>, ao: nat, n: nat, b0: Limb) returns (b: Limb)
    requires 0 < n && ro + n <= rp.Length && ao + n <= ap.Length && Ascending(rp, ro, ap, ao)
    modifies rp
    ensures b <= 1 || n == 0
    ensures Val(rp[ro..ro + n]) + Pw(n) * b == old(Val(ap[ao..ao + n])) + b0
    ensures OnlyChanges(rp, ro, n)
  {
    ghost var A, S := ap[ao..ao + n], [];
    b := b0;
    for i := 0 to n
      invariant i > 0 ==> b <= 1
      invariant forall j :: i <= j < n ==> ap[ao + j] == A[j]
      invariant |S| == i && forall j :: 0 <= j < i ==> rp[ro + j] == S[j]
      invariant Val(S) + Pw(i) * b == Low(A, i) + b0
      invariant OnlyChanges(rp, ro, n)
    {
      ghost var cin := b;
      var r := AddW(ap[ao + i], b);
      b := if r < b then 1 else 0;
      rp[ro + i] := r;
      SnocColumn(S, cin, r, b, A[i], 0);
      S := S + [r];
    }
    assert rp[ro..ro + n] == S;
  }

  /** Two limbs and a carry: the wrapped sum, and the carry out. */
  method AddLimbs(a: Limb, b: Limb, cin: Limb) returns (r: Limb, cy: Limb)
    requires cin <= 1
    ensures cy <= 1 && r + B * cy == a + b + cin
  {
    r := AddW(a, cin);
    cy := if r < cin then 1 else 0;
    r := AddW(r, b);
    cy := cy + (if r < b then 1 else 0);
  }

  /** rp = ap + bp on n limbs; returns the carry. */
  method AddN(rp: array<Limb>, ro: nat, ap: array<Limb>, ao: nat, bp: array<Limb>, bo: nat, n: nat)
    returns (cy: Limb)
    requires ro + n <= rp.Length && ao + n <= ap.Length && bo + n <= bp.Length
    requires Ascending(rp, ro, ap, ao) && Ascending(rp, ro, bp, bo)
    modifies rp
    ensures cy <= 1
    ensures Val(rp[ro..ro + n]) + Pw(n) * cy == old(Val(ap[ao..ao + n])) + old(Val(bp[bo..bo + n]))
    ensures OnlyChanges(rp, ro, n)
  {
    ghost var A, C, S := ap[ao..ao + n], bp[bo..bo + n], [];
    cy := 0;
    for i := 0 to n
      invariant cy <= 1
      invariant forall j :: i <= j < n ==> ap[ao + j] == A[j]
      invariant forall j :: i <= j < n ==> bp[bo + j] == C[j]
      invariant |S| == i && forall j :: 0 <= j < i ==> rp[ro + j] == S[j]
      invariant Val(S) + Pw(i) * cy == Low(A, i) + Low(C, i)
      invariant OnlyChanges(rp, ro, n)
    {
      ghost var cin := cy;
      var r;
      r, cy := AddLimbs(ap[ao + i], bp[bo + i], cy);
      rp[ro + i] := r;
      SnocColumn(S, cin, r, cy, A[i], C[i]);
      S := S + [r];
    }
    assert rp[ro..ro + n] == S;
  }

  /** rp = ap - b on n limbs; returns the borrow. */
  method Sub1(rp: array<Limb>, ro: nat, ap: array<Limb>, ao: nat, n: nat, b0: Limb) returns (b: Limb)
    requires 0 < n && ro + n <= rp.Length && ao + n <= ap.Length && Ascending(rp, ro, ap, ao)
    modifies rp
    ensures b <= 1
    ensures Val(rp[ro..ro + n]) - Pw(n) * b == old(Val(ap[ao..ao + n])) - b0
    ensures OnlyChanges(rp, ro, n)
  {
    ghost var A, S := ap[ao..ao + n], [];
    b := b0;
    for i := 0 to n
      invariant i > 0 ==> b <= 1
      invariant forall j :: i <= j < n ==> ap[ao + j] == A[j]
      invariant |S| == i && forall j :: 0 <= j < i ==> rp[ro + j] == S[j]
      invariant Val(S) - Pw(i) * b == Low(A, i) - b0
      invariant OnlyChanges(rp, ro, n)
    {
      ghost var cin: int := b;
      var a := ap[ao + i];
      var cy := if a < b then 1 else 0;
      var r := SubW(a, b);
      rp[ro + i] := r;
      b := cy;
      BorrowColumn(S, cin, r, cy, A[i], 0);
      S := S + [r];
    }
    assert rp[ro..ro + n] == S;
  }

  /** Appending the limb of a column of a difference: `c` is the borrow in, `c'` the borrow out. */
  lemma BorrowColumn(s: seq<Limb>, c: int, r: Limb, c': int, x: int, y: int)
    requires r - B * c' == x - y - c
    ensures Val(s + [r]) - Pw(|s| + 1) * c' == Val(s) - Pw(|s|) * c + Pw(|s|) * x - Pw(|s|) * y
  {
    ValSnoc(s, r);
    SubColumn(Pw(|s|), Pw(|s| + 1), c, r, c', x, y);
  }

  lemma SubColumn(p: int, p': int, c: int, r: int, c': int, x: int, y: int)
    requires r - B * c' == x - y - c && p' == B * p
    ensures p * r - p' * c' == p * x - p * y - p * c
  {
    Column(p, r, 0 - c', x - y - c);
    MulSub(p', 0, c');
    MulSub(p, x - y, c);
    MulSub(p, x, y);
  }

  /** rp = ap - bp on n limbs; returns the borrow. */
  method SubN(rp: array<Limb>, ro: nat, ap: array<Limb>, ao: nat, bp: array<Limb>, bo: nat, n: nat)
    returns (cy: Limb)
    requires ro + n <= rp.Length && ao + n <= ap.Length && bo + n <= bp.Length
    requires Ascending(rp, ro, ap, ao) && Ascending(rp, ro, bp, bo)
    modifies rp
    ensures cy <= 1
    ensures Val(rp[ro..ro + n]) - Pw(n) * cy == old(Val(ap[ao..ao + n])) - old(Val(bp[bo..bo + n]))
    ensures OnlyChanges(rp, ro, n)
  {
    ghost var A, C, S := ap[ao..ao + n], bp[bo..bo + n], [];
    cy := 0;
    for i := 0 to n
      invariant cy <= 1
      invariant forall j :: i <= j < n ==> ap[ao + j] == A[j]
      invariant forall j :: i <= j < n ==> bp[bo + j] == C[j]
      invariant |S| == i && forall j :: 0 <= j < i ==> rp[ro + j] == S[j]
      invariant Val(S) - Pw(i) * cy == Low(A, i) - Low(C, i)
      invariant OnlyChanges(rp, ro, n)
    {
      ghost var cin: int := cy;
      var a, b := ap[ao + i], bp[bo + i];
      b := AddW(b, cy);
      cy := if b < cy then 1 else 0;
      cy := cy + (if a < b then 1 else 0);
      var r := SubW(a, b);
      rp[ro + i] := r;
      BorrowColumn(S, cin, r, cy, A[i], C[i]);
      S := S + [r];
    }
    assert rp[ro..ro + n] == S;
  }

  // ---- multiplication ----

  /** rp = up * v on n limbs; returns the high limb. */
  method Mul1(rp: array<Limb>, ro: nat, up: array<Limb>, uo: nat, n: nat, vl: Limb) returns (cl: Limb)
    requires ro + n <= rp.Length && uo + n <= up.Length && Ascending(rp, ro, up, uo)
    modifies rp
    ensures Val(rp[ro..ro + n]) + Pw(n) * cl == old(Val(up[uo..uo + n])) * vl
    ensures OnlyChanges(rp, ro, n)
  {
    ghost var U, S := up[uo..uo + n], [];
    cl := 0;
    for i := 0 to n
      invariant forall j :: i <= j < n ==> up[uo + j] == U[j]
      invariant |S| == i && forall j :: 0 <= j < i ==> rp[ro + j] == S[j]
      invariant Val(S) + Pw(i) * cl == Low(U, i) * vl
      invariant OnlyChanges(rp, ro, n)
    {
      ghost var cin := cl;
      var ul := up[uo + i];
      var hpl, lpl := UmulPpmm(ul, vl);
      MulAddFits(ul, vl, hpl, lpl, cl, 0);
      lpl := AddW(lpl, cl);
      cl := (if lpl < cl then 1 else 0) + hpl;
      rp[ro + i] := lpl;
      SnocProduct(S, cin, lpl, cl, 0, ul, vl, U);
      S := S + [lpl];
    }
    assert rp[ro..ro + n] == S;
  }

  /** A product of limbs leaves room for two more limbs in the double word. */
  lemma MulAddFits(u: Limb, v: Limb, h: Limb, l: Limb, c: Limb, r: Limb)
    requires h * B + l == u * v
    ensures h * B + l + c + r < BB
    ensures h * B + l + c <= B * (B - 1)
  {
    ProductBound(u, v, B);
  }

  /** rp += up * v on n limbs; returns the high limb. */
  method AddMul1(rp: array<Limb>, ro: nat, up: array<Limb>, uo: nat, n: nat, vl: Limb) returns (cl: Limb)
    requires ro + n <= rp.Length && uo + n <= up.Length && Ascending(rp, ro, up, uo)
    modifies rp
    ensures Val(rp[ro..ro + n]) + Pw(n) * cl == old(Val(rp[ro..ro + n])) + old(Val(up[uo..uo + n])) * vl
    ensures OnlyChanges(rp, ro, n)
  {
    ghost var U, R, S := up[uo..uo + n], rp[ro..ro + n], [];
    cl := 0;
    for i := 0 to n
      invariant forall j :: i <= j < n ==> up[uo + j] == U[j]
      invariant forall j :: i <= j < n ==> rp[ro + j] == R[j]
      invariant |S| == i && forall j :: 0 <= j < i ==> rp[ro + j] == S[j]
      invariant Val(S) + Pw(i) * cl == Low(R, i) + Low(U, i) * vl
      invariant OnlyChanges(rp, ro, n)
    {
      ghost var cin := cl;
      var ul := up[uo + i];
      var hpl, lpl := UmulPpmm(ul, vl);
      var rl := rp[ro + i];
      MulAddFits(ul, vl, hpl, lpl, cl, rl);
      lpl := AddW(lpl, cl);
      cl := (if lpl < cl then 1 else 0) + hpl;
      lpl := AddW(rl, lpl);
      cl := cl + (if lpl < rl then 1 else 0);
      rp[ro + i] := lpl;
      SnocProduct(S, cin, lpl, cl, R[i], ul, vl, U);
      S := S + [lpl];
    }
    assert rp[ro..ro + n] == S;
  }

  /** rp -= up * v on n limbs; returns the borrow limb. */
  method SubMul1(rp: array<Limb>, ro: nat, up: array<Limb>, uo: nat, n: nat, vl: Limb) returns (cl: Limb)
    requires ro + n <= rp.Length && uo + n <= up.Length && Ascending(rp, ro, up, uo)
    modifies rp
    ensures Val(rp[ro..ro + n]) - Pw(n) * cl == old(Val(rp[ro..ro + n])) - old(Val(up[uo..uo + n])) * vl
    ensures OnlyChanges(rp, ro, n)
  {
    ghost var U, R, S := up[uo..uo + n], rp[ro..ro + n], [];
    cl := 0;
    for i := 0 to n
      invariant forall j :: i <= j < n ==> up[uo + j] == U[j]
      invariant forall j :: i <= j < n ==> rp[ro + j] == R[j]
      invariant |S| == i && forall j :: 0 <= j < i ==> rp[ro + j] == S[j]
      invariant Val(S) - Pw(i) * cl == Low(R, i) - Low(U, i) * vl
      invariant OnlyChanges(rp, ro, n)
    {
      ghost var cin: int := cl;
      var ul := up[uo + i];
      var hpl, lpl := UmulPpmm(ul, vl);
      MulAddFits(ul, vl, hpl, lpl, cl, 0);
      lpl := AddW(lpl, cl);
      cl := (if lpl < cl then 1 else 0) + hpl;
      var rl := rp[ro + i];
      lpl := SubW(rl, lpl);
      cl := cl + (if lpl > rl then 1 else 0);
      rp[ro + i] := lpl;
      SubProduct(S, cin, lpl, cl, R[i], ul, vl, U);
      S := S + [lpl];
    }
    assert rp[ro..ro + n] == S;
  }

  lemma SubProduct(s: seq<Limb>, c: int, r: Limb, c': int, x: int, u: Limb, v: int, a: seq<Limb>)
    requires |s| < |a| && u == a[|s|]
    requires r - B * c' == x - u * v - c
    ensures Val(s + [r]) - Pw(|s| + 1) * c'
         == Val(s) - Pw(|s|) * c + Pw(|s|) * x - (Low(a, |s| + 1) * v - Low(a, |s|) * v)
  {
    BorrowColumn(s, c, r, c', x, u * v);
    ProductColumn(Pw(|s|), u, v, Low(a, |s|), Low(a, |s| + 1));
  }

  lemma ProductColumn(p: int, u: int, v: int, lo: int, lo': int)
    requires lo' == lo + p * u
    ensures p * (u * v) == lo' * v - lo * v
  {
    MulAssoc(p, u, v);
    MulDist(v, lo, p * u);
  }

  // ---- operands of different lengths ----

  /** Gluing the results for the low m limbs and the limbs above them. */
  lemma GlueParts(s: seq<Limb>, a: seq<Limb>, m: nat, mid: int, top: int, x: int)
    requires m <= |s| == |a|
    requires Val(s[..m]) + Pw(m) * mid == Val(a[..m]) + x
    requires Val(s[m..]) + Pw(|s| - m) * top == Val(a[m..]) + mid
    ensures Val(s) + Pw(|s|) * top == Val(a) + x
  {
    ValSplit(s, m);
    ValSplit(a, m);
    PwAdd(m, |s| - m);
    MulAssoc(Pw(m), Pw(|s| - m), top);
    MulDist(Pw(m), Val(s[m..]), Pw(|s| - m) * top);
    MulDist(Pw(m), Val(a[m..]), mid);
  }

  /** rp = ap + bp, where ap is at least as long; returns the carry. */
  method Add(rp: array<Limb>, ap: array<Limb>, an: nat, bp: array<Limb>, bn: nat) returns (cy: Limb)
    requires bn <= an && an <= rp.Length && an <= ap.Length && bn <= bp.Length
    modifies rp
    ensures cy <= 1
    ensures Val(rp[..an]) + Pw(an) * cy == old(Val(ap[..an])) + old(Val(bp[..bn]))
    ensures OnlyChanges(rp, 0, an)
  {
    ghost var A, C := ap[..an], bp[..bn];
    cy := AddN(rp, 0, ap, 0, bp, 0, bn);
    ghost var mid := cy;
    assert A[..bn] == old(ap[0..bn]) && C == old(bp[0..bn]);
    assert Val(rp[..bn]) + Pw(bn) * mid == Val(A[..bn]) + Val(C) by { assert rp[..bn] == rp[0..bn]; }
    label low:
    if an > bn {
      assert forall j :: bn <= j < an ==> ap[j] == A[j];
      assert ap[bn..bn + (an - bn)] == A[bn..];
      cy := Add1(rp, bn, ap, bn, an - bn, cy);
      assert rp[..bn] == old@low(rp[..bn]);
      assert rp[bn..bn + (an - bn)] == rp[..an][bn..];
    }
    ghost var S := rp[..an];
    assert S[..bn] == rp[..bn];
    GlueParts(S, A, bn, mid, cy, Val(C));
  }

  /** rp = ap - bp, where ap is at least as long; returns the borrow. */
  method Sub(rp: array<Limb>, ap: array<Limb>, an: nat, bp: array<Limb>, bn: nat) returns (cy: Limb)
    requires bn <= an && an <= rp.Length && an <= ap.Length && bn <= bp.Length
    modifies rp
    ensures cy <= 1
    ensures Val(rp[..an]) - Pw(an) * cy == old(Val(ap[..an])) - old(Val(bp[..bn]))
    ensures OnlyChanges(rp, 0, an)
  {
    ghost var A, C := ap[..an], bp[..bn];
    cy := SubN(rp, 0, ap, 0, bp, 0, bn);
    ghost var mid: int := cy;
    assert A[..bn] == old(ap[0..bn]) && C == old(bp[0..bn]);
    assert Val(rp[..bn]) - Pw(bn) * mid == Val(A[..bn]) - Val(C) by { assert rp[..bn] == rp[0..bn]; }
    label low:
    if an > bn {
      assert forall j :: bn <= j < an ==> ap[j] == A[j];
      assert ap[bn..bn + (an - bn)] == A[bn..];
      cy := Sub1(rp, bn, ap, bn, an - bn, cy);
      assert rp[..bn] == old@low(rp[..bn]);
      assert rp[bn..bn + (an - bn)] == rp[..an][bn..];
    }
    ghost var S := rp[..an];
    assert S[..bn] == rp[..bn];
    GlueBorrow(S, A, bn, mid, cy, Val(C));
  }

  /** The same for differences. */
  lemma GlueBorrow(s: seq<Limb>, a: seq<Limb>, m: nat, mid: int, top: int, x: int)
    requires m <= |s| == |a|
    requires Val(s[..m]) - Pw(m) * mid == Val(a[..m]) - x
    requires Val(s[m..]) - Pw(|s| - m) * top == Val(a[m..]) - mid
    ensures Val(s) - Pw(|s|) * top == Val(a) - x
  {
    MulSub(Pw(m), 0, mid);
    MulSub(Pw(|s| - m), 0, top);
    MulSub(Pw(|s|), 0, top);
    GlueParts(s, a, m, -mid, -top, -x);
  }

  /** rp = up * vp on un + vn limbs, in space of its own; returns the top limb. */
  method Mul(rp: array<Limb>, up: array<Limb>, un: nat, vp: array<Limb>, vn: nat) returns (top: Limb)
    requires 1 <= vn <= un && un + vn <= rp.Length && un <= up.Length && vn <= vp.Length
    requires rp != up && rp != vp
    modifies rp
    ensures Val(rp[..un + vn]) == Val(up[..un]) * Val(vp[..vn])
    ensures top == rp[un + vn - 1]
    ensures OnlyChanges(rp, 0, un + vn)
  {
    ghost var U, V := up[..un], vp[..vn];
    assert up[0..un] == U;
    top := Mul1(rp, 0, up, 0, un, vp[0]);
    FirstRow(rp[0..un], top, Val(U), V);
    ghost var R := rp[0..un] + [top];
    rp[un] := top;
    assert rp[..un + 1] == R;
    for j := 1 to vn
      invariant rp[..un + j] == R
      invariant Val(R) == Val(U) * Low(V, j)
      invariant top == rp[un + j - 1]
      invariant OnlyChanges(rp, 0, un + j)
    {
      top := AddRow(rp, up, un, vp[j], j, R, U, V);
      R := rp[..un + j + 1];
    }
  }

  /** One row of the product, added at limb j. */
  method AddRow(rp: array<Limb>, up: array<Limb>, un: nat, vl: Limb, j: nat,
                ghost r: seq<Limb>, ghost u: seq<Limb>, ghost v: seq<Limb>) returns (top: Limb)
    requires rp != up && un + j < rp.Length && un <= up.Length && r == rp[..un + j] && u == up[..un]
    requires j < |v| && vl == v[j] && Val(r) == Val(u) * Low(v, j)
    modifies rp
    ensures Val(rp[..un + j + 1]) == Val(u) * Low(v, j + 1) && top == rp[un + j]
    ensures OnlyChanges(rp, 0, un + j + 1)
  {
    assert rp[j..j + un] == r[j..] && up[0..0 + un] == u;
    top := AddMul1(rp, j, up, 0, un, vl);
    rp[un + j] := top;
    ghost var r' := rp[..un + j + 1];
    assert r'[..j] == r[..j];
    assert r'[j..j + un] == rp[j..j + un];
    MulRow(r, r', j, un, Val(u), v);
  }

  lemma FirstRow(s: seq<Limb>, top: Limb, u: int, v: seq<Limb>)
    requires |v| > 0 && Val(s) + Pw(|s|) * top == u * v[0]
    ensures Val(s + [top]) == u * Low(v, 1)
  {
    ValSnoc(s, top);
    assert Low(v, 1) == v[0];
  }

  /** One row of the schoolbook product. */
  lemma MulRow(r: seq<Limb>, r': seq<Limb>, j: nat, un: nat, u: int, v: seq<Limb>)
    requires |r| == un + j && |r'| == un + j + 1 && r'[..j] == r[..j] && j < |v|
    requires Val(r) == u * Low(v, j)
    requires Val(r'[j..j + un]) + Pw(un) * r'[un + j] == Val(r[j..]) + u * v[j]
    ensures Val(r') == u * Low(v, j + 1)
  {
    ValSplit(r, j);
    ValSplit(r', j);
    assert r'[j..] == r'[j..j + un] + [r'[un + j]];
    ValSnoc(r'[j..j + un], r'[un + j]);
    RowSum(Pw(j), Val(r[j..]), Val(r'[j..]), u, v[j], Low(v, j), Low(v, j + 1));
  }

  lemma RowSum(p: int, high: int, high': int, u: int, v: int, lo: int, lo': int)
    requires high' == high + u * v && lo' == lo + p * v
    ensures p * high' == p * high + u * lo' - u * lo
  {
    MulDist(p, high, u * v);
    MulAssoc(p, u, v);
    MulAssoc(u, p, v);
    MulDist(u, lo, p * v);
  }

  // ---- shifts ----

  /** Limb j of u << cnt, before the part shifted out at the top. */
  function LimbUp(u: seq<Limb>, j: nat, cnt: nat): Limb
    requires j < |u| && cnt <= LIMB_BITS
  {
    OrFits(u[j], if j == 0 then 0 else u[j - 1], cnt);
    if j == 0 then ShlW(u[0], cnt) else BitOr(ShlW(u[j], cnt), Shr(u[j - 1], LIMB_BITS - cnt))
  }

  ghost predicate IsShiftUp(s: seq<Limb>, u: seq<Limb>, cnt: nat)
    requires cnt <= LIMB_BITS
  {
    |s| == |u| && forall j :: 0 <= j < |u| ==> s[j] == LimbUp(u, j, cnt)
  }

  /** Limb j of u >> cnt. */
  function LimbDown(u: seq<Limb>, j: nat, cnt: nat): Limb
    requires j < |u| && cnt <= LIMB_BITS
  {
    OrFits(if j + 1 == |u| then 0 else u[j + 1], u[j], LIMB_BITS - cnt);
    if j + 1 == |u| then Shr(u[j], cnt) else BitOr(ShlW(u[j + 1], LIMB_BITS - cnt), Shr(u[j], cnt))
  }

  /** The two parts that a shift combines in one limb do not meet. */
  lemma OrFits(high: Limb, low: Limb, cnt: nat)
    requires cnt <= LIMB_BITS
    ensures BitOr(ShlW(high, cnt), Shr(low, LIMB_BITS - cnt)) == ShlW(high, cnt) + Shr(low, LIMB_BITS - cnt) < B
  {
    ShlParts(high, cnt);
    ShlParts(low, cnt);
    OrDisjoint(ShlW(high, cnt), Shr(low, LIMB_BITS - cnt), cnt);
  }

  /**
   The value of a run whose limbs are those of u, each scaled by c and passing its
   high part hi[j] on to the next limb.
   */
  lemma {:induction false} UpValue(s: seq<Limb>, u: seq<Limb>, hi: seq<int>, lo: seq<int>, k: nat, c: int)
    requires k <= |s| && k <= |u| && |hi| == |lo| == |u|
    requires forall j :: 0 <= j < k ==> u[j] * c == hi[j] * B + lo[j]
    requires forall j :: 0 <= j < k ==> s[j] == lo[j] + (if j == 0 then 0 else hi[j - 1])
    ensures Low(s, k) + Pw(k) * (if k == 0 then 0 else hi[k - 1]) == c * Low(u, k)
  {
    if k > 0 {
      UpValue(s, u, hi, lo, k - 1, c);
      var carry := if k == 1 then 0 else hi[k - 2];
      UpColumn(c, Pw(k - 1), Pw(k), u[k - 1], s[k - 1], lo[k - 1], carry, hi[k - 1], Low(u, k - 1), Low(u, k));
    }
  }

  lemma LimbUpParts(u: seq<Limb>, j: nat, cnt: nat)
    requires j < |u| && cnt <= LIMB_BITS
    ensures u[j] * Pow2(cnt) == Shr(u[j], LIMB_BITS - cnt) * B + ShlW(u[j], cnt)
    ensures LimbUp(u, j, cnt) == ShlW(u[j], cnt) + (if j == 0 then 0 else Shr(u[j - 1], LIMB_BITS - cnt))
  {
    ShlParts(u[j], cnt);
    OrFits(u[j], if j == 0 then 0 else u[j - 1], cnt);
  }

  lemma UpRun(s: seq<Limb>, u: seq<Limb>, cnt: nat)
    requires cnt <= LIMB_BITS && 0 < |u| && IsShiftUp(s, u, cnt)
    ensures Val(s) + Pw(|u|) * Shr(u[|u| - 1], LIMB_BITS - cnt) == Pow2(cnt) * Val(u)
  {
    var hi, lo := UpHigh(u, cnt), UpLow(u, cnt);
    UpHighLow(u, cnt);
    UpSums(s, u, cnt);
    UpValue(s, u, hi, lo, |u|, Pow2(cnt));
  }

  function UpHigh(u: seq<Limb>, cnt: nat): seq<int>
    requires cnt <= LIMB_BITS
  {
    seq(|u|, j requires 0 <= j < |u| => Shr(u[j], LIMB_BITS - cnt))
  }

  function UpLow(u: seq<Limb>, cnt: nat): seq<int> {
    seq(|u|, j requires 0 <= j < |u| => ShlW(u[j], cnt))
  }

  lemma UpSums(s: seq<Limb>, u: seq<Limb>, cnt: nat)
    requires cnt <= LIMB_BITS && IsShiftUp(s, u, cnt)
    ensures forall j :: 0 <= j < |u| ==> s[j] == UpLow(u, cnt)[j] + (if j == 0 then 0 else UpHigh(u, cnt)[j - 1])
  {
    forall j | 0 <= j < |u|
      ensures s[j] == UpLow(u, cnt)[j] + (if j == 0 then 0 else UpHigh(u, cnt)[j - 1])
    {
      LimbUpParts(u, j, cnt);
    }
  }

  lemma UpHighLow(u: seq<Limb>, cnt: nat)
    requires cnt <= LIMB_BITS
    ensures forall j :: 0 <= j < |u| ==> u[j] * Pow2(cnt) == UpHigh(u, cnt)[j] * B + UpLow(u, cnt)[j]
  {
    forall j | 0 <= j < |u|
      ensures u[j] * Pow2(cnt) == UpHigh(u, cnt)[j] * B + UpLow(u, cnt)[j]
    {
      LimbUpParts(u, j, cnt);
    }
  }

  lemma UpColumn(c: int, p: int, p': int, u: int, x: int, lo: int, carry: int, hi: int, below: int, below': int)
    requires u * c == hi * B + lo && x == lo + carry && p' == B * p && below' == below + p * u
    ensures p * x + p' * hi == c * below' - c * below + p * carry
  {
    Column(p, lo, hi, u * c);
    MulDist(p, lo, carry);
    MulDist(c, below, p * u);
    MulAssoc(p, u, c);
    MulAssoc(c, p, u);
  }

  /** rp = up << cnt on n limbs; returns the bits shifted out. */
  method LShift(rp: array<Limb>, ro: nat, up: array<Limb>, uo: nat, n: nat, cnt: nat) returns (retval: Limb)
    requires 1 <= n && 1 <= cnt < LIMB_BITS
    requires ro + n <= rp.Length && uo + n <= up.Length && Descending(rp, ro, up, uo)
    modifies rp
    ensures Val(rp[ro..ro + n]) + Pw(n) * retval == Pow2(cnt) * old(Val(up[uo..uo + n]))
    ensures retval < Pow2(cnt)
    ensures IsShiftUp(rp[ro..ro + n], old(up[uo..uo + n]), cnt)
    ensures OnlyChanges(rp, ro, n)
  {
    ghost var U := up[uo..uo + n];
    var tnc := LIMB_BITS - cnt;
    var low := up[uo + n - 1];
    ShlParts(low, cnt);
    retval := Shr(low, tnc);
    var high := ShlW(low, cnt);
    for k := n - 1 downto 0
      invariant forall j :: k < j < n ==> rp[ro + j] == LimbUp(U, j, cnt)
      invariant forall j :: 0 <= j < k ==> up[uo + j] == U[j]
      invariant high == ShlW(U[k], cnt)
      invariant OnlyChanges(rp, ro, n)
    {
      low := up[uo + k];
      OrFits(U[k + 1], low, cnt);
      rp[ro + k + 1] := BitOr(high, Shr(low, tnc));
      high := ShlW(low, cnt);
    }
    rp[ro] := high;
    UpRun(rp[ro..ro + n], U, cnt);
  }

  /**
   The value of a run that is u divided by c, with c * t == B: limb j keeps the quotient
   hi[j] of its own limb and takes the remainder lo[j + 1] of the next.
   */
  lemma {:induction false} DownValue(s: seq<Limb>, u: seq<Limb>, hi: seq<int>, lo: seq<int>,
                                         k: nat, c: int, t: int, w: int)
    requires k < |u| && k <= |s| && |hi| == |lo| == |u| && c * t == B
    requires forall j :: 0 <= j <= k ==> u[j] == hi[j] * c + lo[j]
    requires forall j :: 0 <= j < k ==> s[j] == lo[j + 1] * t + hi[j]
    requires w == Low(s, k) + Pw(k) * hi[k]
    ensures c * w + lo[0] == Low(u, k + 1)
  {
    if k == 0 {
      assert Low(u, 1) == u[0];
    } else {
      var w' := Low(s, k - 1) + Pw(k - 1) * hi[k - 1];
      DownValue(s, u, hi, lo, k - 1, c, t, w');
      DownColumn(c, t, Pw(k - 1), Pw(k), Low(s, k - 1), Low(s, k), s[k - 1], hi[k - 1], lo[k], hi[k], u[k], w', w);
    }
  }

  lemma LimbDownParts(u: seq<Limb>, j: nat, cnt: nat)
    requires j < |u| && cnt <= LIMB_BITS
    ensures u[j] == Shr(u[j], cnt) * Pow2(cnt) + u[j] % Pow2(cnt)
    ensures j + 1 < |u| ==> LimbDown(u, j, cnt) == u[j + 1] % Pow2(cnt) * Pow2(LIMB_BITS - cnt) + Shr(u[j], cnt)
  {
    ShrParts(u[j], cnt);
    if j + 1 < |u| {
      OrFits(u[j + 1], u[j], LIMB_BITS - cnt);
      ShrParts(u[j + 1], cnt);
    }
  }

  function DownHigh(u: seq<Limb>, cnt: nat): seq<int> {
    seq(|u|, j requires 0 <= j < |u| => Shr(u[j], cnt))
  }

  function DownLow(u: seq<Limb>, cnt: nat): seq<int> {
    seq(|u|, j requires 0 <= j < |u| => u[j] % Pow2(cnt))
  }

  lemma DownHighLow(u: seq<Limb>, cnt: nat)
    requires cnt <= LIMB_BITS
    ensures forall j :: 0 <= j < |u| ==> u[j] == DownHigh(u, cnt)[j] * Pow2(cnt) + DownLow(u, cnt)[j]
  {
    forall j | 0 <= j < |u|
      ensures u[j] == DownHigh(u, cnt)[j] * Pow2(cnt) + DownLow(u, cnt)[j]
    {
      LimbDownParts(u, j, cnt);
    }
  }

  lemma DownSums(s: seq<Limb>, u: seq<Limb>, cnt: nat)
    requires cnt <= LIMB_BITS && |s| == |u|
    requires forall j :: 0 <= j < |s| ==> s[j] == LimbDown(u, j, cnt)
    ensures forall j :: 0 <= j < |u| - 1 ==> s[j] == DownLow(u, cnt)[j + 1] * Pow2(LIMB_BITS - cnt) + DownHigh(u, cnt)[j]
  {
    forall j | 0 <= j < |u| - 1
      ensures s[j] == DownLow(u, cnt)[j + 1] * Pow2(LIMB_BITS - cnt) + DownHigh(u, cnt)[j]
    {
      LimbDownParts(u, j, cnt);
    }
  }

  lemma DownRun(s: seq<Limb>, u: seq<Limb>, cnt: nat)
    requires 0 < |s| == |u| && cnt <= LIMB_BITS
    requires forall j :: 0 <= j < |s| ==> s[j] == LimbDown(u, j, cnt)
    ensures Val(u) == Pow2(cnt) * Val(s) + u[0] % Pow2(cnt)
  {
    var hi, lo := DownHigh(u, cnt), DownLow(u, cnt);
    DownHighLow(u, cnt);
    DownSums(s, u, cnt);
    Pow2Complement(cnt);
    var n := |u| - 1;
    assert s[n] == LimbDown(u, n, cnt) == hi[n];
    DownWhole(s, u, hi, lo, n, Pow2(cnt), Pow2(LIMB_BITS - cnt));
    assert lo[0] == u[0] % Pow2(cnt);
  }

  lemma DownWhole(s: seq<Limb>, u: seq<Limb>, hi: seq<int>, lo: seq<int>, n: nat, c: int, t: int)
    requires |s| == |u| == |hi| == |lo| == n + 1 && c * t == B
    requires forall j :: 0 <= j < |u| ==> u[j] == hi[j] * c + lo[j]
    requires forall j :: 0 <= j < |u| - 1 ==> s[j] == lo[j + 1] * t + hi[j]
    requires s[n] == hi[n]
    ensures Val(u) == c * Val(s) + lo[0]
  {
    DownValue(s, u, hi, lo, n, c, t, Val(s));
  }

  lemma DownColumn(c: int, t: int, p: int, p': int, v: int, v': int, x: int, low: int,
                   lo: int, hi: int, high: int, w: int, w': int)
    requires c * t == B && high == hi * c + lo && x == lo * t + low && p' == B * p && v' == v + p * x
    requires w == v + p * low && w' == v' + p' * hi
    ensures c * w' == c * w + p' * high
  {
    assert c * (p * (lo * t)) == p' * lo by {
      MulAssoc(c, p, lo * t);
      MulAssoc(p, c, lo * t);
      MulAssoc(c, lo, t);
      MulAssoc(lo, c, t);
      MulAssoc(c, t, lo);
      MulAssoc(B, p, lo);
      MulAssoc(p, B, lo);
    }
    assert c * (p' * hi) == p' * (hi * c) by { MulAssoc(c, p', hi); MulAssoc(p', c, hi); }
    MulDist(p, lo * t, low);
    MulDist(c, w, p * (lo * t));
    MulDist(c, v', p' * hi);
    MulDist(p', hi * c, lo);
  }

  /** rp = up >> cnt on n limbs; returns the bits shifted out, at the top of a limb. */
  method RShift(rp: array<Limb>, ro: nat, up: array<Limb>, uo: nat, n: nat, cnt: nat) returns (retval: Limb)
    requires 1 <= n && 1 <= cnt < LIMB_BITS
    requires ro + n <= rp.Length && uo + n <= up.Length && Ascending(rp, ro, up, uo)
    modifies rp
    ensures old(Val(up[uo..uo + n])) == Pow2(cnt) * Val(rp[ro..ro + n]) + old(up[uo]) % Pow2(cnt)
    ensures retval == old(up[uo]) % Pow2(cnt) * Pow2(LIMB_BITS - cnt)
    ensures rp[ro + n - 1] == Shr(old(up[uo + n - 1]), cnt)
    ensures OnlyChanges(rp, ro, n)
  {
    ghost var U := up[uo..uo + n];
    var tnc := LIMB_BITS - cnt;
    var high := up[uo];
    ShrParts(high, cnt);
    retval := ShlW(high, tnc);
    var low := Shr(high, cnt);
    for i := 0 to n - 1
      invariant forall j :: 0 <= j < i ==> rp[ro + j] == LimbDown(U, j, cnt)
      invariant forall j :: i < j < n ==> up[uo + j] == U[j]
      invariant low == Shr(U[i], cnt)
      invariant OnlyChanges(rp, ro, n)
    {
      high := up[uo + i + 1];
      OrFits(high, U[i], tnc);
      rp[ro + i] := BitOr(ShlW(high, tnc), low);
      low := Shr(high, cnt);
    }
    rp[ro + n - 1] := low;
    DownRun(rp[ro..ro + n], U, cnt);
  }
}
