/**
 mpz_and, mpz_ior and mpz_xor: sign and magnitude are turned into two's complement limb
 by limb, with running carries, and the result back into sign and magnitude.
 */
module MpzBits {
  import opened Arith
  import opened Powers
  import opened Limbs
  import opened Mpn
  import opened Mpz
  import opened Bitwise
  import opened Bits

  function LimbOp(op: BitOp, x: Limb, y: Limb): Limb {
    LimbOpFits(op, x, y);
    Apply(op, x, y)
  }

  lemma LimbOpFits(op: BitOp, x: Limb, y: Limb)
    ensures 0 <= Apply(op, x, y) < B
  {
    assert Pow2(LIMB_BITS) == B by { Pow2Constants(); }
    BitwiseBound(op, x, y, LIMB_BITS);
  }

  /** All ones for a negative number, zero for another. */
  function Mask(negative: bool): Limb {
    if negative then B - 1 else 0
  }

  /** Complementing under the mask, adding the carry; the new carry. */
  function Complemented(x: Limb, negative: bool, c: Limb): Limb {
    AddW(LimbOp(Xor, x, Mask(negative)), c)
  }

  /** t is the low part of the two's complement of a number whose magnitude has the low part s. */
  ghost predicate Complement(negative: bool, c: Limb, s: seq<Limb>, t: seq<Limb>) {
    && |s| == |t| && c <= 1 && (!negative ==> c == 0)
    && Val(t) + (if c == 1 then Pw(|t|) else 0) == if negative then Pw(|s|) - Val(s) else Val(s)
  }

  lemma ComplementStep(negative: bool, c: Limb, s: seq<Limb>, t: seq<Limb>, x: Limb)
    requires Complement(negative, c, s, t)
    ensures var l := Complemented(x, negative, c);
      Complement(negative, if l < c then 1 else 0, s + [x], t + [l])
  {
    var l := Complemented(x, negative, c);
    var f := if negative then B - 1 - x else x;
    ComplementedLimb(x, negative, c, f);
    ValSnoc(s, x);
    SnocColumn(t, c, l, if l < c then 1 else 0, f, 0);
    ComplementSum(Pw(|s|), negative, x, f);
  }

  lemma ComplementedLimb(x: Limb, negative: bool, c: Limb, f: int)
    requires c <= 1 && (!negative ==> c == 0) && f == if negative then B - 1 - x else x
    ensures var l := Complemented(x, negative, c); l + B * (if l < c then 1 else 0) == f + c
  {
    assert Pow2(LIMB_BITS) == B by { Pow2Constants(); }
    XorOnes(x, LIMB_BITS);
    XorZero(x);
  }

  lemma ComplementSum(p: int, negative: bool, x: int, f: int)
    requires f == if negative then B - 1 - x else x
    ensures p * f + (if negative then p + p * x else 0) == if negative then B * p else p * x
  {
    MulDist(p, f, x);
  }

  /** The number itself: its two's complement low part, and what is above it. */
  function Above(negative: bool, c: Limb, high: int): int {
    if negative then c - 1 - high else high
  }

  /** A number is its low two's complement limbs plus the rest, at their weight. */
  lemma TwosComplement(u: seq<Limb>, k: nat, negative: bool, c: Limb, t: seq<Limb>)
    requires k <= |u| && Complement(negative, c, u[..k], t)
    ensures WithSign(negative, Val(u)) == Val(t) + Pw(k) * Above(negative, c, Val(u[k..]))
  {
    ValSplit(u, k);
    AboveSum(Val(u), Val(u[..k]), Val(t), Pw(k), negative, c, Val(u[k..]));
  }

  lemma AboveSum(v: int, lo: int, vt: int, p: int, negative: bool, c: Limb, high: int)
    requires v == lo + p * high && vt + p * c == (if negative then p - lo else lo) && (!negative ==> c == 0)
    ensures WithSign(negative, v) == vt + p * Above(negative, c, high)
  {
    if negative {
      MulSub(p, c - 1, high);
      MulSub(p, c, 1);
    }
  }

  /** Past all limbs of a nonzero number the carry is gone, and only sign bits remain. */
  lemma CarryGone(u: seq<Limb>, negative: bool, c: Limb, t: seq<Limb>)
    requires |u| > 0 && u[|u| - 1] != 0 && Complement(negative, c, u, t)
    ensures c == 0
  {
    ValTopNonzero(u);
    ValBound(t);
  }

  /** Operating on limbs operates on the numbers they make up. */
  ghost predicate Operated(op: BitOp, s: seq<Limb>, t: seq<Limb>, r: seq<Limb>) {
    |s| == |t| == |r| && Val(r) == Apply(op, Val(s), Val(t))
  }

  lemma OperatedStep(op: BitOp, s: seq<Limb>, t: seq<Limb>, r: seq<Limb>, x: Limb, y: Limb)
    requires Operated(op, s, t, r)
    ensures Operated(op, s + [x], t + [y], r + [LimbOp(op, x, y)])
  {
    ValSnoc(s, x);
    ValSnoc(t, y);
    ValSnoc(r, LimbOp(op, x, y));
    Combined(op, s, t, x, y);
  }

  /** Everything above the limbs operated on is operated on as well. */
  lemma Combined(op: BitOp, s: seq<Limb>, t: seq<Limb>, x: int, y: int)
    requires |s| == |t|
    ensures Apply(op, Val(s) + Pw(|s|) * x, Val(t) + Pw(|t|) * y)
         == Apply(op, Val(s), Val(t)) + Pw(|s|) * Apply(op, x, y)
  {
    PwIsPow2(|s|);
    ValBound(s);
    ValBound(t);
    BitwiseSplit(op, Val(s), Val(t), x, y, LIMB_BITS * |s|, Pw(|s|), Val(s) + Pw(|s|) * x, Val(t) + Pw(|t|) * y);
  }

  // ---- the loops ----

  function WithSign(negative: bool, m: int): int {
    if negative then -m else m
  }

  /** What the loops have established after |S| limbs: S and T are operand limbs in two's complement, R the result's. */
  ghost predicate Converted(op: BitOp, U: seq<Limb>, uneg: bool, uc: Limb, S: seq<Limb>, T: seq<Limb>,
                            R: seq<Limb>, rneg: bool, rc: Limb, X: seq<Limb>) {
    Complement(uneg, uc, U, S) && Operated(op, S, T, R) && Complement(rneg, rc, R, X)
  }

  /** One more limb x of u meets the limb t of the other operand. */
  lemma ConvertStep(op: BitOp, U: seq<Limb>, uneg: bool, uc: Limb, S: seq<Limb>, T: seq<Limb>,
                    R: seq<Limb>, rneg: bool, rc: Limb, X: seq<Limb>, x: Limb, t: Limb)
    requires Converted(op, U, uneg, uc, S, T, R, rneg, rc, X)
    ensures var ul := Complemented(x, uneg, uc);
      var rl := Complemented(LimbOp(op, ul, t), rneg, rc);
      Converted(op, U + [x], uneg, if ul < uc then 1 else 0, S + [ul], T + [t],
                R + [LimbOp(op, ul, t)], rneg, if rl < rc then 1 else 0, X + [rl])
  {
    var ul := Complemented(x, uneg, uc);
    ComplementStep(uneg, uc, U, S, x);
    OperatedStep(op, S, T, R, ul, t);
    ComplementStep(rneg, rc, R, X, LimbOp(op, ul, t));
  }

  /** One limb of each operand. */
  method TwoLimbs(op: BitOp, x: Limb, y: Limb, uneg: bool, vneg: bool, rneg: bool, uc0: Limb, vc0: Limb, rc0: Limb,
                  ghost U: seq<Limb>, ghost V: seq<Limb>, ghost S0: seq<Limb>, ghost T0: seq<Limb>,
                  ghost R0: seq<Limb>, ghost X: seq<Limb>)
    returns (uc: Limb, vc: Limb, rc: Limb, rl: Limb, ghost S: seq<Limb>, ghost T: seq<Limb>, ghost R: seq<Limb>)
    requires Converted(op, U, uneg, uc0, S0, T0, R0, rneg, rc0, X) && Complement(vneg, vc0, V, T0)
    ensures Converted(op, U + [x], uneg, uc, S, T, R, rneg, rc, X + [rl]) && Complement(vneg, vc, V + [y], T)
  {
    var ux, vx, rx := Mask(uneg), Mask(vneg), Mask(rneg);
    var ul := AddW(LimbOp(Xor, x, ux), uc0);
    uc := if ul < uc0 then 1 else 0;
    var vl := AddW(LimbOp(Xor, y, vx), vc0);
    vc := if vl < vc0 then 1 else 0;
    rl := AddW(LimbOp(Xor, LimbOp(op, ul, vl), rx), rc0);
    rc := if rl < rc0 then 1 else 0;
    ComplementStep(vneg, vc0, V, T0, y);
    ConvertStep(op, U, uneg, uc0, S0, T0, R0, rneg, rc0, X, x, vl);
    S, T, R := S0 + [ul], T0 + [vl], R0 + [LimbOp(op, ul, vl)];
  }

  /** The limbs both operands have: convert, operate, convert back. */
  method CommonLimbs(op: BitOp, rp: array<Limb>, up: array<Limb>, vp: array<Limb>, n: nat,
                     uneg: bool, vneg: bool, rneg: bool)
    returns (uc: Limb, vc: Limb, rc: Limb, ghost S: seq<Limb>, ghost T: seq<Limb>, ghost R: seq<Limb>)
    requires n <= rp.Length && n <= up.Length && n <= vp.Length
    modifies rp
    ensures Converted(op, old(up[..n]), uneg, uc, S, T, R, rneg, rc, rp[..n])
    ensures Complement(vneg, vc, old(vp[..n]), T)
    ensures OnlyChanges(rp, 0, n)
  {
    ghost var U, V := up[..n], vp[..n];
    uc, vc, rc := if uneg then 1 else 0, if vneg then 1 else 0, if rneg then 1 else 0;
    S, T, R := [], [], [];
    var i := 0;
    while i < n
      invariant i <= n
      invariant forall j :: i <= j < n ==> up[j] == U[j]
      invariant forall j :: i <= j < n ==> vp[j] == V[j]
      invariant Converted(op, U[..i], uneg, uc, S, T, R, rneg, rc, rp[..i])
      invariant Complement(vneg, vc, V[..i], T)
      invariant OnlyChanges(rp, 0, n)
    {
      ghost var X := rp[..i];
      assert U[..i + 1] == U[..i] + [up[i]] && V[..i + 1] == V[..i] + [vp[i]];
      var rl;
      uc, vc, rc, rl, S, T, R := TwoLimbs(op, up[i], vp[i], uneg, vneg, rneg, uc, vc, rc, U[..i], V[..i], S, T, R, X);
      rp[i] := rl;
      assert rp[..i + 1] == X + [rl];
      i := i + 1;
    }
    assert U[..n] == U && V[..n] == V;
  }

  /** What sign bits contribute. */
  function SignOf(negative: bool): int {
    if negative then -1 else 0
  }

  /** The sign bits of the shorter operand, as far as n limbs. */
  ghost predicate Extended(T: seq<Limb>, vneg: bool, y: int) {
    y == Val(T) - if vneg then Pw(|T|) else 0
  }

  lemma ExtendStep(T: seq<Limb>, vneg: bool, y: int)
    requires Extended(T, vneg, y)
    ensures Extended(T + [Mask(vneg)], vneg, y)
  {
    ValSnoc(T, Mask(vneg));
    MulDist(Pw(|T|), B - 1, -B);
    MulAssoc(B, Pw(|T|), -1);
  }

  /** Undoing the masks of both operands, and then that of the result, for exclusive or. */
  lemma XorMasks(ul: Limb, uneg: bool, vneg: bool)
    ensures LimbOp(Xor, LimbOp(Xor, ul, Mask(vneg)), Mask(uneg != vneg)) == LimbOp(Xor, ul, Mask(uneg))
  {
    assert Pow2(LIMB_BITS) == B by { Pow2Constants(); }
    XorZero(ul);
    XorZero(B - 1 - ul);
    XorOnes(ul, LIMB_BITS);
    XorOnes(B - 1 - ul, LIMB_BITS);
  }

  /** A limb of u alone: the other operand contributes its sign bits. */
  method OneLimb(op: BitOp, x: Limb, uneg: bool, vneg: bool, uc0: Limb, rc0: Limb, ghost U: seq<Limb>,
                 ghost S0: seq<Limb>, ghost T0: seq<Limb>, ghost R0: seq<Limb>, ghost X: seq<Limb>, ghost y: int)
    returns (uc: Limb, rc: Limb, rl: Limb, ghost S: seq<Limb>, ghost T: seq<Limb>, ghost R: seq<Limb>)
    requires Converted(op, U, uneg, uc0, S0, T0, R0, OnBool(op, uneg, vneg), rc0, X) && Extended(T0, vneg, y)
    ensures Converted(op, U + [x], uneg, uc, S, T, R, OnBool(op, uneg, vneg), rc, X + [rl]) && Extended(T, vneg, y)
  {
    var rneg := OnBool(op, uneg, vneg);
    var ux, vx, rx := Mask(uneg), Mask(vneg), Mask(rneg);
    var ul := AddW(LimbOp(Xor, x, ux), uc0);
    uc := if ul < uc0 then 1 else 0;
    rl := AddW(if op == Xor then LimbOp(Xor, ul, ux) else LimbOp(Xor, LimbOp(op, ul, vx), rx), rc0);
    rc := if rl < rc0 then 1 else 0;
    XorMasks(ul, uneg, vneg);
    ConvertStep(op, U, uneg, uc0, S0, T0, R0, rneg, rc0, X, x, vx);
    ExtendStep(T0, vneg, y);
    S, T, R := S0 + [ul], T0 + [vx], R0 + [LimbOp(op, ul, vx)];
  }

  /** The limbs only u has. */
  method HighLimbs(op: BitOp, rp: array<Limb>, up: array<Limb>, n: nat, m: nat, uneg: bool, vneg: bool,
                   uc0: Limb, rc0: Limb, ghost U: seq<Limb>, ghost S0: seq<Limb>, ghost T0: seq<Limb>,
                   ghost R0: seq<Limb>, ghost y: int)
    returns (uc: Limb, rc: Limb, ghost S: seq<Limb>, ghost T: seq<Limb>, ghost R: seq<Limb>)
    requires n <= m <= rp.Length && m <= up.Length && |U| == m
    requires forall j :: n <= j < m ==> up[j] == U[j]
    requires Converted(op, U[..n], uneg, uc0, S0, T0, R0, OnBool(op, uneg, vneg), rc0, rp[..n])
    requires Extended(T0, vneg, y)
    modifies rp
    ensures Converted(op, U, uneg, uc, S, T, R, OnBool(op, uneg, vneg), rc, rp[..m])
    ensures Extended(T, vneg, y)
  {
    uc, rc, S, T, R := uc0, rc0, S0, T0, R0;
    var i := n;
    while i < m
      invariant n <= i <= m
      invariant forall j :: i <= j < m ==> up[j] == U[j]
      invariant Converted(op, U[..i], uneg, uc, S, T, R, OnBool(op, uneg, vneg), rc, rp[..i])
      invariant Extended(T, vneg, y)
    {
      ghost var X := rp[..i];
      assert U[..i + 1] == U[..i] + [up[i]];
      var rl;
      uc, rc, rl, S, T, R := OneLimb(op, up[i], uneg, vneg, uc, rc, U[..i], S, T, R, X, y);
      rp[i] := rl;
      assert rp[..i + 1] == X + [rl];
      i := i + 1;
    }
    assert U[..m] == U;
  }

  /** The magnitude in rp and the sign, as the result; a final carry is its own limb. */
  method Store(r: Mpz, rn0: nat, rc: Limb, rneg: bool, ghost R: seq<Limb>)
    requires rn0 + (if rneg then 1 else 0) <= r.d.Length && Complement(rneg, rc, R, r.d[..rn0])
    modifies r, r.d
    ensures r.Valid() && r.d == old(r.d)
    ensures r.Value() == Val(R) + Pw(|R|) * SignOf(rneg)
  {
    var rn := rn0;
    ValSnoc(r.d[..rn0], rc);
    if rc > 0 {
      r.d[rn] := rc;
      assert r.d[..rn + 1] == old(r.d[..rn0]) + [rc];
      rn := rn + 1;
    } else {
      rn := NormalizedSize(r.d, rn);
    }
    ValBound(R);
    r.size := if rneg then -(rn as int) else rn;
  }

  // ---- the operations ----

  /** The operation on the limbs, and on what is above them. */
  lemma Meets(op: BitOp, S: seq<Limb>, T: seq<Limb>, R: seq<Limb>, p: int, x: int, high: int, y: int, sign: int)
    requires Operated(op, S, T, R) && p == Pw(|S|) && x == Val(S) + p * high && y == Val(T) + p * sign
    ensures Apply(op, x, y) == Val(R) + p * Apply(op, high, sign)
  {
    PwIsPow2(|S|);
    ValBound(S);
    ValBound(T);
    BitwiseSplit(op, Val(S), Val(T), high, sign, LIMB_BITS * |S|, p, x, y);
  }

  /** With all limbs of u converted, only sign bits are above. */
  lemma AllConverted(op: BitOp, U: seq<Limb>, uneg: bool, uc: Limb, S: seq<Limb>, T: seq<Limb>, R: seq<Limb>,
                     vneg: bool, y: int)
    requires |U| > 0 && U[|U| - 1] != 0 && Complement(uneg, uc, U, S) && Operated(op, S, T, R) && Extended(T, vneg, y)
    ensures Apply(op, WithSign(uneg, Val(U)), y) == Val(R) + Pw(|R|) * SignOf(OnBool(op, uneg, vneg))
  {
    assert U[..|U|] == U && U[|U|..] == [];
    TwosComplement(U, |U|, uneg, uc, S);
    CarryGone(U, uneg, uc, S);
    Meets(op, S, T, R, Pw(|S|), WithSign(uneg, Val(U)), SignOf(uneg), y, SignOf(vneg));
  }

  /** Where the sign bits of v decide, the high limbs of u do not matter. */
  lemma HighIgnored(op: BitOp, U: seq<Limb>, uneg: bool, uc: Limb, S: seq<Limb>, T: seq<Limb>, R: seq<Limb>,
                    vneg: bool, y: int)
    requires |S| <= |U| && Complement(uneg, uc, U[..|S|], S) && Operated(op, S, T, R) && Extended(T, vneg, y)
    requires (op == And && !vneg) || (op == Ior && vneg)
    ensures Apply(op, WithSign(uneg, Val(U)), y) == Val(R) + Pw(|R|) * SignOf(OnBool(op, uneg, vneg))
  {
    TwosComplement(U, |S|, uneg, uc, S);
    SignsDecide(op, S, T, R, WithSign(uneg, Val(U)), Above(uneg, uc, Val(U[|S|..])), y, uneg, vneg);
  }

  lemma SignsDecide(op: BitOp, S: seq<Limb>, T: seq<Limb>, R: seq<Limb>, x: int, high: int, y: int, uneg: bool, vneg: bool)
    requires Operated(op, S, T, R) && x == Val(S) + Pw(|S|) * high && Extended(T, vneg, y)
    requires (op == And && !vneg) || (op == Ior && vneg)
    ensures Apply(op, x, y) == Val(R) + Pw(|R|) * SignOf(OnBool(op, uneg, vneg))
  {
    Absorbed(high);
    Meets(op, S, T, R, Pw(|S|), x, high, y, SignOf(vneg));
  }

  /** Past all limbs of v. */
  lemma ShorterConverted(V: seq<Limb>, vneg: bool, vc: Limb, T: seq<Limb>)
    requires |V| > 0 && V[|V| - 1] != 0 && Complement(vneg, vc, V, T)
    ensures vc == 0 && Extended(T, vneg, WithSign(vneg, Val(V)))
  {
    assert V[..|V|] == V && V[|V|..] == [];
    TwosComplement(V, |V|, vneg, vc, T);
    CarryGone(V, vneg, vc, T);
  }

  /** On rn limbs: as many as u has, or as v has when v's sign bits decide the others. */
  predicate EnoughLimbs(op: BitOp, rn: nat, un: nat, vn: nat, vneg: bool) {
    0 < vn <= un && (rn == un || (rn == vn && ((op == And && !vneg) || (op == Ior && vneg))))
  }

  /** The result's magnitude in rp; R is the result in two's complement. */
  method OperateLimbs(op: BitOp, rp: array<Limb>, up: array<Limb>, un: nat, vp: array<Limb>, vn: nat, rn: nat,
                      uneg: bool, vneg: bool) returns (rc: Limb, ghost R: seq<Limb>)
    requires un <= up.Length && vn <= vp.Length && rn <= rp.Length && EnoughLimbs(op, rn, un, vn, vneg)
    requires up[un - 1] != 0 && vp[vn - 1] != 0
    modifies rp
    ensures Complement(OnBool(op, uneg, vneg), rc, R, rp[..rn])
    ensures Val(R) + Pw(|R|) * SignOf(OnBool(op, uneg, vneg))
         == Apply(op, WithSign(uneg, old(Val(up[..un]))), WithSign(vneg, old(Val(vp[..vn]))))
  {
    ghost var U, V := up[..un], vp[..vn];
    assert U[..rn][..vn] == up[..vn];
    ghost var S, T;
    var uc, vc;
    uc, vc, rc, S, T, R := CommonLimbs(op, rp, up, vp, vn, uneg, vneg, OnBool(op, uneg, vneg));
    ShorterConverted(V, vneg, vc, T);
    ghost var y := WithSign(vneg, Val(V));
    uc, rc, S, T, R := HighLimbs(op, rp, up, vn, rn, uneg, vneg, uc, rc, U[..rn], S, T, R, y);
    if rn == un {
      assert U[..rn] == U;
      AllConverted(op, U, uneg, uc, S, T, R, vneg, y);
    } else {
      HighIgnored(op, U, uneg, uc, S, T, R, vneg, y);
    }
  }

  method Operate(op: BitOp, r: Mpz, u: Mpz, v: Mpz, rn: nat)
    requires u.Valid() && v.Valid() && r.Apart(u) && r.Apart(v)
    requires EnoughLimbs(op, rn, Abs(u.size), Abs(v.size), v.size < 0)
    modifies r, r.d
    ensures r.Valid() && (r.d == old(r.d) || fresh(r.d))
    ensures r.Value() == Apply(op, old(u.Value()), old(v.Value()))
  {
    var un, vn, uneg, vneg := Abs(u.size), Abs(v.size), u.size < 0, v.size < 0;
    ghost var U, V := u.d[..un], v.d[..vn];
    assert u.Value() == WithSign(uneg, Val(U)) && v.Value() == WithSign(vneg, Val(V));
    r.Realloc(rn + if OnBool(op, uneg, vneg) then 1 else 0);
    assert u.d[..un] == U && v.d[..vn] == V;
    var rc;
    ghost var R;
    rc, R := OperateLimbs(op, r.d, u.d, un, v.d, vn, rn, uneg, vneg);
    Store(r, rn, rc, OnBool(op, uneg, vneg), R);
  }

  /** r = u & v. */
  method AndInto(r: Mpz, u0: Mpz, v0: Mpz)
    requires u0.Valid() && v0.Valid() && r.Apart(u0) && r.Apart(v0)
    modifies r, r.d
    ensures r.Valid() && (r.d == old(r.d) || fresh(r.d))
    ensures r.Value() == Apply(And, old(u0.Value()), old(v0.Value()))
  {
    var u, v := u0, v0;
    if Abs(u.size) < Abs(v.size) {
      u, v := v, u;
    }
    BitwiseCommutes(And, u0.Value(), v0.Value());
    if v.size == 0 {
      Absorbed(u.Value());
      r.size := 0;
      return;
    }
    // If the smaller input is positive, higher limbs don't matter.
    Operate(And, r, u, v, if v.size < 0 then Abs(u.size) else Abs(v.size));
  }

  /** r = u | v. */
  method IorInto(r: Mpz, u0: Mpz, v0: Mpz)
    requires u0.Valid() && v0.Valid() && r.Apart(u0) && r.Apart(v0)
    modifies r, r.d
    ensures r.Valid() && (r.d == old(r.d) || fresh(r.d))
    ensures r.Value() == Apply(Ior, old(u0.Value()), old(v0.Value()))
  {
    var u, v := u0, v0;
    if Abs(u.size) < Abs(v.size) {
      u, v := v, u;
    }
    BitwiseCommutes(Ior, u0.Value(), v0.Value());
    if v.size == 0 {
      IorZero(u.Value());
      r.Set(u);
      return;
    }
    // If the smaller input is negative, by sign extension higher limbs don't matter.
    Operate(Ior, r, u, v, if v.size < 0 then Abs(v.size) else Abs(u.size));
  }

  /** r = u ^ v. */
  method XorInto(r: Mpz, u0: Mpz, v0: Mpz)
    requires u0.Valid() && v0.Valid() && r.Apart(u0) && r.Apart(v0)
    modifies r, r.d
    ensures r.Valid() && (r.d == old(r.d) || fresh(r.d))
    ensures r.Value() == Apply(Xor, old(u0.Value()), old(v0.Value()))
  {
    var u, v := u0, v0;
    if Abs(u.size) < Abs(v.size) {
      u, v := v, u;
    }
    BitwiseCommutes(Xor, u0.Value(), v0.Value());
    if v.size == 0 {
      XorZero(u.Value());
      r.Set(u);
      return;
    }
    Operate(Xor, r, u, v, Abs(u.size));
  }
}
