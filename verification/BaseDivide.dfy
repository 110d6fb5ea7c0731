/** Writing limbs as digits by repeated division, for bases that are not powers of two. */
module BaseDivide {
  import opened Arith
  import opened Powers
  import opened Limbs
  import opened Bits
  import opened Mpn
  import opened MpnDiv
  import opened Numerals
  import opened WordDivision
  import opened BaseOut

  lemma {:induction false} ReversedAppend(s: seq<Byte>, t: seq<Byte>, n: nat, b: int)
    requires n <= |t|
    ensures Reversed(s + t, |s| + n, b) == Reversed(s, |s|, b) + Pow(b, |s|) * Reversed(t, n, b)
  {
    if n == 0 {
      ReversedAgree(s + t, s, |s|, b);
    } else {
      ReversedAppend(s, t, n - 1, b);
      PowAdd(b, |s|, n - 1);
      MulAssoc(Pow(b, |s|), Pow(b, n - 1), t[n - 1]);
      MulDist(Pow(b, |s|), Reversed(t, n - 1, b), Pow(b, n - 1) * t[n - 1]);
    }
  }

  /** S holds the low digits of x, and rest what is above them. */
  ghost predicate Splits(S: seq<Byte>, rest: int, x: int, b: int) {
    AllBelow(S, b) && Reversed(S, |S|, b) + Pow(b, |S|) * rest == x
  }

  lemma SplitMore(S: seq<Byte>, T: seq<Byte>, w: int, rest: int, x: int, b: int)
    requires Splits(S, w, x, b) && Splits(T, rest, w, b)
    ensures Splits(S + T, rest, x, b)
  {
    ReversedAppend(S, T, |T|, b);
    PowAdd(b, |S|, |T|);
    MulAssoc(Pow(b, |S|), Pow(b, |T|), rest);
    MulDist(Pow(b, |S|), Reversed(T, |T|, b), Pow(b, |T|) * rest);
  }

  lemma SplitDigit(r: Byte, q: int, w: int, b: int)
    requires w == q * b + r && r < b
    ensures Splits([r], q, w, b)
  {
    assert Reversed([r], 1, b) == r;
    assert Pow(b, 1) == b;
  }

  lemma SplitZero(b: int)
    requires 1 <= b
    ensures Splits([0], 0, 0, b)
  {
    assert Reversed([0], 1, b) == 0;
  }

  lemma {:induction false} ReversedBound(s: seq<Byte>, n: nat, b: int)
    requires n <= |s| && AllBelow(s, b) && 1 <= b
    ensures 0 <= Reversed(s, n, b) < Pow(b, n)
  {
    if n > 0 {
      ReversedBound(s, n - 1, b);
      MulMono(Pow(b, n - 1), s[n - 1], b - 1);
      MulDist(Pow(b, n - 1), b, -1);
      MulNonNeg(Pow(b, n - 1), s[n - 1]);
    }
  }

  /** Something left over means room for more digits. */
  lemma RoomLeft(S: seq<Byte>, rest: int, x: int, b: int, e: nat)
    requires 2 <= b && Splits(S, rest, x, b) && 0 <= rest && x < Pow(b, e)
    ensures rest > 0 ==> |S| < e
    ensures |S| <= e ==> rest < Pow(b, e - |S|)
  {
    ReversedBound(S, |S|, b);
    if rest > 0 {
      MulMono(Pow(b, |S|), 1, rest);
      if e <= |S| {
        PowMonotone(b, e, |S|);
      }
    }
    if |S| <= e {
      PowAdd(b, |S|, e - |S|);
      Leftover(Reversed(S, |S|, b), Pow(b, |S|), rest, Pow(b, e - |S|));
    }
  }

  lemma Leftover(lo: int, p: int, rest: int, q: int)
    requires 0 <= lo && 0 < p && lo + p * rest < p * q
    ensures rest < q
  {
    MulCancel(rest, q, p);
  }

  /** The digits of one limb, least significant first, by a normalised division per digit. */
  method LimbGetStr(sp: array<Byte>, so: nat, w0: Limb, binv: DivInverse, ghost b: Limb, ghost e: nat)
    returns (i: nat)
    requires 2 <= b <= 0x100 && Inverts1(binv, b)
    requires so + e <= sp.Length && w0 < Pow(b, e)
    modifies sp
    ensures i <= e && Splits(sp[so..so + i], 0, w0, b)
    ensures i > 0 ==> sp[so + i - 1] != 0
    ensures w0 > 0 ==> i > 0
    ensures OnlyChanges(sp, so, i)
  {
    var w := w0;
    i := 0;
    ghost var S: seq<Byte> := [];
    assert Reversed(S, 0, b) == 0;
    while w > 0
      invariant i == |S| <= e && Splits(S, w, w0, b)
      invariant forall j :: 0 <= j < |S| ==> sp[so + j] == S[j]
      invariant i > 0 && w == 0 ==> S[i - 1] != 0
      invariant w0 > 0 && i == 0 ==> w > 0
      invariant OnlyChanges(sp, so, i)
      decreases w
    {
      RoomLeft(S, w, w0, b, e);
      ghost var win := w;
      var r;
      w, r := DigitOfLimb(w, binv, b);
      SplitDigit(r, w, win, b);
      SplitMore(S, [r], win, w, w0, b);
      if w > 0 {
        MulMono(w, 2, b);
      }
      sp[so + i] := r;
      S := S + [r];
      i := i + 1;
    }
    assert sp[so..so + i] == S;
  }

  /** w / b and w % b through the reciprocal of the shifted base. */
  method DigitOfLimb(w: Limb, binv: DivInverse, ghost b: Limb) returns (q: Limb, r: Byte)
    requires 2 <= b <= 0x100 && Inverts1(binv, b)
    ensures w == q * b + r && r < b
  {
    var shift := binv.shift;
    ShlParts(w, shift);
    ShiftedOutBelow(b, shift, Shr(w, LIMB_BITS - shift));
    var rs;
    q, rs := UdivQrnndPreinv(Shr(w, LIMB_BITS - shift), ShlW(w, shift), binv.d1, binv.di);
    Unscale(Pow2(shift), w, q, b, rs);
    r := Shr(rs, shift);
  }

  /** Dividing by one limb costs at most one limb of length, and not all of the value. */
  lemma NextTop(u: seq<Limb>, q: seq<Limb>, d: int, w: int)
    requires |u| == |q| >= 2 && u[|u| - 1] != 0
    requires 2 <= d < B && 0 <= w < d && Val(u) == Val(q) * d + w
    ensures 0 < Val(q) < Val(u) && (q[|q| - 1] == 0 ==> q[|q| - 2] != 0 && Val(q[..|q| - 1]) == Val(q))
  {
    var n := |q|;
    ValTopNonzero(u);
    ValBound(q);
    QuotientAtLeast(Pw(n - 2), Val(q), d, w);
    LowBound(q, n - 2);
    LowSlice(q, n - 1);
    MulMono(Val(q), 2, d);
  }

  lemma QuotientAtLeast(p: int, quot: int, d: int, w: int)
    requires 0 < d < B && 0 <= w < d && 0 <= quot && B * p <= quot * d + w
    ensures p <= quot
  {
    MulDist(d, quot, 1);
    MulMono(quot + 1, d, B);
    MulCancel(p, quot + 2, B);
    MulDist(B, quot, 1);
  }

  /** sp[so..so + sn] the other way round. */
  method ReverseBytes(sp: array<Byte>, so: nat, sn: nat)
    requires so + sn <= sp.Length
    modifies sp
    ensures Mirrors(sp[so..so + sn], old(sp[so..so + sn]))
    ensures OnlyChanges(sp, so, sn)
  {
    ghost var S := sp[so..so + sn];
    var i := 0;
    while 2 * i + 1 < sn
      invariant 0 <= 2 * i <= sn + 1
      invariant forall k {:trigger S[k]} :: 0 <= k < sn ==>
          sp[so + k] == if i <= k < sn - i then S[k] else S[sn - 1 - k]
      invariant OnlyChanges(sp, so, sn)
    {
      assert sp[so + i] == S[i] && sp[so + (sn - i - 1)] == S[sn - i - 1];
      var t := sp[so + i];
      sp[so + i] := sp[so + sn - i - 1];
      sp[so + sn - i - 1] := t;
      i := i + 1;
    }
    ghost var M := sp[so..so + sn];
    forall k | 0 <= k < sn ensures M[k] == S[sn - 1 - k] {
      assert M[k] == sp[so + k] && S[k] == S[k];
    }
  }

  ghost predicate Mirrors(s: seq<Byte>, t: seq<Byte>) {
    |s| == |t| && forall k :: 0 <= k < |s| ==> s[k] == t[|t| - 1 - k]
  }

  /** One chunk of exactly exp digits: the remainder modulo bb, padded with zeros. */
  method ChunkGetStr(sp: array<Byte>, so: nat, w: Limb, binv: DivInverse, exp: nat, ghost b: Limb)
    requires 2 <= b <= 0x100 && Inverts1(binv, b)
    requires so + exp <= sp.Length && w < Pow(b, exp)
    modifies sp
    ensures Splits(sp[so..so + exp], 0, w, b)
    ensures OnlyChanges(sp, so, exp)
  {
    var done := LimbGetStr(sp, so, w, binv, b, exp);
    while done < exp
      invariant done <= exp && Splits(sp[so..so + done], 0, w, b)
      invariant OnlyChanges(sp, so, exp)
    {
      ghost var S := sp[so..so + done];
      sp[so + done] := 0;
      SplitZero(b);
      SplitMore(S, [0], 0, 0, w, b);
      assert sp[so..so + (done + 1)] == S + [0];
      done := done + 1;
    }
  }

  /** Dividing by bb in place: the quotient's own length, and a remainder for exp digits. */
  method DivideChunk(up: array<Limb>, un0: nat, bbinv: DivInverse, ghost bb: Limb) returns (w: Limb, un: nat)
    requires 2 <= bb && Inverts1(bbinv, bb)
    requires 1 < un0 <= up.Length && up[un0 - 1] != 0
    modifies up
    ensures un0 - 1 <= un <= un0 && up[un - 1] != 0 && 0 < Val(up[..un]) < old(Val(up[..un0]))
    ensures old(Val(up[..un0])) == Val(up[..un]) * bb + w && w < bb
  {
    ghost var u := up[..un0];
    ghost var quot;
    w, quot := DivQr1Preinv(up, up, un0, bbinv, bb);
    NextTop(u, up[..un0], bb, w);
    assert up[..un0][..un0 - 1] == up[..un0 - 1];
    un := if up[un0 - 1] == 0 then un0 - 1 else un0;
  }

  lemma ChunkSplits(S: seq<Byte>, T: seq<Byte>, w: int, rest: int, bb: int, v: int, x: int, b: int)
    requires Splits(S, v, x, b) && Splits(T, 0, w, b) && bb == Pow(b, |T|) && v == rest * bb + w
    ensures Splits(S + T, rest, x, b)
  {
    SplitMore(S, T, v, rest, x, b);
  }

  /** One round of the outer loop: the remainder modulo bb becomes exp digits. */
  method NextChunk(sp: array<Byte>, so: nat, up: array<Limb>, un0: nat, bbinv: DivInverse, binv: DivInverse,
                   info: BaseInfo, ghost b: Limb, ghost S: seq<Byte>, ghost x: int, ghost count: nat) returns (un: nat)
    requires 2 <= b <= 0x100 && Inverts1(binv, b) && Describes(info, b) && Inverts1(bbinv, info.bb)
    requires 1 < un0 <= up.Length && up[un0 - 1] != 0
    requires Splits(S, Val(up[..un0]), x, b) && x < Pow(b, count) && |S| <= count && so + (count - |S|) <= sp.Length
    modifies sp, up
    ensures un0 - 1 <= un <= un0 && up[un - 1] != 0 && 0 < Val(up[..un]) < old(Val(up[..un0]))
    ensures |S| + info.exp < count
    ensures Splits(S + sp[so..so + info.exp], Val(up[..un]), x, b)
    ensures OnlyChanges(sp, so, info.exp)
  {
    ghost var v := Val(up[..un0]);
    PowAtLeast(b, info.exp);
    var w;
    w, un := DivideChunk(up, un0, bbinv, info.bb);
    ghost var rest := Val(up[..un]);
    FitsChunk(S, rest, w, info.bb, v, x, b, info.exp, count);
    ChunkGetStr(sp, so, w, binv, info.exp, b);
    ChunkSplits(S, sp[so..so + info.exp], w, rest, info.bb, v, x, b);
  }

  lemma PowAtLeast(b: int, e: nat)
    requires 2 <= b && 0 < e
    ensures b <= Pow(b, e)
  {
    PowPositive(b, e - 1);
    MulMono(b, 1, Pow(b, e - 1));
  }

  /** With something left above it, a whole chunk still fits. */
  lemma FitsChunk(S: seq<Byte>, rest: int, w: int, bb: int, v: int, x: int, b: int, e: nat, count: nat)
    requires 2 <= b && Splits(S, v, x, b) && x < Pow(b, count) && |S| <= count
    requires 0 < rest && 0 <= w && bb == Pow(b, e) && v == rest * bb + w
    ensures |S| + e < count
  {
    PowPositive(b, e);
    MulPositive(rest, bb);
    RoomLeft(S, v, x, b, count);
    MulMono(bb, 1, rest);
    if count <= |S| + e {
      PowMonotone(b, count - |S|, e);
    }
  }

  /** The digits of what is left when it fits a limb. */
  method LastDigits(sp: array<Byte>, so: nat, w: Limb, binv: DivInverse, ghost b: Limb, ghost S: seq<Byte>,
                    ghost x: int, ghost count: nat) returns (done: nat)
    requires 2 <= b <= 0x100 && Inverts1(binv, b) && w > 0
    requires Splits(S, w, x, b) && x < Pow(b, count) && |S| <= count && so + (count - |S|) <= sp.Length
    modifies sp
    ensures 0 < done && |S| + done <= count && sp[so + done - 1] != 0
    ensures Splits(S + sp[so..so + done], 0, x, b)
    ensures OnlyChanges(sp, so, done)
  {
    RoomLeft(S, w, x, b, count);
    done := LimbGetStr(sp, so, w, binv, b, count - |S|);
    SplitMore(S, sp[so..so + done], w, 0, x, b);
  }

  lemma SplitNothing(x: int, b: int)
    ensures Splits([], x, x, b)
  {
    assert Reversed([], 0, b) == 0 && Pow(b, 0) == 1;
  }

  method InvertChunk(info: BaseInfo, ghost b: Limb) returns (bbinv: DivInverse)
    requires 2 <= b && Describes(info, b)
    ensures Inverts1(bbinv, info.bb)
  {
    PowAtLeast(b, info.exp);
    bbinv := DivQr1Invert(info.bb);
  }

  /** Chunks of digits, least significant first, until one nonzero limb is left. */
  method WriteChunks(sp: array<Byte>, so: nat, up: array<Limb>, un0: nat, binv: DivInverse, info: BaseInfo,
                     ghost b: Limb, ghost x: int, ghost count: nat) returns (sn: nat)
    requires 2 <= b <= 0x100 && Inverts1(binv, b) && Describes(info, b)
    requires 0 < un0 <= up.Length && up[un0 - 1] != 0 && 0 <= x == Val(up[..un0]) < Pow(b, count)
    requires so + count <= sp.Length
    modifies sp, up
    ensures sn <= count && up[0] != 0 && Splits(sp[so..so + sn], up[0], x, b)
    ensures OnlyChanges(sp, so, sn)
  {
    ghost var S: seq<Byte> := [];
    SplitNothing(x, b);
    ghost var rest := x;
    var un := un0;
    sn := 0;
    if un > 1 {
      var bbinv := InvertChunk(info, b);
      while un > 1
        invariant 0 < un <= un0 && up[un - 1] != 0 && 0 <= rest == Val(up[..un])
        invariant sn == |S| <= count && Splits(S, rest, x, b)
        invariant sp[so..so + sn] == S
        invariant OnlyChanges(sp, so, sn)
        decreases rest
      {
        un := NextChunk(sp, so + sn, up, un, bbinv, binv, info, b, S, x, count);
        ghost var T := sp[so + sn..so + sn + info.exp];
        S, rest := S + T, Val(up[..un]);
        sn := sn + info.exp;
        assert sp[so..so + sn] == S;
      }
    }
    LastLimb(up[..1]);
  }

  /** All digits, least significant first. */
  method WriteDigits(sp: array<Byte>, so: nat, up: array<Limb>, un: nat, binv: DivInverse, info: BaseInfo,
                     ghost b: Limb, ghost x: int, ghost count: nat) returns (sn: nat)
    requires 2 <= b <= 0x100 && Inverts1(binv, b) && Describes(info, b)
    requires 0 < un <= up.Length && up[un - 1] != 0 && 0 <= x == Val(up[..un]) < Pow(b, count)
    requires so + count <= sp.Length
    modifies sp, up
    ensures 0 < sn <= count && sp[so + sn - 1] != 0 && Splits(sp[so..so + sn], 0, x, b)
    ensures OnlyChanges(sp, so, sn)
  {
    sn := WriteChunks(sp, so, up, un, binv, info, b, x, count);
    ghost var S := sp[so..so + sn];
    var done := LastDigits(sp, so + sn, up[0], binv, b, S, x, count);
    assert sp[so..so + (sn + done)] == S + sp[so + sn..so + sn + done];
    sn := sn + done;
  }

  /** sp = up in the given base, most significant digit first; up is used up. */
  method GetStrOther(sp: array<Byte>, so: nat, base: Limb, info: BaseInfo, up: array<Limb>, un: nat)
    returns (sn: nat)
    requires 2 <= base <= 0x100 && Describes(info, base)
    requires 0 < un <= up.Length && up[un - 1] != 0 && Val(up[..un]) >= 0
    requires so + |Numeral(Val(up[..un]), base)| <= sp.Length
    modifies sp, up
    ensures so + sn <= sp.Length && sp[so..so + sn] == old(Numeral(Val(up[..un]), base))
    ensures OnlyChanges(sp, so, sn)
  {
    ghost var x := Val(up[..un]);
    ghost var count := |Numeral(x, base)|;
    BelowDigits(x, base);
    var binv := DivQr1Invert(base);
    sn := WriteDigits(sp, so, up, un, binv, info, base, x, count);
    ghost var S := sp[so..so + sn];
    ReverseBytes(sp, so, sn);
    MirrorNumeral(sp[so..so + sn], S, x, base);
  }

  lemma BelowDigits(x: nat, b: int)
    requires 2 <= b <= 0x100
    ensures x < Pow(b, |Numeral(x, b)|)
  {
    NumeralDenotes(x, b);
    DigitsBound(Numeral(x, b), |Numeral(x, b)|, b);
  }

  lemma LastLimb(u: seq<Limb>)
    requires |u| == 1
    ensures Val(u) == u[0]
  {
    assert Low(u, 0) == 0 && Pw(0) == 1;
  }

  /** All digits, turned round, are the numeral. */
  lemma MirrorNumeral(s: seq<Byte>, t: seq<Byte>, x: int, b: int)
    requires 2 <= b <= 0x100 && |t| > 0 && t[|t| - 1] != 0
    requires Mirrors(s, t) && Splits(t, 0, x, b)
    ensures 0 <= x && s == Numeral(x, b)
  {
    DigitsOfReverse(s, t, b);
    NumeralUnique(s, x, b);
  }
}
