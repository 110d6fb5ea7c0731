/** Reading digits into limbs: the inverse of the two ways of writing them. */
module BaseIn {
  import opened Arith
  import opened Powers
  import opened Limbs
  import opened Bits
  import opened Mpn
  import opened MpnDiv
  import opened Numerals
  import opened BaseOut

  // ---- the bit path ----

  /** How many bits n limbs hold when the top one is filled up to `shift` (0: entirely). */
  function BitLength(n: nat, shift: nat): int {
    if shift == 0 then LIMB_BITS * n else LIMB_BITS * (n - 1) + shift
  }

  ghost predicate Filled(s: seq<Limb>, shift: nat) {
    shift < LIMB_BITS && (shift > 0 ==> |s| > 0 && s[|s| - 1] < Pow2(shift))
  }

  /** A digit shifted to its place stays below the next place. */
  lemma Placed(top: int, d: int, c: int, m: int)
    requires 0 <= top < c && 0 <= d < m
    ensures top + d * c < m * c && 0 <= d * c
  {
    MulMono(c, d + 1, m);
    MulDist(c, d, 1);
    MulNonNeg(d, c);
  }

  /** The bits of a digit that go into a partly filled limb, and those that overflow it. */
  lemma PutParts(top: Limb, d: Byte, shift: nat, bits: nat)
    requires 0 < shift < LIMB_BITS && 0 < bits <= 8 && top < Pow2(shift) && d < Pow2(bits)
    ensures d * Pow2(shift) == Shr(d, LIMB_BITS - shift) * B + ShlW(d, shift)
    ensures BitOr(top, ShlW(d, shift)) == top + ShlW(d, shift) < B
    ensures shift + bits <= LIMB_BITS ==> Shr(d, LIMB_BITS - shift) == 0
    ensures shift + bits < LIMB_BITS ==> top + ShlW(d, shift) < Pow2(shift + bits)
    ensures shift + bits > LIMB_BITS ==> Shr(d, LIMB_BITS - shift) < Pow2(shift + bits - LIMB_BITS)
  {
    ShlParts(d, shift);
    OrDisjoint(ShlW(d, shift), top, shift);
    OrCommutes(ShlW(d, shift), top);
    Placed(top, d, Pow2(shift), Pow2(bits));
    Pow2Add(bits, shift);
    Overflow(Shr(d, LIMB_BITS - shift), ShlW(d, shift), d * Pow2(shift), bits + shift);
  }

  lemma Overflow(hi: int, low: int, x: int, n: nat)
    requires x == hi * B + low && 0 <= low && 0 <= hi && 0 <= x < Pow2(n)
    ensures n <= LIMB_BITS ==> hi == 0
    ensures n > LIMB_BITS ==> hi < Pow2(n - LIMB_BITS)
  {
    assert Pow2(LIMB_BITS) == B by { Pow2Constants(); }
    if n <= LIMB_BITS {
      Pow2Monotone(n, LIMB_BITS);
    } else {
      Pow2Add(LIMB_BITS, n - LIMB_BITS);
    }
  }

  lemma PlaceDigit(lo: int, p: int, top: int, d: int, c: int, hi: int, low: int)
    requires d * c == hi * B + low
    ensures lo + p * (top + low) + B * p * hi == lo + p * top + d * (p * c)
  {
    MulDist(p, top, low);
    MulAssoc(B, p, hi);
    MulAssoc(p, B, hi);
    MulDist(p, hi * B, low);
    MulAssoc(p, d, c);
    MulAssoc(d, p, c);
  }

  lemma PutValue(s: seq<Limb>, t: seq<Limb>, shift: nat, d: Byte, hi: int, low: int)
    requires 0 < |s| == |t| && shift > 0 && forall j :: 0 <= j < |s| - 1 ==> s[j] == t[j]
    requires d * Pow2(shift) == hi * B + low && t[|s| - 1] == s[|s| - 1] + low
    ensures Val(t) + Pw(|s|) * hi == Val(s) + d * Pow2(BitLength(|s|, shift))
  {
    var n := |s| - 1;
    LowAgree(s, t, n);
    PwIsPow2(n);
    Pow2Add(LIMB_BITS * n, shift);
    PlaceDigit(Low(s, n), Pw(n), s[n], d, Pow2(shift), hi, low);
  }

  method Append(rp: array<Limb>, rn0: nat, x: Limb) returns (rn: nat)
    requires rn0 < rp.Length
    modifies rp
    ensures rn == rn0 + 1 && rp[..rn] == old(rp[..rn0]) + [x] && Val(rp[..rn]) == old(Val(rp[..rn0])) + Pw(rn0) * x
  {
    rp[rn0] := x;
    rn := rn0 + 1;
    ValSnoc(rp[..rn0], x);
    assert rp[..rn0] == old(rp[..rn0]) && rp[..rn] == rp[..rn0] + [x];
  }

  /** Putting a digit on top of a partly filled limb. */
  method PutHigh(rp: array<Limb>, rn0: nat, shift0: nat, d: Byte, bits: nat) returns (rn: nat, shift: nat)
    requires rn0 <= rp.Length && 0 < shift0 && Filled(rp[..rn0], shift0) && 0 < bits <= 8 && d < Pow2(bits)
    requires BitLength(rn0, shift0) + bits <= LIMB_BITS * rp.Length
    modifies rp
    ensures rn <= rp.Length && Filled(rp[..rn], shift) && BitLength(rn, shift) == BitLength(rn0, shift0) + bits
    ensures Val(rp[..rn]) == old(Val(rp[..rn0])) + d * Pow2(BitLength(rn0, shift0))
  {
    ghost var s := rp[..rn0];
    rn, shift := rn0, shift0;
    PutParts(rp[rn - 1], d, shift, bits);
    rp[rn - 1] := BitOr(rp[rn - 1], ShlW(d, shift));
    PutValue(s, rp[..rn], shift, d, Shr(d, LIMB_BITS - shift), ShlW(d, shift));
    shift := shift + bits;
    if shift >= LIMB_BITS {
      shift := shift - LIMB_BITS;
      if shift > 0 {
        rn := Append(rp, rn, Shr(d, bits - shift));
      }
    }
  }

  /** The same when the top limb may be full: then a new one is begun. */
  method PutDigit(rp: array<Limb>, rn0: nat, shift0: nat, d: Byte, bits: nat, ghost t: nat) returns (rn: nat, shift: nat)
    requires rn0 <= rp.Length && Filled(rp[..rn0], shift0) && 0 < bits <= 8 && d < Pow2(bits)
    requires t == BitLength(rn0, shift0) && t + bits <= LIMB_BITS * rp.Length
    modifies rp
    ensures rn <= rp.Length && Filled(rp[..rn], shift) && BitLength(rn, shift) == t + bits
    ensures Val(rp[..rn]) == old(Val(rp[..rn0])) + d * Pow2(t)
  {
    if shift0 == 0 {
      PwIsPow2(rn0);
      ValSnoc(rp[..rn0], d);
      rp[rn0] := d;
      rn, shift := rn0 + 1, bits;
      assert rp[..rn] == old(rp[..rn0]) + [rp[rn0]];
    } else {
      rn, shift := PutHigh(rp, rn0, shift0, d, bits);
    }
  }

  /** rp = sp read in base 2^bits; returns the size without leading zero limbs. */
  method SetStrBits(rp: array<Limb>, sp: array<Byte>, sn: nat, bits: nat) returns (rn: nat)
    requires 0 < bits <= 8 && sn <= sp.Length && AllBelow(sp[..sn], Pow2(bits))
    requires bits * sn <= LIMB_BITS * rp.Length
    modifies rp
    ensures rn <= rp.Length && (rn > 0 ==> rp[rn - 1] != 0)
    ensures Val(rp[..rn]) == Digits(sp[..sn], sn, Pow2(bits))
  {
    ghost var s, b := sp[..sn], Pow2(bits);
    ghost var p := 1;
    var j: nat, shift: nat := sn, 0;
    rn := 0;
    while j > 0
      invariant j <= sn && rn <= rp.Length && Filled(rp[..rn], shift)
      invariant BitLength(rn, shift) == bits * (sn - j) && p == Pow2(bits * (sn - j))
      invariant Digits(s, j, b) * p + Val(rp[..rn]) == Digits(s, sn, b)
    {
      j := j - 1;
      MulDist(bits, sn - 1 - j, 1);
      MulMono(bits, sn - j, sn);
      rn, shift := PutDigit(rp, rn, shift, sp[j], bits, bits * (sn - 1 - j));
      Pow2Add(bits, bits * (sn - 1 - j));
      NextWeight(Digits(s, j, b), s[j], b, p);
      p := b * p;
    }
    rn := NormalizedSize(rp, rn);
  }

  lemma NextWeight(h: int, d: int, b: int, p: int)
    ensures (h * b + d) * p == h * (b * p) + d * p
  {
    MulDist(p, h * b, d);
    MulAssoc(h, b, p);
  }

  // ---- the multiplication path ----

  /** n more digits, accumulated in one limb. */
  method ChunkValue(sp: array<Byte>, ghost sn: nat, j0: nat, n: nat, b: Limb, ghost e: nat) returns (w: Limb)
    requires 0 < n <= e && j0 + n <= sn <= sp.Length && 2 <= b <= 0x100 && AllBelow(sp[..sn], b)
    requires Pow(b, e) < B
    ensures w < Pow(b, n)
    ensures Digits(sp[..sn], j0 + n, b) == Digits(sp[..sn], j0, b) * Pow(b, n) + w
  {
    ghost var s := sp[..sn];
    w := sp[j0];
    assert Pow(b, 1) == b;
    var k := 1;
    while k < n
      invariant 0 < k <= n && w < Pow(b, k)
      invariant Digits(s, j0 + k, b) == Digits(s, j0, b) * Pow(b, k) + w
    {
      var d := sp[j0 + k];
      assert s[j0 + k] == d;
      PowMonotone(b, k + 1, e);
      MoreDigits(Digits(s, j0, b), Pow(b, k), w, d, b);
      w := w * b + d;
      k := k + 1;
    }
  }

  lemma MoreDigits(h: int, p: int, w: int, d: int, b: int)
    requires 0 <= w < p && 0 <= d < b
    ensures (h * p + w) * b + d == h * (b * p) + (w * b + d)
    ensures 0 <= w * b + d < b * p
  {
    MulDist(b, h * p, w);
    MulAssoc(h, p, b);
    MulNonNeg(w, b);
    MulMono(b, w + 1, p);
    MulDist(b, w, 1);
  }

  /** rp = rp * bb + w, one limb longer when it overflows. */
  method MulAddLimb(rp: array<Limb>, rn0: nat, bb: Limb, w: Limb) returns (rn: nat)
    requires 0 < rn0 < rp.Length && w < bb && (rn0 > 1 ==> rp[rn0 - 1] != 0)
    modifies rp
    ensures rn0 <= rn <= rn0 + 1 && (rn > 1 ==> rp[rn - 1] != 0)
    ensures Val(rp[..rn]) == old(Val(rp[..rn0])) * bb + w
  {
    ghost var x := Val(rp[..rn0]);
    ValBound(rp[..rn0]);
    assert rp[0..0 + rn0] == rp[..rn0];
    if rn0 > 1 {
      ValTopNonzero(rp[..rn0]);
    }
    var cy := Mul1(rp, 0, rp, 0, rn0, bb);
    ghost var v := Val(rp[0..0 + rn0]);
    ValBound(rp[0..0 + rn0]);
    CarryBelow(v, Pw(rn0), cy, x, bb);
    var c := Add1(rp, 0, rp, 0, rn0, w);
    assert rp[0..0 + rn0] == rp[..rn0];
    MulDist(Pw(rn0), cy, c);
    cy := cy + c;
    rn := rn0;
    ValSnoc(rp[..rn0], cy);
    if cy > 0 {
      rp[rn] := cy;
      rn := rn + 1;
      assert rp[..rn] == rp[..rn0] + [cy];
    } else if rn > 1 {
      MulMono(x, 1, bb);
      LargeTop(rp[..rn]);
    }
  }

  lemma CarryBelow(v: int, p: int, cy: int, x: int, bb: int)
    requires v + p * cy == x * bb && 0 <= v && 0 <= x < p && 0 < bb
    ensures cy < bb
  {
    MulMono(bb, x + 1, p);
    MulDist(bb, x, 1);
    MulCancel(cy, bb, p);
  }

  method FirstLimb(rp: array<Limb>, sp: array<Byte>, ghost sn: nat, k: nat, b: Limb, ghost e: nat)
    requires 0 < k <= e && k <= sn <= sp.Length && 2 <= b <= 0x100 && AllBelow(sp[..sn], b)
    requires Pow(b, e) < B && 0 < rp.Length
    modifies rp
    ensures Val(rp[..1]) == Digits(sp[..sn], k, b)
  {
    var w := ChunkValue(sp, sn, 0, k, b, e);
    rp[0] := w;
    assert rp[..1] == [w] && Low([w], 0) == 0 && Pw(0) == 1;
  }

  /** The next exp digits, folded in. */
  method FoldChunk(rp: array<Limb>, rn0: nat, sp: array<Byte>, ghost sn: nat, j: nat, b: Limb, info: BaseInfo)
    returns (rn: nat)
    requires j + info.exp <= sn <= sp.Length && 2 <= b <= 0x100 && AllBelow(sp[..sn], b) && Describes(info, b)
    requires 0 < rn0 < rp.Length && (rn0 > 1 ==> rp[rn0 - 1] != 0)
    requires Val(rp[..rn0]) == Digits(sp[..sn], j, b)
    modifies rp
    ensures rn0 <= rn <= rn0 + 1 && (rn > 1 ==> rp[rn - 1] != 0)
    ensures Val(rp[..rn]) == Digits(sp[..sn], j + info.exp, b)
  {
    var w := ChunkValue(sp, sn, j, info.exp, b, info.exp);
    rn := MulAddLimb(rp, rn0, info.bb, w);
  }

  /** rp = sp read in base b, in chunks of exp digits. All zeros give one zero limb. */
  method SetStrOther(rp: array<Limb>, sp: array<Byte>, sn: nat, b: Limb, info: BaseInfo)
    returns (rn: nat)
    requires 0 < sn <= sp.Length && 2 <= b <= 0x100 && AllBelow(sp[..sn], b) && Describes(info, b)
    requires sn <= info.exp * rp.Length
    modifies rp
    ensures 0 < rn <= rp.Length && (rn > 1 ==> rp[rn - 1] != 0)
    ensures Val(rp[..rn]) == Digits(sp[..sn], sn, b)
  {
    ghost var s := sp[..sn];
    var k := 1 + (sn - 1) % info.exp;
    ghost var m := FirstChunk(sn, info.exp, rp.Length);
    FirstLimb(rp, sp, sn, k, b, info.exp);
    rn := 1;
    var j: nat := k;
    while j < sn
      invariant j + Chunked(m, info.exp) == sn && rn + m <= rp.Length
      invariant 0 < rn && (rn > 1 ==> rp[rn - 1] != 0)
      invariant Val(rp[..rn]) == Digits(s, j, b)
      decreases m
    {
      rn := FoldChunk(rp, rn, sp, sn, j, b, info);
      j, m := j + info.exp, m - 1;
    }
  }

  /** The length of m chunks of e digits. */
  function Chunked(m: nat, e: nat): nat {
    if m == 0 then 0 else e + Chunked(m - 1, e)
  }

  lemma {:induction false} ChunkedIsProduct(m: nat, e: nat)
    ensures Chunked(m, e) == m * e
  {
    if m > 0 {
      ChunkedIsProduct(m - 1, e);
      MulDist(e, m - 1, 1);
    }
  }

  /** The first chunk takes what makes the rest a whole number of chunks. */
  lemma FirstChunk(sn: int, e: nat, len: int) returns (m: nat)
    requires 0 < sn <= e * len && 0 < e
    ensures m + 1 <= len && 0 < 1 + (sn - 1) % e <= e && 1 + (sn - 1) % e + Chunked(m, e) == sn
  {
    m := (sn - 1) / e;
    DivBounds(sn - 1, e);
    MulCancel(m, len, e);
    ChunkedIsProduct(m, e);
  }
}
