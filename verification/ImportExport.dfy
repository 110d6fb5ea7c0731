/**
 mpz_import and mpz_export: integers as words of bytes, in either word order and either
 byte order, and BigInt's byte strings on top of them.
 */
module ImportExport {
  import opened Arith
  import opened Powers
  import opened Limbs
  import opened Bits
  import opened Mpn
  import opened MpnDiv
  import opened Mpz
  import opened Numerals
  import opened BaseOut
  import opened BaseIn
  import opened BaseDivide

  const LIMB_BYTES: nat := 8

  // ---- the layout ----

  /** Where word w starts: the most significant word comes first when order is 1. */
  function WordStart(w: int, count: int, order: int, size: int): int {
    if order == 1 then size * (count - 1 - w) else size * w
  }

  /** Where byte j of a word is: the most significant byte comes first when endian is 1. */
  function ByteIn(j: int, size: int, endian: int): int {
    if endian == 1 then size - 1 - j else j
  }

  /** The address of byte t, counting from the least significant byte of all. */
  function Address(t: int, count: int, order: int, size: int, endian: int): int
    requires 0 < size
  {
    WordStart(t / size, count, order, size) + ByteIn(t % size, size, endian)
  }

  lemma AddressOf(w: int, j: int, count: int, order: int, size: int, endian: int)
    requires 0 <= w < count && 0 <= j < size
    ensures Address(size * w + j, count, order, size, endian) == WordStart(w, count, order, size) + ByteIn(j, size, endian)
    ensures 0 <= Address(size * w + j, count, order, size, endian) < size * count
    ensures 0 <= size * w + j < size * count
  {
    DivModUnique(size * w + j, size, w, j);
    var v := if order == 1 then count - 1 - w else w;
    MulNonNeg(size, v);
    MulNonNeg(size, w);
    MulMono(size, v + 1, count);
    MulMono(size, w + 1, count);
    MulDist(size, v, 1);
    MulDist(size, w, 1);
  }

  lemma AddressInRange(t: int, count: int, order: int, size: int, endian: int)
    requires 0 < size && 0 <= t < size * count
    ensures 0 <= Address(t, count, order, size, endian) < size * count
  {
    DivBounds(t, size);
    MulCancel(t / size, count, size);
    AddressOf(t / size, t % size, count, order, size, endian);
  }

  /** Different bytes are at different addresses. */
  lemma AddressInjective(t: int, t': int, count: int, order: int, size: int, endian: int)
    requires 0 < size && 0 <= t < size * count && 0 <= t' < size * count
    requires Address(t, count, order, size, endian) == Address(t', count, order, size, endian)
    ensures t == t'
  {
    DivBounds(t, size);
    DivBounds(t', size);
    var w, w' := t / size, t' / size;
    var v := if order == 1 then count - 1 - w else w;
    var v' := if order == 1 then count - 1 - w' else w';
    DigitUnique(size, ByteIn(t % size, size, endian), v, ByteIn(t' % size, size, endian), v');
  }

  /** The bytes of a layout, from the least significant. */
  function Unlaid(s: seq<Byte>, count: nat, order: int, size: nat, endian: int): (u: seq<Byte>)
    requires size * count <= |s|
    ensures |u| == size * count
  {
    MulNonNeg(size, count);
    if size == 0 then
      []
    else
      seq(size * count, t requires 0 <= t < size * count =>
        AddressInRange(t, count, order, size, endian); s[Address(t, count, order, size, endian)])
  }

  /** The pointer walk: how p moves from one word to the next. */
  lemma NextWord(w: int, count: int, order: int, size: int, endian: int)
    requires (order == 1 || order == -1) && (endian == 1 || endian == -1)
    ensures WordStart(w + 1, count, order, size) + ByteIn(0, size, endian)
         == WordStart(w, count, order, size) + ByteIn(size, size, endian)
            + (if order != endian then (if order == 1 then -(2 * size) else 2 * size) else 0)
  {
    MulDist(size, count - 1 - w, -1);
    MulDist(size, w, 1);
  }

  /** The least significant byte of the least significant word, and the step between words. */
  method StartWalk(count: nat, order: int, size: nat, endian: int) returns (p: int, wordStep: int)
    requires (order == 1 || order == -1) && (endian == 1 || endian == -1)
    ensures p == WordStart(0, count, order, size) + ByteIn(0, size, endian)
    ensures forall w :: WordStart(w + 1, count, order, size) + ByteIn(0, size, endian)
                     == WordStart(w, count, order, size) + ByteIn(size, size, endian) + wordStep
  {
    p, wordStep := 0, if order != endian then 2 * size else 0;
    if order == 1 {
      p := p + size * (count - 1);
      wordStep := -wordStep;
    }
    if endian == 1 {
      p := p + (size - 1);
    }
    forall w ensures WordStart(w + 1, count, order, size) + ByteIn(0, size, endian)
                  == WordStart(w, count, order, size) + ByteIn(size, size, endian) + wordStep {
      NextWord(w, count, order, size, endian);
    }
  }

  // ---- import ----

  lemma ByteFits(limb: Limb, b: Byte, bytes: nat)
    requires bytes < LIMB_BYTES && limb < Pow2(8 * bytes)
    ensures limb + b * Pow2(8 * bytes) < Pow2(8 * bytes + 8) <= B
    ensures ShlW(b, 8 * bytes) == b * Pow2(8 * bytes)
  {
    var c := Pow2(8 * bytes);
    Pow2Constants();
    Pow2Add(8, 8 * bytes);
    Pow2Monotone(8 * bytes + 8, LIMB_BITS);
    Placed(limb, b, c, 0x100);
    DivModUnique(b * c, B, 0, b * c);
  }

  /** A limb under construction holds its bytes from the low end. */
  lemma ByteOnTop(limb: Limb, b: Byte, bytes: nat)
    requires bytes < LIMB_BYTES && limb < Pow2(8 * bytes)
    ensures BitOr(limb, ShlW(b, 8 * bytes)) == limb + ShlW(b, 8 * bytes)
  {
    ShlParts(b, 8 * bytes);
    OrDisjoint(ShlW(b, 8 * bytes), limb, 8 * bytes);
    OrCommutes(ShlW(b, 8 * bytes), limb);
  }

  /** rp[..i] are finished, limb holds `bytes` more bytes. */
  ghost predicate Filling(s: seq<Limb>, limb: Limb, bytes: nat, v: int) {
    bytes < LIMB_BYTES && limb < Pow2(8 * bytes) && v == Val(s) + Pw(|s|) * limb
  }

  /** One more byte in the limb under construction. */
  method AddByte(limb0: Limb, bytes0: nat, b: Byte, ghost s: seq<Limb>, ghost v: int) returns (limb: Limb)
    requires Filling(s, limb0, bytes0, v)
    ensures limb < Pow2(8 * bytes0 + 8) <= B
    ensures v + b * Pow2(8 * (8 * |s| + bytes0)) == Val(s) + Pw(|s|) * limb
  {
    ByteOnTop(limb0, b, bytes0);
    ByteFits(limb0, b, bytes0);
    limb := BitOr(limb0, ShlW(b, 8 * bytes0));
    PwIsPow2(|s|);
    Pow2Add(LIMB_BITS * |s|, 8 * bytes0);
    AddedByte(Val(s), Pw(|s|), limb0, b, Pow2(8 * bytes0));
  }

  /** One more byte; a full limb is stored. */
  method TakeByte(rp: array<Limb>, i0: nat, limb0: Limb, bytes0: nat, b: Byte, ghost v: int)
    returns (i: nat, limb: Limb, bytes: nat)
    requires i0 <= rp.Length && Filling(rp[..i0], limb0, bytes0, v)
    requires 8 * i0 + bytes0 + 1 <= 8 * rp.Length
    modifies rp
    ensures i <= rp.Length && Filling(rp[..i], limb, bytes, v + b * Pow2(8 * (8 * i0 + bytes0)))
    ensures 8 * i + bytes == 8 * i0 + bytes0 + 1
  {
    i := i0;
    limb := AddByte(limb0, bytes0, b, rp[..i0], v);
    bytes := bytes0 + 1;
    if bytes == LIMB_BYTES {
      ValSnoc(rp[..i0], limb);
      rp[i] := limb;
      i := i + 1;
      assert rp[..i] == old(rp[..i0]) + [limb];
      bytes := 0;
      limb := 0;
    }
  }

  lemma AddedByte(s: int, p: int, limb: int, b: int, c: int)
    ensures s + p * (limb + b * c) == s + p * limb + b * (p * c)
  {
    MulDist(p, limb, b * c);
    MulAssoc(p, b, c);
    MulAssoc(b, p, c);
  }

  lemma NextByte(u: seq<Byte>, t: nat)
    requires t < |u|
    ensures Reversed(u, t + 1, 0x100) == Reversed(u, t, 0x100) + u[t] * Pow2(8 * t)
  {
    PowOfPow2(8, t);
    Pow2Constants();
  }

  /** Byte t of the number, on top of those below it. */
  method TakeNext(rp: array<Limb>, i0: nat, limb0: Limb, bytes0: nat, b: Byte, ghost u: seq<Byte>, ghost t: nat)
    returns (i: nat, limb: Limb, bytes: nat)
    requires t < |u| <= 8 * rp.Length && u[t] == b && i0 <= rp.Length && 8 * i0 + bytes0 == t
    requires Filling(rp[..i0], limb0, bytes0, Reversed(u, t, 0x100))
    modifies rp
    ensures i <= rp.Length && Filling(rp[..i], limb, bytes, Reversed(u, t + 1, 0x100)) && 8 * i + bytes == t + 1
  {
    NextByte(u, t);
    i, limb, bytes := TakeByte(rp, i0, limb0, bytes0, b, Reversed(u, t, 0x100));
  }

  /** The byte p points at is byte t of the number. */
  lemma ByteAt(s: seq<Byte>, w: int, j: int, count: nat, order: int, size: nat, endian: int, p: int, t: int)
    requires 0 <= w < count && 0 <= j < size && size * count <= |s|
    requires p == WordStart(w, count, order, size) + ByteIn(j, size, endian) && t == size * w + j
    ensures 0 <= p < size * count && 0 <= t < size * count && Unlaid(s, count, order, size, endian)[t] == s[p]
  {
    AddressOf(w, j, count, order, size, endian);
  }

  /** Byte j of word w, which is byte t of the number. */
  method ImportByte(rp: array<Limb>, i0: nat, limb0: Limb, bytes0: nat, src: array<Byte>, p: int, size: nat, endian: int,
                    ghost w: nat, ghost j: nat, ghost count: nat, ghost order: int, ghost u: seq<Byte>, ghost t: nat)
    returns (i: nat, limb: Limb, bytes: nat)
    requires w < count && j < size && size * count <= src.Length
    requires u == Unlaid(src[..], count, order, size, endian) && |u| <= 8 * rp.Length
    requires p == WordStart(w, count, order, size) + ByteIn(j, size, endian) && t == size * w + j
    requires 8 * i0 + bytes0 == t < |u| && i0 <= rp.Length && Filling(rp[..i0], limb0, bytes0, Reversed(u, t, 0x100))
    modifies rp
    ensures i <= rp.Length && 8 * i + bytes == t + 1 && Filling(rp[..i], limb, bytes, Reversed(u, t + 1, 0x100))
  {
    ByteAt(src[..], w, j, count, order, size, endian, p, t);
    i, limb, bytes := TakeNext(rp, i0, limb0, bytes0, src[p], u, t);
  }

  /** The bytes of word w, wherever they are. */
  method ImportWord(rp: array<Limb>, i0: nat, limb0: Limb, bytes0: nat, src: array<Byte>, p0: int, size: nat,
                    endian: int, ghost w: nat, ghost count: nat, ghost order: int, ghost u: seq<Byte>, ghost t: nat)
    returns (i: nat, limb: Limb, bytes: nat, p: int)
    requires w < count && size * count <= src.Length && (endian == 1 || endian == -1)
    requires u == Unlaid(src[..], count, order, size, endian) && |u| <= 8 * rp.Length
    requires p0 == WordStart(w, count, order, size) + ByteIn(0, size, endian)
    requires 8 * i0 + bytes0 == t == size * w <= |u| && i0 <= rp.Length
    requires Filling(rp[..i0], limb0, bytes0, Reversed(u, t, 0x100))
    modifies rp
    ensures 8 * i + bytes == t + size == size * (w + 1) <= |u| && i <= rp.Length
    ensures Filling(rp[..i], limb, bytes, Reversed(u, t + size, 0x100))
    ensures p == WordStart(w, count, order, size) + ByteIn(size, size, endian)
  {
    i, limb, bytes, p := i0, limb0, bytes0, p0;
    MulDist(size, w, 1);
    MulMono(size, w + 1, count);
    var j := 0;
    while j < size
      invariant j <= size && i <= rp.Length && 8 * i + bytes == t + j
      invariant Filling(rp[..i], limb, bytes, Reversed(u, t + j, 0x100))
      invariant p == WordStart(w, count, order, size) + ByteIn(j, size, endian)
    {
      i, limb, bytes := ImportByte(rp, i, limb, bytes, src, p, size, endian, w, j, count, order, u, t + j);
      p := p - endian;
      j := j + 1;
    }
  }

  /** The host's byte order, for an endian argument of 0. */
  function Endianness(endian: int, host: int): int {
    if endian == 0 then host else endian
  }

  /** What a byte string means in a given layout: words of no bytes mean zero. */
  function Meaning(s: seq<Byte>, count: nat, order: int, size: nat, endian: int): int
    requires size * count <= |s|
  {
    Reversed(Unlaid(s, count, order, size, endian), size * count, 0x100)
  }

  lemma NothingYet(u: seq<Byte>)
    ensures Filling([], 0, 0, Reversed(u, 0, 0x100))
  {}

  /** Walks the words from the least significant end. */
  method ImportWords(rp: array<Limb>, count: nat, order: int, size: nat, endian: int, src: array<Byte>)
    returns (i: nat, limb: Limb, bytes: nat)
    requires size * count <= src.Length && size * count <= 8 * rp.Length
    requires (order == 1 || order == -1) && (endian == 1 || endian == -1)
    modifies rp
    ensures i <= rp.Length && 8 * i + bytes == size * count
    ensures Filling(rp[..i], limb, bytes, Meaning(src[..], count, order, size, endian))
  {
    ghost var u := Unlaid(src[..], count, order, size, endian);
    var p, wordStep := StartWalk(count, order, size, endian);
    limb, bytes, i := 0, 0, 0;
    NothingYet(u);
    ghost var t: nat := 0;
    var w := 0;
    while w < count
      invariant w <= count && i <= rp.Length && 8 * i + bytes == t == size * w <= |u|
      invariant Filling(rp[..i], limb, bytes, Reversed(u, t, 0x100))
      invariant p == WordStart(w, count, order, size) + ByteIn(0, size, endian)
    {
      i, limb, bytes, p := ImportWord(rp, i, limb, bytes, src, p, size, endian, w, count, order, u, t);
      t := t + size;
      p := p + wordStep;
      w := w + 1;
    }
  }

  /** r = the number in src. */
  method Import(r: Mpz, count: nat, order: int, size: nat, endian: int, host: int, src: array<Byte>)
    requires size * count <= src.Length && (order == 1 || order == -1)
    requires -1 <= endian <= 1 && (host == 1 || host == -1)
    modifies r, r.d
    ensures r.Valid() && (r.d == old(r.d) || fresh(r.d))
    ensures r.Value() == Meaning(src[..], count, order, size, Endianness(endian, host))
  {
    r.Realloc(RoundUp(size * count, LIMB_BYTES));
    var i, limb, bytes := ImportWords(r.d, count, order, size, Endianness(endian, host), src);
    var rn: int := StoreTop(r.d, i, limb);
    r.size := rn;
  }

  /** The last limb is stored unless it is zero; then the zero limbs below it are dropped as well. */
  method StoreTop(rp: array<Limb>, i: nat, limb: Limb) returns (rn: nat)
    requires i <= rp.Length && (limb != 0 ==> i < rp.Length)
    modifies rp
    ensures rn <= rp.Length && (rn > 0 ==> rp[rn - 1] != 0)
    ensures Val(rp[..rn]) == old(Val(rp[..i])) + Pw(i) * limb
  {
    if limb != 0 {
      ValSnoc(rp[..i], limb);
      rp[i] := limb;
      assert rp[..i + 1] == old(rp[..i]) + [limb];
      return i + 1;
    }
    MulSub(Pw(i), 0, 0);
    rn := NormalizedSize(rp, i);
  }

  // ---- export ----

  /** limb holds `bytes` bytes still to be written; above them come the limbs from i on. */
  ghost predicate Draining(u: seq<Limb>, i: nat, limb: Limb, bytes: nat, rest: int) {
    && i <= |u| && bytes <= LIMB_BYTES && limb < Pow2(8 * bytes)
    && rest == limb + Pow2(8 * bytes) * Val(u[i..]) && 0 <= rest
  }

  /** The lowest byte of a limb that holds some. */
  lemma ByteOff(limb: Limb, bytes: nat, v: int, rest: int)
    requires 0 < bytes <= LIMB_BYTES && limb < Pow2(8 * bytes) && 0 <= rest == limb + Pow2(8 * bytes) * v
    ensures Shr(limb, 8) < Pow2(8 * (bytes - 1))
    ensures rest == limb % 0x100 + 0x100 * (Shr(limb, 8) + Pow2(8 * (bytes - 1)) * v)
  {
    var h := Pow2(8 * (bytes - 1));
    Pow2Add(8, 8 * (bytes - 1));
    assert Pow2(8) == 0x100 by { Pow2Constants(); }
    MulAssoc(0x100, h, v);
  }

  /** An empty limb is refilled; then its lowest byte is taken. */
  method EmitByte(up: array<Limb>, un: nat, i0: nat, limb0: Limb, bytes0: nat, ghost rest0: int)
    returns (i: nat, limb: Limb, bytes: nat, b: Byte, ghost rest: int)
    requires un <= up.Length && Draining(up[..un], i0, limb0, bytes0, rest0)
    ensures Draining(up[..un], i, limb, bytes, rest) && rest0 == rest * 0x100 + b
  {
    ghost var u := up[..un];
    i, limb, bytes := i0, limb0, bytes0;
    ghost var v := Val(u[i..]);
    if bytes == 0 {
      assert Pow2(8 * LIMB_BYTES) == B by { Pow2Constants(); }
      if i < un {
        UpperStep(u, i);
        limb := up[i];
        i := i + 1;
      } else {
        assert u[i..] == [];
      }
      bytes := LIMB_BYTES;
    }
    v := Val(u[i..]);
    ByteOff(limb, bytes, v, rest0);
    b := limb % 0x100;
    limb := Shr(limb, 8);
    bytes := bytes - 1;
    rest := limb + Pow2(8 * bytes) * v;
  }

  /** What has been written: the |T| low bytes of x, each at its address. */
  ghost predicate Laid(s: seq<Byte>, T: seq<Byte>, count: nat, order: int, size: nat, endian: int) {
    && 0 < size && |T| <= size * count <= |s|
    && forall k {:trigger T[k]} :: 0 <= k < |T| ==>
      (AddressInRange(k, count, order, size, endian); s[Address(k, count, order, size, endian)]) == T[k]
  }

  lemma LayByte(s: seq<Byte>, T: seq<Byte>, b: Byte, w: nat, j: nat, count: nat, order: int, size: nat, endian: int, p: int)
    requires Laid(s, T, count, order, size, endian) && |T| == size * w + j && w < count && j < size
    requires p == WordStart(w, count, order, size) + ByteIn(j, size, endian)
    ensures 0 <= p < size * count && Laid(s[p := b], T + [b], count, order, size, endian)
  {
    AddressOf(w, j, count, order, size, endian);
    var s', T' := s[p := b], T + [b];
    forall k | 0 <= k < |T'|
      ensures 0 <= Address(k, count, order, size, endian) < |s'| && s'[Address(k, count, order, size, endian)] == T'[k]
    {
      AddressInRange(k, count, order, size, endian);
      if k < |T| {
        assert T[k] == T'[k];
        if Address(k, count, order, size, endian) == p {
          AddressInjective(k, |T|, count, order, size, endian);
        }
      }
    }
  }

  lemma LaidAll(s: seq<Byte>, T: seq<Byte>, count: nat, order: int, size: nat, endian: int)
    requires Laid(s, T, count, order, size, endian) && |T| == size * count
    ensures Unlaid(s, count, order, size, endian) == T
  {}

  /** How far the loops have come: the bytes in T are written, `rest` is still in the limbs. */
  ghost predicate Writing(s: seq<Byte>, T: seq<Byte>, count: nat, order: int, size: nat, endian: int, rest: int, x: int) {
    Laid(s, T, count, order, size, endian) && Splits(T, rest, x, 0x100) && 0 <= rest
  }

  lemma WroteByte(s: seq<Byte>, T: seq<Byte>, b: Byte, w: nat, j: nat, count: nat, order: int, size: nat, endian: int,
                  p: int, rest: int, rest': int, x: int)
    requires Writing(s, T, count, order, size, endian, rest, x) && |T| == size * w + j && w < count && j < size
    requires p == WordStart(w, count, order, size) + ByteIn(j, size, endian)
    requires rest == rest' * 0x100 + b && 0 <= rest'
    ensures 0 <= p < size * count && Writing(s[p := b], T + [b], count, order, size, endian, rest', x)
  {
    LayByte(s, T, b, w, j, count, order, size, endian, p);
    SplitDigit(b, rest', rest, 0x100);
    SplitMore(T, [b], rest, rest', x, 0x100);
  }

  /** The bytes of word w. */
  method ExportWord(r: array<Byte>, p0: int, size: nat, endian: int, up: array<Limb>, un: nat, i0: nat, limb0: Limb,
                    bytes0: nat, ghost w: nat, ghost count: nat, ghost order: int, ghost T0: seq<Byte>,
                    ghost rest0: int, ghost x: int)
    returns (p: int, i: nat, limb: Limb, bytes: nat, ghost T: seq<Byte>, ghost rest: int)
    requires un <= up.Length && w < count && (endian == 1 || endian == -1) && |T0| == size * w
    requires Writing(r[..], T0, count, order, size, endian, rest0, x)
    requires Draining(up[..un], i0, limb0, bytes0, rest0)
    requires p0 == WordStart(w, count, order, size) + ByteIn(0, size, endian)
    modifies r
    ensures |T| == size * w + size && Writing(r[..], T, count, order, size, endian, rest, x)
    ensures Draining(up[..un], i, limb, bytes, rest)
    ensures p == WordStart(w, count, order, size) + ByteIn(size, size, endian)
    ensures OnlyChanges(r, 0, size * count)
  {
    p, i, limb, bytes, T, rest := p0, i0, limb0, bytes0, T0, rest0;
    ghost var u := up[..un];
    var j := 0;
    while j < size
      invariant j <= size && |T| == size * w + j
      invariant Writing(r[..], T, count, order, size, endian, rest, x)
      invariant Draining(u, i, limb, bytes, rest)
      invariant p == WordStart(w, count, order, size) + ByteIn(j, size, endian)
      invariant OnlyChanges(r, 0, size * count)
    {
      ghost var s, restIn := r[..], rest;
      var b;
      i, limb, bytes, b, rest := EmitByte(up, un, i, limb, bytes, rest);
      WroteByte(s, T, b, w, j, count, order, size, endian, p, restIn, rest, x);
      r[p] := b;
      assert r[..] == s[p := b];
      T := T + [b];
      p := p - endian;
      j := j + 1;
    }
  }

  /** All words, from the least significant end. */
  method ExportWords(r: array<Byte>, count: nat, order: int, size: nat, endian: int, up: array<Limb>, un: nat)
    requires 0 < size && size * count <= r.Length && un <= up.Length
    requires (order == 1 || order == -1) && (endian == 1 || endian == -1)
    requires 0 <= Val(up[..un]) < Pow(0x100, size * count)
    modifies r
    ensures Meaning(r[..], count, order, size, endian) == Val(up[..un])
    ensures OnlyChanges(r, 0, size * count)
  {
    ghost var x := Val(up[..un]);
    var p, wordStep := StartWalk(count, order, size, endian);
    var limb: Limb, bytes: nat, i: nat := 0, 0, 0;
    ghost var T: seq<Byte>, rest := [], x;
    SplitNothing(x, 0x100);
    assert up[..un][0..] == up[..un];
    var w := 0;
    while w < count
      invariant w <= count && |T| == size * w
      invariant Writing(r[..], T, count, order, size, endian, rest, x)
      invariant Draining(up[..un], i, limb, bytes, rest)
      invariant p == WordStart(w, count, order, size) + ByteIn(0, size, endian)
      invariant OnlyChanges(r, 0, size * count)
    {
      p, i, limb, bytes, T, rest := ExportWord(r, p, size, endian, up, un, i, limb, bytes, w, count, order, T, rest, x);
      MulDist(size, w, 1);
      p := p + wordStep;
      w := w + 1;
    }
    LaidAll(r[..], T, count, order, size, endian);
    RoomLeft(T, rest, x, 0x100, size * count);
  }

  /** The number of bytes in a nonzero limb. */
  method LimbByteCount(top: Limb) returns (k: nat)
    requires top > 0
    ensures 0 < k && Pow(0x100, k - 1) <= top < Pow(0x100, k)
  {
    var limb := top / 0x100;
    k := 1;
    assert Pow(0x100, 0) == 1 && Pow(0x100, 1) == 0x100;
    while limb != 0
      invariant 0 < k && 0 < Pow(0x100, k) && limb == top / Pow(0x100, k) && Pow(0x100, k - 1) <= top
      decreases limb
    {
      DivBounds(top, Pow(0x100, k));
      MulMono(Pow(0x100, k), 1, limb);
      NestedQuotient(top, Pow(0x100, k), 0x100);
      limb := limb / 0x100;
      k := k + 1;
    }
    DivBounds(top, Pow(0x100, k));
  }

  /** Bytes of the top limb, and eight for every other. */
  lemma BytesAbove(u: seq<Limb>, k: nat)
    requires |u| > 0 && k > 0 && Pow(0x100, k - 1) <= u[|u| - 1] < Pow(0x100, k)
    ensures 0 < Val(u) < Pow(0x100, k + LIMB_BYTES * (|u| - 1))
    ensures |Numeral(Val(u), 0x100)| == k + LIMB_BYTES * (|u| - 1)
  {
    var n := |u| - 1;
    LowBound(u, n);
    PwIsPow2(n);
    PowOfPow2(8, LIMB_BYTES * n);
    Pow2Constants();
    PowAdd(0x100, LIMB_BYTES * n, k - 1);
    PowAdd(0x100, LIMB_BYTES * n, k);
    PowPositive(0x100, k - 1);
    WeightedTop(Low(u, n), Pw(n), u[n], Pow(0x100, k - 1), Pow(0x100, k));
    PowPositive(0x100, k - 1 + LIMB_BYTES * n);
    DigitCount(Val(u), 0x100, k + LIMB_BYTES * n);
  }

  /** |u| as whole words, in r or in a new buffer; returns the word count. Only zero has no use for the size. */
  method Export(r0: array?<Byte>, order: int, size: nat, endian: int, host: int, u: Mpz)
    returns (r: array?<Byte>, count: nat)
    requires u.Valid() && (order == 1 || order == -1) && -1 <= endian <= 1 && (host == 1 || host == -1)
    requires 0 < size || u.size == 0
    requires r0 != null && u.size != 0 ==> size * RoundUp(|Numeral(Abs(u.Value()), 0x100)|, size) <= r0.Length
    modifies if r0 != null then {r0} else {}
    ensures u.Valid() && u.Value() == old(u.Value())
    ensures u.Value() == 0 ==> count == 0 && r == r0 && (r != null ==> r[..] == old(r[..]))
    ensures u.Value() != 0 ==>
      && 0 < size && count == RoundUp(|Numeral(Abs(u.Value()), 0x100)|, size)
      && r != null && (if r0 == null then fresh(r) && r.Length == size * count else r == r0)
      && size * count <= r.Length
      && Meaning(r[..], count, order, size, Endianness(endian, host)) == Abs(u.Value())
  {
    var un := Abs(u.size);
    r, count := r0, 0;
    if un != 0 {
      var k := LimbByteCount(u.d[un - 1]);
      BytesAbove(u.d[..un], k);
      count := RoundUp(k + (un - 1) * LIMB_BYTES, size);
      PowMonotone(0x100, k + LIMB_BYTES * (un - 1), size * count);
      if r == null {
        r := new Byte[size * count];
      }
      ExportWords(r, count, order, size, Endianness(endian, host), u.d, un);
    }
  }

  // ---- BigInt ----

  datatype ExportFormat = LittleEndian | BigEndian

  function WordOrder(format: ExportFormat): int {
    if format == BigEndian then 1 else -1
  }

  /** What a byte string of BigInt's means. */
  function BytesValue(s: seq<Byte>, format: ExportFormat): int {
    if format == BigEndian then Digits(s, |s|, 0x100) else Reversed(s, |s|, 0x100)
  }

  /** One byte for zero, otherwise no more bytes than the number needs. */
  method GetExportedSize(u: Mpz) returns (result: nat)
    requires u.Valid()
    ensures result == |Numeral(Abs(u.Value()), 0x100)|
  {
    var n := Abs(u.size);
    if n == 0 {
      return 1;
    }
    result := LIMB_BYTES * (n - 1);
    var k := LimbByteCount(u.d[n - 1]);
    BytesAbove(u.d[..n], k);
    result := result + k;
  }

  lemma AddressInOneWord(t: nat, order: int, size: int)
    requires t < size
    ensures Address(t, 1, order, size, order) == if order == 1 then size - 1 - t else t
  {
    DivModUnique(t, size, 0, t);
    MulAssoc(size, 0, 0);
  }

  lemma UnlaidInOneWord(s: seq<Byte>, format: ExportFormat)
    requires |s| > 0
    ensures InFormat(Unlaid(s, 1, WordOrder(format), |s|, WordOrder(format)), s, format)
  {
    var order := WordOrder(format);
    forall t | 0 <= t < |s| {
      AddressInOneWord(t, order, |s|);
    }
  }

  /** u lists the bytes of s from the least significant. */
  predicate InFormat(u: seq<Byte>, s: seq<Byte>, format: ExportFormat) {
    |u| == |s| && if format == BigEndian then (forall t :: 0 <= t < |s| ==> u[t] == s[|s| - 1 - t]) else u == s
  }

  lemma FormatValue(u: seq<Byte>, s: seq<Byte>, format: ExportFormat)
    requires InFormat(u, s, format)
    ensures Reversed(u, |s|, 0x100) == BytesValue(s, format)
  {
    if format == BigEndian {
      forall i | 0 <= i < |s| ensures s[i] == u[|u| - 1 - i] {
        assert u[|u| - 1 - i] == s[i];
      }
      DigitsOfReverse(s, u, 0x100);
    } else {
      assert u == s;
    }
  }

  /** In a single word the bytes are in the word's byte order. */
  lemma SingleWord(s: seq<Byte>, format: ExportFormat)
    requires |s| > 0
    ensures Meaning(s, 1, WordOrder(format), |s|, WordOrder(format)) == BytesValue(s, format)
  {
    var order := WordOrder(format);
    UnlaidInOneWord(s, format);
    FormatValue(Unlaid(s, 1, order, |s|, order), s, format);
  }

  /** And so they are when every byte is a word. */
  lemma ByteWords(s: seq<Byte>, format: ExportFormat)
    ensures Meaning(s, |s|, WordOrder(format), 1, WordOrder(format)) == BytesValue(s, format)
  {
    var order := WordOrder(format);
    var u := Unlaid(s, |s|, order, 1, order);
    forall t | 0 <= t < |s| ensures u[t] == if format == BigEndian then s[|s| - 1 - t] else s[t] {
      AddressOf(t, 0, |s|, order, 1, order);
    }
    FormatValue(u, s, format);
  }

  lemma RoundUpSelf(n: nat)
    requires 0 < n
    ensures RoundUp(n, n) == 1
  {
    DivModUnique(n + n - 1, n, 1, n - 1);
  }

  /** A byte string of the exported size has no leading zero byte (but for zero itself): it is the shortest form. */
  lemma ShortestForm(s: seq<Byte>, format: ExportFormat, x: nat)
    requires BytesValue(s, format) == x && |s| == |Numeral(x, 0x100)|
    ensures format == BigEndian ==> s == Numeral(x, 0x100)
    ensures format == LittleEndian ==> Mirrors(s, Numeral(x, 0x100))
  {
    if format == BigEndian {
      NumeralByLength(s, x, 0x100);
    } else {
      var t := seq(|s|, i requires 0 <= i < |s| => s[|s| - 1 - i]);
      DigitsOfReverse(t, s, 0x100);
      NumeralByLength(t, x, 0x100);
    }
  }

  /** |u| as a zero-filled byte string of exactly the exported size: its shortest big- or little-endian form. */
  method ExportAsBinaryData(u: Mpz, format: ExportFormat, host: int) returns (data: array<Byte>)
    requires u.Valid() && (host == 1 || host == -1)
    ensures u.Valid() && u.Value() == old(u.Value()) && fresh(data)
    ensures data.Length == |Numeral(Abs(u.Value()), 0x100)|
    ensures BytesValue(data[..], format) == Abs(u.Value())
    ensures format == BigEndian ==> data[..] == Numeral(Abs(u.Value()), 0x100)
    ensures format == LittleEndian ==> Mirrors(data[..], Numeral(Abs(u.Value()), 0x100))
  {
    var size := GetExportedSize(u);
    data := new Byte[size](_ => 0);
    ghost var x := Abs(u.Value());
    RoundUpSelf(size);
    var r, count := Export(data, WordOrder(format), size, WordOrder(format), host, u);
    if x == 0 {
      assert data[..] == [0] && Digits([0], 1, 0x100) == 0 && Reversed([0], 1, 0x100) == 0;
    } else {
      SingleWord(data[..], format);
    }
    ShortestForm(data[..], format, x);
  }

  /** r = the number in data, byte by byte. */
  method SetValueAsBinaryData(r: Mpz, format: ExportFormat, data: array<Byte>, host: int)
    requires host == 1 || host == -1
    modifies r, r.d
    ensures r.Valid() && (r.d == old(r.d) || fresh(r.d))
    ensures r.Value() == BytesValue(data[..], format)
  {
    Import(r, data.Length, WordOrder(format), 1, WordOrder(format), host, data);
    ByteWords(data[..], format);
  }

  /** Exporting and importing again restores the magnitude, in every layout; the sign is not exported. */
  method ExportThenImport(u: Mpz, r: Mpz, order: int, size: nat, endian: int, host: int)
    requires u.Valid() && u != r && r.Apart(u) && (0 < size || u.size == 0)
    requires (order == 1 || order == -1) && -1 <= endian <= 1 && (host == 1 || host == -1)
    modifies r, r.d
    ensures r.Valid() && r.Value() == Abs(old(u.Value()))
  {
    ghost var x := u.Value();
    var bytes, count := Export(null, order, size, endian, host, u);
    if bytes == null {
      bytes := new Byte[0];
    }
    Import(r, count, order, size, endian, host, bytes);
    assert count == 0 ==> r.Value() == 0;
  }
}
