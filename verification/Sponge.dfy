/**
 The sponge of section 4 of FIPS 202 on bytes, for any permutation f of the state, with the
 padding in the byte form of its appendix B.2, and the hash function of keccak-tiny built on it.
 */
module Sponge {
  import Arith
  import opened KeccakF
  import opened KeccakBytes

  /** 0x80: the final bit of the padding, in a byte. */
  function FinalBit(): Octet {
    [false, false, false, false, false, false, false, true]
  }

  // ---- the sponge (section 4) ----

  /** A block added to the first bytes of a state. */
  function XorBlock(s: Bytes, block: seq<Octet>): Bytes {
    seq(STATE_BYTES, k requires 0 <= k < STATE_BYTES => if k < |block| then XorOctets(s[k], block[k]) else s[k])
  }

  function Absorb(f: Bytes -> Bytes, s: Bytes, m: seq<Octet>, rate: nat): Bytes
    requires 0 < rate
    decreases |m|
  {
    if |m| < rate then s else Absorb(f, f(XorBlock(s, m[..rate])), m[rate..], rate)
  }

  function Squeeze(f: Bytes -> Bytes, s: Bytes, n: nat, rate: nat): (z: seq<Octet>)
    requires 0 < rate <= STATE_BYTES
    ensures |z| == n
    decreases n
  {
    if n <= rate then s[..n] else s[..rate] + Squeeze(f, f(s), n - rate, rate)
  }

  /** The domain separation bits and the padding that complete the last block (appendix B.2). */
  function Padding(length: nat, rate: nat, delim: Octet): seq<Octet>
    requires 0 < rate
  {
    var q := rate - length % rate;
    seq(q, k requires 0 <= k < q => PaddingByte(k, q, delim))
  }

  function PaddingByte(k: nat, q: nat, delim: Octet): Octet {
    XorOctets(if k == 0 then delim else ZeroOctet(), if k + 1 == q then FinalBit() else ZeroOctet())
  }

  function ZeroState(): Bytes {
    seq(STATE_BYTES, k => ZeroOctet())
  }

  /** n bytes of the sponge's output for message m. */
  function Hash(f: Bytes -> Bytes, m: seq<Octet>, n: nat, rate: nat, delim: Octet): (z: seq<Octet>)
    requires 0 < rate <= STATE_BYTES
    ensures |z| == n
  {
    Squeeze(f, Absorb(f, ZeroState(), m + Padding(|m|, rate, delim), rate), n, rate)
  }

  // ---- the padding is unambiguous ----

  lemma XorTwice(a: Octet, b: Octet)
    ensures XorOctets(XorOctets(a, b), b) == a
  {}

  lemma XorZero8(a: Octet)
    ensures XorOctets(a, ZeroOctet()) == a && XorOctets(ZeroOctet(), a) == a
  {}

  /** Byte t of a padded message, counted from its end. */
  lemma PaddedByte(m: seq<Octet>, rate: nat, delim: Octet, t: nat)
    requires 0 < rate && |m| <= t < |m + Padding(|m|, rate, delim)|
    ensures var p := m + Padding(|m|, rate, delim);
      p[t] == if t + 1 == |p| then XorOctets(if t == |m| then delim else ZeroOctet(), FinalBit())
              else if t == |m| then delim else ZeroOctet()
  {
    XorZero8(delim);
    XorZero8(ZeroOctet());
  }

  /** Padded messages are equal only when the messages and their domains are. */
  lemma PaddingInjective(m: seq<Octet>, m': seq<Octet>, rate: nat, delim: Octet, delim': Octet)
    requires 0 < rate && delim != ZeroOctet() && delim' != ZeroOctet()
    requires m + Padding(|m|, rate, delim) == m' + Padding(|m'|, rate, delim')
    ensures m == m' && delim == delim'
  {
    var p := m + Padding(|m|, rate, delim);
    if |m| < |m'| {
      PaddingInjectiveLength(m', m, rate, delim', delim);
    } else if |m'| < |m| {
      PaddingInjectiveLength(m, m', rate, delim, delim');
    } else {
      PaddedByte(m, rate, delim, |m|);
      PaddedByte(m', rate, delim', |m|);
      XorTwice(delim, FinalBit());
      XorTwice(delim', FinalBit());
      assert m == p[..|m|] && m' == p[..|m|];
    }
  }

  /** The delimiter of the longer message cannot meet the zeros after that of the shorter. */
  lemma PaddingInjectiveLength(m: seq<Octet>, m': seq<Octet>, rate: nat, delim: Octet, delim': Octet)
    requires 0 < rate && delim != ZeroOctet() && |m'| < |m|
    ensures m + Padding(|m|, rate, delim) != m' + Padding(|m'|, rate, delim')
  {
    var p, p' := m + Padding(|m|, rate, delim), m' + Padding(|m'|, rate, delim');
    if |p| == |p'| {
      PaddedByte(m, rate, delim, |m|);
      PaddedByte(m', rate, delim', |m|);
      XorTwice(delim, FinalBit());
      XorTwice(ZeroOctet(), FinalBit());
      assert p[|m|] != p'[|m|];
    }
  }

  // ---- hash ----

  /** f is the permutation; the proofs that follow need to know that only where it is applied. */
  ghost predicate IsPermute(f: Bytes -> Bytes) {
    forall s: Bytes {:trigger Permute(s)} :: Permute(s) == f(s)
  }

  /** P on the state. */
  method ApplyInPlace(ghost f: Bytes -> Bytes, a: array<Octet>)
    requires a.Length == STATE_BYTES && IsPermute(f)
    modifies a
    ensures a[..] == f(old(a[..]))
  {
    P(a);
  }

  /** xorin: the first len bytes of a += src[so..so + len]. */
  method XorIn(a: array<Octet>, src: array<Octet>, so: nat, len: nat)
    requires a.Length == STATE_BYTES && len <= STATE_BYTES && so + len <= src.Length && a != src
    modifies a
    ensures a[..] == XorBlock(old(a[..]), src[so..so + len])
  {
    ghost var s: Bytes := a[..];
    for i := 0 to len
      invariant forall k :: 0 <= k < STATE_BYTES ==> a[k] == if k < i then XorOctets(s[k], src[so + k]) else s[k]
    {
      a[i] := XorOctets(a[i], src[so + i]);
    }
    assert a[..] == XorBlock(s, src[so..so + len]);
  }

  /** setout: out[oo..oo + len] = the first len bytes of a. */
  method SetOut(a: array<Octet>, out: array<Octet>, oo: nat, len: nat)
    requires a.Length == STATE_BYTES && len <= STATE_BYTES && oo + len <= out.Length && a != out
    modifies out
    ensures out[oo..oo + len] == a[..len]
    ensures forall k :: (0 <= k < oo || oo + len <= k) && k < out.Length ==> out[k] == old(out[k])
  {
    for i := 0 to len
      invariant forall k :: oo <= k < oo + i ==> out[k] == a[k - oo]
      invariant forall k :: (0 <= k < oo || oo + len <= k) && k < out.Length ==> out[k] == old(out[k])
    {
      out[oo + i] := a[i];
    }
  }

  lemma AbsorbBlock(f: Bytes -> Bytes, s: Bytes, m: seq<Octet>, tail: seq<Octet>, rate: nat)
    requires 0 < rate <= |m|
    ensures Absorb(f, s, m + tail, rate) == Absorb(f, f(XorBlock(s, m[..rate])), m[rate..] + tail, rate)
  {
    assert (m + tail)[..rate] == m[..rate] && (m + tail)[rate..] == m[rate..] + tail;
  }

  /** One full block of the input m. */
  method AbsorbOne(ghost f: Bytes -> Bytes, a: array<Octet>, src: array<Octet>, so: nat, rate: nat,
                    ghost m: seq<Octet>, ghost tail: seq<Octet>)
    requires IsPermute(f) && a.Length == STATE_BYTES && a != src && 0 < rate < STATE_BYTES
    requires so + rate <= |m| <= src.Length && m == src[..|m|]
    modifies a
    ensures Absorb(f, old(a[..]), m[so..] + tail, rate) == Absorb(f, a[..], m[so + rate..] + tail, rate)
  {
    AbsorbBlock(f, a[..], m[so..], tail, rate);
    assert m[so..][..rate] == src[so..so + rate] && m[so..][rate..] == m[so + rate..];
    XorIn(a, src, so, rate);
    ApplyInPlace(f, a);
  }

  /** The length of the input's last, incomplete block. */
  function LeftOver(n: nat, rate: nat): nat
    requires 0 < rate
    decreases n
  {
    if n < rate then n else LeftOver(n - rate, rate)
  }

  lemma {:induction false} LeftOverIsModulo(n: nat, rate: nat)
    requires 0 < rate
    ensures LeftOver(n, rate) == n % rate
    decreases n
  {
    if n < rate {
      SmallMod(n, rate);
    } else {
      LeftOverIsModulo(n - rate, rate);
      LessMod(n, rate);
    }
  }

  /** The full blocks of the input m. */
  method AbsorbBlocks(ghost f: Bytes -> Bytes, a: array<Octet>, src: array<Octet>, rate: nat, ghost m: seq<Octet>,
                      ghost tail: seq<Octet>, inlen: nat) returns (so: nat, left: nat)
    requires IsPermute(f) && a.Length == STATE_BYTES && a != src && 0 < rate < STATE_BYTES
    requires inlen == |m| <= src.Length && m == src[..|m|]
    modifies a
    ensures so + left == inlen && left == LeftOver(inlen, rate) < rate
    ensures Absorb(f, old(a[..]), m[0..] + tail, rate) == Absorb(f, a[..], m[so..] + tail, rate)
  {
    so, left := 0, inlen;
    while left >= rate
      invariant so + left == inlen && LeftOver(left, rate) == LeftOver(inlen, rate)
      invariant Absorb(f, old(a[..]), m[0..] + tail, rate) == Absorb(f, a[..], m[so..] + tail, rate)
    {
      AbsorbOne(f, a, src, so, rate, m, tail);
      so := so + rate;
      left := left - rate;
    }
  }

  lemma LessMod(x: int, r: int)
    requires 0 < r
    ensures (x - r) % r == x % r
  {
    var q := x / r;
    assert x - r == (q - 1) * r + x % r;
    Arith.DivModUnique(x - r, r, q - 1, x % r);
  }

  lemma SmallMod(x: int, r: int)
    requires 0 <= x < r
    ensures x % r == x
  {
    Arith.DivModUnique(x, r, 0, x);
  }

  /** The last block: what is left of the input, the delimiter after it, the final bit in the last byte of the rate. */
  method LastBlock(ghost f: Bytes -> Bytes, a: array<Octet>, src: array<Octet>, so: nat, left: nat, rate: nat,
                   delim: Octet)
    requires IsPermute(f) && a.Length == STATE_BYTES && a != src && so + left <= src.Length && left < rate < STATE_BYTES
    modifies a
    ensures a[..] == Absorb(f, old(a[..]), src[so..so + left] + Padding(left, rate, delim), rate)
  {
    ghost var s: Bytes := a[..];
    ghost var block := src[so..so + left] + Padding(left, rate, delim);
    SmallMod(left, rate);
    a[left] := XorOctets(a[left], delim);
    a[rate - 1] := XorOctets(a[rate - 1], FinalBit());
    ghost var t: Bytes := a[..];
    XorIn(a, src, so, left);
    LastBlockBytes(s, t, src[so..so + left], rate, delim);
    ApplyInPlace(f, a);
    assert block[..rate] == block && block[rate..] == [];
  }

  lemma XorAssoc(a: Octet, b: Octet, c: Octet)
    ensures XorOctets(XorOctets(a, b), c) == XorOctets(a, XorOctets(b, c))
  {}

  lemma LastBlockBytes(s: Bytes, t: Bytes, m: seq<Octet>, rate: nat, delim: Octet)
    requires |m| < rate < STATE_BYTES
    requires forall k :: 0 <= k < STATE_BYTES ==>
      (t[k] == XorOctets(XorOctets(s[k], if k == |m| then delim else ZeroOctet()),
                         if k == rate - 1 then FinalBit() else ZeroOctet()))
    ensures XorBlock(t, m) == XorBlock(s, m + Padding(|m|, rate, delim))
  {
    SmallMod(|m|, rate);
    var block := m + Padding(|m|, rate, delim);
    forall k | 0 <= k < STATE_BYTES ensures XorBlock(t, m)[k] == XorBlock(s, block)[k] {
      XorZero8(s[k]);
      if |m| <= k < rate {
        XorAssoc(s[k], if k == |m| then delim else ZeroOctet(), if k == rate - 1 then FinalBit() else ZeroOctet());
        assert block[k] == PaddingByte(k - |m|, rate - |m|, delim);
      }
    }
  }

  // ---- squeezing ----

  /** The source permutes once more after a full last block of output; the output is the same. */
  lemma SqueezeBlock(f: Bytes -> Bytes, s: Bytes, n: nat, rate: nat)
    requires 0 < rate <= n && rate <= STATE_BYTES
    ensures Squeeze(f, s, n, rate) == s[..rate] + Squeeze(f, f(s), n - rate, rate)
  {}

  /** The first oo bytes of z are written, and the rest is what the state still yields. */
  ghost predicate Squeezed(f: Bytes -> Bytes, s: Bytes, done: seq<Octet>, left: nat, rate: nat, z: seq<Octet>)
    requires 0 < rate <= STATE_BYTES
  {
    z == done + Squeeze(f, s, left, rate)
  }

  /** outlen bytes of output. */
  method SqueezeBlocks(ghost f: Bytes -> Bytes, a: array<Octet>, out: array<Octet>, outlen: nat, rate: nat)
    requires IsPermute(f) && a.Length == STATE_BYTES && a != out && outlen <= out.Length && 0 < rate < STATE_BYTES
    modifies a, out
    ensures out[..outlen] == Squeeze(f, old(a[..]), outlen, rate)
    ensures out[outlen..] == old(out[outlen..])
  {
    ghost var z, tail := Squeeze(f, a[..], outlen, rate), out[outlen..];
    assert out[..0] + z == z;
    var oo: nat, left: nat := 0, outlen;
    while left >= rate
      invariant oo + left == outlen
      invariant Squeezed(f, a[..], out[..oo], left, rate, z)
      invariant out[outlen..] == tail
    {
      SqueezeOne(f, a, out, oo, left, rate, z);
      oo := oo + rate;
      left := left - rate;
    }
    SqueezeLast(f, a, out, oo, left, rate, z);
  }

  /** One full block of output. */
  method SqueezeOne(ghost f: Bytes -> Bytes, a: array<Octet>, out: array<Octet>, oo: nat, left: nat, rate: nat,
                    ghost z: seq<Octet>)
    requires IsPermute(f) && a.Length == STATE_BYTES && a != out
    requires oo + left <= out.Length && 0 < rate < STATE_BYTES && rate <= left
    requires Squeezed(f, a[..], out[..oo], left, rate, z)
    modifies a, out
    ensures Squeezed(f, a[..], out[..oo + rate], left - rate, rate, z)
    ensures out[oo + left..] == old(out[oo + left..])
  {
    SqueezeBlock(f, a[..], left, rate);
    ghost var done := out[..oo];
    SetOut(a, out, oo, rate);
    assert out[..oo + rate] == done + out[oo..oo + rate];
    ApplyInPlace(f, a);
  }

  /** What is left when no full block remains. */
  method SqueezeLast(ghost f: Bytes -> Bytes, a: array<Octet>, out: array<Octet>, oo: nat, left: nat, rate: nat,
                     ghost z: seq<Octet>)
    requires a.Length == STATE_BYTES && a != out && oo + left <= out.Length && left < rate < STATE_BYTES
    requires Squeezed(f, a[..], out[..oo], left, rate, z)
    modifies out
    ensures out[..oo + left] == z
    ensures out[oo + left..] == old(out[oo + left..])
  {
    ghost var done := out[..oo];
    SetOut(a, out, oo, left);
    assert out[..oo + left] == done + out[oo..oo + left];
  }

  // ---- hash and its instances ----

  /** A message, which may be absent when it is empty. */
  ghost function Message(src: array?<Octet>, inlen: nat): seq<Octet>
    reads if src != null then {src} else {}
    requires src != null ==> inlen <= src.Length
  {
    if src == null then [] else src[..inlen]
  }

  predicate Rejected(out: array?<Octet>, src: array?<Octet>, inlen: nat, rate: nat) {
    out == null || (src == null && inlen != 0) || rate >= STATE_BYTES
  }

  method HashInto(out: array?<Octet>, outlen: nat, src: array?<Octet>, inlen: nat, rate: nat, delim: Octet)
    returns (ret: int)
    requires 0 < rate && (out != null ==> outlen <= out.Length) && (src != null ==> inlen <= src.Length)
    modifies if out != null then {out} else {}
    ensures ret == if Rejected(out, src, inlen, rate) then -1 else 0
    ensures ret == -1 && out != null ==> out[..] == old(out[..])
    ensures ret == 0 ==> out[..outlen] == Hash(Permute, old(Message(src, inlen)), outlen, rate, delim)
    ensures ret == 0 ==> out[outlen..] == old(out[outlen..])
  {
    if out == null || (src == null && inlen != 0) || rate >= STATE_BYTES {
      return -1;
    }
    var a := new Octet[STATE_BYTES](i => ZeroOctet());
    var message: array<Octet>;
    if src == null {
      message := new Octet[0];
    } else {
      message := src;
    }
    AbsorbMessage(Permute, a, message, inlen, rate, delim);
    SqueezeBlocks(Permute, a, out, outlen, rate);
    ret := 0;
  }

  /** The whole message, padded. */
  method AbsorbMessage(ghost f: Bytes -> Bytes, a: array<Octet>, src: array<Octet>, inlen: nat, rate: nat, delim: Octet)
    requires IsPermute(f) && a.Length == STATE_BYTES && a != src && inlen <= src.Length && 0 < rate < STATE_BYTES
    requires a[..] == ZeroState()
    modifies a
    ensures a[..] == Absorb(f, ZeroState(), src[..inlen] + Padding(inlen, rate, delim), rate)
  {
    ghost var tail := Padding(inlen, rate, delim);
    ghost var m := src[..inlen];
    var so, left := AbsorbBlocks(f, a, src, rate, m, tail, inlen);
    LeftOverIsModulo(inlen, rate);
    SmallMod(left, rate);
    assert Padding(left, rate, delim) == tail;
    assert m[0..] == m && m[so..] == src[so..so + left];
    LastBlock(f, a, src, so, left, rate, delim);
  }
}
