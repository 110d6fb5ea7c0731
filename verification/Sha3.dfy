/** The SHA3, SHAKE and Keccak functions of keccak-tiny, against section 6 of FIPS 202. */
module Sha3 {
  import opened KeccakBytes
  import opened KeccakF
  import opened Sponge
  import opened SpongeBits

  const SHA3_DELIM: Octet := [false, true, true, false, false, false, false, false]     // 0x06
  const SHAKE_DELIM: Octet := [true, true, true, true, true, false, false, false]       // 0x1f
  const KECCAK_DELIM: Octet := [true, false, false, false, false, false, false, false]  // 0x01

  const SHA3_SUFFIX: Bits := [false, true]
  const SHAKE_SUFFIX: Bits := [true, true, true, true]
  const NO_SUFFIX: Bits := []

  /** The digests that are made: their lengths in bits, and the strengths of the extendable outputs. */
  const LENGTHS: set<nat> := {224, 256, 384, 512}
  const STRENGTHS: set<nat> := {128, 256}

  /** A byte as a number. */
  function Number(o: Octet): nat {
    One(o[0]) + 2 * One(o[1]) + 4 * One(o[2]) + 8 * One(o[3])
    + 16 * One(o[4]) + 32 * One(o[5]) + 64 * One(o[6]) + 128 * One(o[7])
  }

  /** The delimiters say what the standard appends. */
  lemma Delimiters()
    ensures Delimits(SHA3_DELIM, SHA3_SUFFIX) && Delimits(SHAKE_DELIM, SHAKE_SUFFIX)
    ensures Delimits(KECCAK_DELIM, NO_SUFFIX)
    ensures Number(SHA3_DELIM) == 0x06 && Number(SHAKE_DELIM) == 0x1f && Number(KECCAK_DELIM) == 0x01
  {
    assert SHA3_DELIM == [false, true, true, false, false, false, false, false];
    assert SHAKE_DELIM == [true, true, true, true, true, false, false, false];
    assert KECCAK_DELIM == [true, false, false, false, false, false, false, false];
    assert |SHA3_SUFFIX| == 2 && |SHAKE_SUFFIX| == 4 && |NO_SUFFIX| == 0;
  }

  predicate Readable(out: array?<Octet>, src: array?<Octet>, inlen: nat) {
    out != null && (src != null || inlen == 0)
  }

  /** hash with the permutation in its place: a capacity of twice `bits`. */
  method Keccakc(bits: nat, delim: Octet, ghost suffix: Bits, out: array?<Octet>, outlen: nat, src: array?<Octet>,
                 inlen: nat)
    returns (ret: int)
    requires 8 <= bits <= 512 && bits % 4 == 0 && Delimits(delim, suffix)
    requires (out != null ==> outlen <= out.Length) && (src != null ==> inlen <= src.Length)
    modifies if out != null then {out} else {}
    ensures ret == if Readable(out, src, inlen) then 0 else -1
    ensures ret == 0 ==> Flat(out[..outlen]) == KeccakC(2 * bits, Flat(old(Message(src, inlen))) + suffix, 8 * outlen)
    ensures out != null ==> if ret == 0 then out[outlen..] == old(out[outlen..]) else out[..] == old(out[..])
  {
    ghost var m := Message(src, inlen);
    var rate := STATE_BYTES - bits / 4;
    ret := HashInto(out, outlen, src, inlen, rate, delim);
    PermuteLifts();
    HashIsSponge(Permute, KeccakP, m, outlen, rate, delim, suffix);
    assert 8 * rate == WIDTH - 2 * bits;
  }

  /** sha3_224 to sha3_512: SHA3(M) = KECCAK[2 * bits](M || 01, bits), or the beginning of it (section 6.1). */
  method Sha3(bits: nat, out: array?<Octet>, outlen: nat, src: array?<Octet>, inlen: nat) returns (ret: int)
    requires bits in LENGTHS && (out != null ==> outlen <= out.Length) && (src != null ==> inlen <= src.Length)
    modifies if out != null then {out} else {}
    ensures ret == if outlen <= bits / 8 && Readable(out, src, inlen) then 0 else -1
    ensures ret == 0 ==>
      Flat(out[..outlen]) == KeccakC(2 * bits, Flat(old(Message(src, inlen))) + SHA3_SUFFIX, bits)[..8 * outlen]
    ensures out != null ==> if ret == 0 then out[outlen..] == old(out[outlen..]) else out[..] == old(out[..])
  {
    if outlen > bits / 8 {
      return -1;
    }
    Delimiters();
    ghost var n := Flat(Message(src, inlen)) + SHA3_SUFFIX;
    ret := Keccakc(bits, SHA3_DELIM, SHA3_SUFFIX, out, outlen, src, inlen);
    Truncated(2 * bits, n, 8 * outlen, bits);
  }

  /** keccak_256, as it was before the standard: no suffix. */
  method Keccak(bits: nat, out: array?<Octet>, outlen: nat, src: array?<Octet>, inlen: nat) returns (ret: int)
    requires bits in LENGTHS && (out != null ==> outlen <= out.Length) && (src != null ==> inlen <= src.Length)
    modifies if out != null then {out} else {}
    ensures ret == if outlen <= bits / 8 && Readable(out, src, inlen) then 0 else -1
    ensures ret == 0 ==> Flat(out[..outlen]) == KeccakC(2 * bits, Flat(old(Message(src, inlen))), bits)[..8 * outlen]
    ensures out != null ==> if ret == 0 then out[outlen..] == old(out[outlen..]) else out[..] == old(out[..])
  {
    if outlen > bits / 8 {
      return -1;
    }
    Delimiters();
    ghost var n := Flat(Message(src, inlen));
    assert n + NO_SUFFIX == n;
    ret := Keccakc(bits, KECCAK_DELIM, NO_SUFFIX, out, outlen, src, inlen);
    Truncated(2 * bits, n, 8 * outlen, bits);
  }

  /** shake128 and shake256: SHAKE(M, d) = KECCAK[2 * bits](M || 1111, d) for every length (section 6.2). */
  method Shake(bits: nat, out: array?<Octet>, outlen: nat, src: array?<Octet>, inlen: nat) returns (ret: int)
    requires bits in STRENGTHS && (out != null ==> outlen <= out.Length) && (src != null ==> inlen <= src.Length)
    modifies if out != null then {out} else {}
    ensures ret == if Readable(out, src, inlen) then 0 else -1
    ensures ret == 0 ==>
      Flat(out[..outlen]) == KeccakC(2 * bits, Flat(old(Message(src, inlen))) + SHAKE_SUFFIX, 8 * outlen)
    ensures out != null ==> if ret == 0 then out[outlen..] == old(out[outlen..]) else out[..] == old(out[..])
  {
    Delimiters();
    ret := Keccakc(bits, SHAKE_DELIM, SHAKE_SUFFIX, out, outlen, src, inlen);
  }

  lemma Truncated(c: nat, n: Bits, d: nat, e: nat)
    requires c < WIDTH && d <= e
    ensures KeccakC(c, n, d) == KeccakC(c, n, e)[..d]
  {
    var r := WIDTH - c;
    SqueezePrefix(KeccakP, AbsorbBits(KeccakP, ZeroBits(WIDTH), n + Pad101(r, |n|), r), d, e, r);
  }
}
