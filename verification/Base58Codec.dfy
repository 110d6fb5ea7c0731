/**
 base58_decode, wally_base58_from_bytes and wally_base58_to_bytes: two bignum conversions in
 buffers whose sizes come from estimates of logarithms, with or without a checksum.
 */
module Base58Codec {
  import opened Arith
  import opened Powers
  import opened Numerals
  import opened Radix
  import opened BaseOut
  import opened Mpn
  import opened Wrappers
  import opened Base58

  // ---- the buffers are large enough ----

  /** Six bits for a digit, rounded up to bytes and then to words. */
  function WordsFor(n: nat): nat {
    ((n * 6 + 7) / 8 + 3) / 4
  }

  lemma WordsSuffice(n: nat)
    ensures Pow(58, n) <= Pow(W, WordsFor(n)) && (n > 0 ==> 0 < WordsFor(n))
  {
    var k := WordsFor(n);
    PowBaseMonotone(58, 0x40, n);
    assert Pow2(6) == 0x40;
    PowOfPow2(6, n);
    PowOfPow2(32, k);
    Pow2Constants();
    Pow2Monotone(6 * n, 32 * k);
  }

  /** log 256 / log 58, rounded up. */
  function BytesFor(n: nat): nat {
    n * 138 / 100 + 1
  }

  /** 58^7 exceeds 2^41, and 41 BytesFor(n) is at least 56 n. */
  lemma BytesSuffice(n: nat)
    ensures Pow(0x100, n) <= Pow(58, BytesFor(n))
  {
    var e := BytesFor(n);
    if Pow(58, e) < Pow(0x100, n) {
      PowPositive(58, e);
      PowStrict(Pow(58, e), Pow(0x100, n), 7);
      SeventhPowers(n, e);
    }
  }

  lemma SeventhPowers(n: nat, e: nat)
    requires 56 * n <= 41 * e
    ensures Pow(Pow(0x100, n), 7) <= Pow(Pow(58, e), 7)
  {
    PowPow(0x100, n, 7);
    assert Pow2(8) == 0x100 by { Pow2Constants(); }
    PowOfPow2(8, n * 7);
    PowPow(58, e, 7);
    PowPow(58, 7, e);
    SeventhOf58();
    PowBaseMonotone(Pow2(41), Pow(58, 7), e);
    PowOfPow2(41, e);
    Pow2Monotone(56 * n, 41 * e);
  }

  lemma SeventhOf58()
    ensures Pow2(41) <= Pow(58, 7)
  {
    Pow2Add(32, 9);
    Pow2Constants();
    assert Pow2(9) == 0x200;
    assert Pow(58, 3) == 195112;
    PowAdd(58, 3, 3);
    assert Pow(58, 7) == 58 * Pow(58, 6);
  }

  // ---- decoding ----

  /** One word times 58, plus the carry. */
  method OneWord(bn: array<Word32>, p: nat, byte0: Byte, ghost S: seq<Word32>, ghost c: Byte) returns (byte: Byte)
    requires 0 < p <= bn.Length == |S| && byte0 < 58 && S[..p] == bn[..p]
    requires Multiplied(S, bn[..], p, W, 58, c, byte0)
    modifies bn
    ensures byte < 58 && S[..p - 1] == bn[..p - 1]
    ensures Multiplied(S, bn[..], p - 1, W, 58, c, byte)
  {
    assert S[..p][p - 1] == bn[..p][p - 1];
    var mult := bn[p - 1] * 58 + byte0;
    var low: Word32 := mult % W;
    byte := mult / W % 0x100;
    ghost var t := bn[..];
    MultiplyStep(S, t, p, W, 58, c, byte0, low, byte);
    bn[p - 1] := low;
    assert bn[..] == t[p - 1 := low];
    assert S[..p - 1] == S[..p][..p - 1] && t[..p - 1] == t[..p][..p - 1];
  }

  /** bn = 58 bn + byte on the words in use; one more comes into use when it overflows. */
  method AddDigit(bn: array<Word32>, top0: nat, byte0: Byte) returns (top: nat)
    requires top0 < bn.Length && byte0 < 58
    requires 58 * Suffix(bn[..], top0, W) + byte0 < Pow(W, bn.Length)
    modifies bn
    ensures top <= top0 && Suffix(bn[..], top, W) == 58 * old(Suffix(bn[..], top0, W)) + byte0
  {
    ghost var S := bn[..];
    top := top0;
    var byte := byte0;
    var p: nat := bn.Length;  // one past bn_p
    MultiplyStart(S, S, W, 58, byte0);
    while p > top
      invariant top0 == top <= p <= bn.Length && byte < 58 && (p == top ==> byte == 0)
      invariant Multiplied(S, bn[..], p, W, 58, byte0, byte) && S[..p] == bn[..p]
    {
      byte := OneWord(bn, p, byte, S, byte0);
      p := p - 1;
      if byte != 0 && p == top {
        RoomAbove(S, bn[..], p, W, 58, byte0, byte);
        LeadingCarry(S, bn[..], p, W, 58, byte0, byte);
        ghost var t := bn[..];
        top := top - 1;
        bn[top] := byte;
        assert bn[..] == t[top := byte as Word32];
        return;
      }
    }
    NoCarry(S, bn[..], p, W, 58, byte0);
  }

  method CountLeading(s: seq<Byte>, c: Byte) returns (n: nat)
    ensures n == Leading(s, c)
  {
    n := 0;
    assert s[0..] == s;
    while n < |s| && s[n] == c
      invariant n <= |s| && Leading(s, c) == n + Leading(s[n..], c)
    {
      assert s[n..][1..] == s[n + 1..];
      n := n + 1;
    }
  }

  /** The number the characters r stand for, in 32-bit words; fails at a character outside the alphabet. */
  method ToWords(r: seq<Byte>) returns (ok: bool, bn: array<Word32>, top: nat)
    requires r != []
    ensures fresh(bn) && top < bn.Length
    ensures ok <==> AllValid(r)
    ensures ok ==> Suffix(bn[..], top, W) == Value58(r)
  {
    WordsSuffice(|r|);
    bn := new Word32[WordsFor(|r|)];
    top := bn.Length - 1;
    bn[top] := 0;
    assert Suffix(bn[..], top + 1, W) == 0;
    ghost var ds := DigitsOf(r);
    var i := 0;
    while i < |r|
      invariant i <= |r| && top < bn.Length && AllValid(r[..i])
      invariant Suffix(bn[..], top, W) == Digits(ds, i, 58)
    {
      var byte := FromChar(r[i]);
      if byte == 0 {
        return false, bn, top;
      }
      byte := byte - 1;
      NextFits(ds, i, 58, Pow(W, bn.Length));
      top := AddDigit(bn, top, byte);
      i := i + 1;
    }
    ok := true;
  }

  /** Every intermediate number is below the bound for the final one. */
  lemma NextFits(ds: seq<Byte>, i: nat, b: int, bound: int)
    requires i < |ds| && 1 <= b && AllBelow(ds, b) && Pow(b, |ds|) <= bound
    ensures b * Digits(ds, i, b) + ds[i] < bound
  {
    DigitsBound(ds, i + 1, b);
    PowMonotone(b, i + 1, |ds|);
    BelowBound(Digits(ds, i, b), b, ds[i], Digits(ds, i + 1, b), bound);
  }

  lemma BelowBound(h: int, b: int, d: int, n: int, bound: int)
    requires n == h * b + d < bound
    ensures b * h + d < bound
  {}

  /** The words in use as bytes, most significant first. */
  method WordsToBytes(bn: array<Word32>, top: nat) returns (cp: array<Byte>)
    requires top < bn.Length
    ensures fresh(cp) && Digits(cp[..], cp.Length, 0x100) == Suffix(bn[..], top, W)
  {
    cp := new Byte[4 * (bn.Length - top)];
    ghost var s: seq<int> := bn[..];
    var p := top;
    while p < bn.Length
      invariant top <= p <= bn.Length && bn[..] == s
      invariant Digits(cp[..], 4 * (p - top), 0x100) * Pow(W, bn.Length - p) + Suffix(s, p, W) == Suffix(s, top, W)
    {
      var j, w := 4 * (p - top), bn[p];
      ghost var before := cp[..];
      cp[j] := w / 0x100_0000;
      cp[j + 1] := w / 0x1_0000 % 0x100;
      cp[j + 2] := w / 0x100 % 0x100;
      cp[j + 3] := w % 0x100;
      FourBytes(before, cp[..], j, w);
      NextWordUp(Digits(before, j, 0x100), w, Pow(W, bn.Length - 1 - p));
      p := p + 1;
    }
  }

  lemma FourBytes(before: seq<Byte>, s: seq<Byte>, j: nat, w: Word32)
    requires |before| == |s| && j + 4 <= |s| && forall k :: 0 <= k < j ==> s[k] == before[k]
    requires s[j] == w / 0x100_0000 && s[j + 1] == w / 0x1_0000 % 0x100
    requires s[j + 2] == w / 0x100 % 0x100 && s[j + 3] == w % 0x100
    ensures Digits(s, j + 4, 0x100) == Digits(before, j, 0x100) * W + w
  {
    DigitsAgree(before, s, j, 0x100);
    WordOfBytes(w, s[j], s[j + 1], s[j + 2], s[j + 3]);
    assert Digits(s, j + 1, 0x100) == Digits(s, j, 0x100) * 0x100 + s[j];
    assert Digits(s, j + 2, 0x100) == Digits(s, j + 1, 0x100) * 0x100 + s[j + 1];
    assert Digits(s, j + 3, 0x100) == Digits(s, j + 2, 0x100) * 0x100 + s[j + 2];
  }

  lemma WordOfBytes(w: Word32, a: int, b: int, c: int, d: int)
    requires a == w / 0x100_0000 && b == w / 0x1_0000 % 0x100 && c == w / 0x100 % 0x100 && d == w % 0x100
    ensures w == a * 0x100_0000 + b * 0x1_0000 + c * 0x100 + d
  {
    assert w / 0x1_0000 == (w / 0x100) / 0x100 && w / 0x100_0000 == (w / 0x1_0000) / 0x100;
  }

  lemma NextWordUp(d: int, w: int, p: int)
    ensures (d * W + w) * p == d * (W * p) + w * p
  {
    MulDist(p, d * W, w);
    MulAssoc(d, W, p);
  }

  /** Skipping the zero bytes before a positive number. */
  method SkipZeros(cp: array<Byte>) returns (k: nat)
    requires 0 < Digits(cp[..], cp.Length, 0x100)
    ensures k < cp.Length && cp[k..] == Numeral(Digits(cp[..], cp.Length, 0x100), 0x100)
  {
    ghost var v := Digits(cp[..], cp.Length, 0x100);
    k := 0;
    assert cp[0..] == cp[..];
    while cp[k] == 0
      invariant k < cp.Length && Digits(cp[k..], cp.Length - k, 0x100) == v
      decreases cp.Length - k
    {
      DigitsTail(cp[k..], cp.Length - k, 0x100);
      assert cp[k..][1..] == cp[k + 1..];
      k := k + 1;
    }
    NumeralUnique(cp[k..], v, 0x100);
  }

  /**
   The bytes of a string, if it has any. `len` is the room in bytesOut on entry; the length needed
   is returned, and nothing is written when it exceeds the room.
   */
  method Decode(base58: seq<Byte>, bytesOut: array?<Byte>, len0: nat) returns (ok: bool, len: nat)
    requires bytesOut != null ==> len0 <= bytesOut.Length
    modifies if bytesOut != null then {bytesOut} else {}
    ensures ok <==> Decoded(base58).Some?
    ensures len == if ok then |Decoded(base58).value| else len0
    ensures bytesOut != null ==>
      bytesOut[..] == if ok && len <= len0 then Decoded(base58).value + old(bytesOut[..])[len..] else old(bytesOut[..])
  {
    ok, len := false, len0;
    if base58 == [] {
      return;
    }
    var ones := CountLeading(base58, ONE);
    LeadingParts(base58, ONE);
    if ones == |base58| {
      if bytesOut != null && ones <= len0 {
        Fill(bytesOut, 0, ones);
      }
      return true, ones;
    }
    var bn, top;
    ok, bn, top := ToWords(base58[ones..]);
    if !ok {
      return;
    }
    PositiveValue(base58[ones..]);
    var cp := WordsToBytes(bn, top);
    var k := SkipZeros(cp);
    var cpLen := cp.Length - k;
    if bytesOut != null && ones + cpLen <= len0 {
      Fill(bytesOut, 0, ones);
      Append(bytesOut, ones, cp, k);
    }
    len := ones + cpLen;
  }

  /** memset. */
  method Fill(a: array<Byte>, c: Byte, n: nat)
    requires n <= a.Length
    modifies a
    ensures a[..] == Repeat(c, n) + old(a[..])[n..]
  {
    for i := 0 to n
      invariant forall j :: 0 <= j < a.Length ==> a[j] == if j < i then c else old(a[..])[j]
    {
      a[i] := c;
    }
  }

  /** memcpy of cp[k..]. */
  method Append(a: array<Byte>, at: nat, cp: array<Byte>, k: nat)
    requires k <= cp.Length && at + (cp.Length - k) <= a.Length && a != cp
    modifies a
    ensures a[..] == old(a[..])[..at] + cp[k..] + old(a[..])[at + (cp.Length - k)..]
  {
    for i := 0 to cp.Length - k
      invariant forall j :: 0 <= j < a.Length ==> a[j] == if at <= j < at + i then cp[k + j - at] else old(a[..])[j]
    {
      a[at + i] := cp[k + i];
    }
  }

  /** A valid string that does not start with a '1' stands for a positive number. */
  lemma PositiveValue(r: seq<Byte>)
    requires r != [] && AllValid(r) && r[0] != ONE
    ensures 0 < Value58(r)
  {
    DigitsBack(r);
    LeadingDigit(DigitsOf(r), |r|, 58);
    PowPositive(58, |r| - 1);
  }

  // ---- encoding ----

  /** Leading zero digits do not count. */
  lemma {:induction false} SuffixZeros(s: seq<int>, p: nat, q: nat, b: int)
    requires p <= q <= |s| && forall k :: p <= k < q ==> s[k] == 0
    ensures Suffix(s, p, b) == Suffix(s, q, b)
    decreases q - p
  {
    if p < q {
      SuffixZeros(s, p + 1, q, b);
    }
  }

  /** One base-58 digit times 256, plus the carry. */
  method OneDigit(bn: array<Byte>, p: nat, carry0: nat, ghost S: seq<Byte>, ghost c: Byte) returns (carry: nat)
    requires 0 < p <= bn.Length == |S| && carry0 < 0x100 && bn[p - 1] == S[p - 1] < 58
    requires Multiplied(S, bn[..], p, 58, 0x100, c, carry0)
    modifies bn
    ensures carry < 0x100 && bn[..p - 1] == old(bn[..p - 1])
    ensures Multiplied(S, bn[..], p - 1, 58, 0x100, c, carry)
  {
    var x := bn[p - 1] * 0x100 + carry0;
    var low: Byte := x % 58;
    carry := x / 58;
    ghost var t := bn[..];
    MultiplyStep(S, t, p, 58, 0x100, c, carry0, low, carry);
    bn[p - 1] := low;
    assert bn[..] == t[p - 1 := low];
  }

  /** bn = 256 bn + byte on the digits in use; more come into use as long as there is a carry. */
  method AddByte(bn: array<Byte>, top0: nat, byte: Byte) returns (top: nat)
    requires top0 < bn.Length && DigitsBelow(bn[..], top0, 58)
    requires 0x100 * Suffix(bn[..], top0, 58) + byte < Pow(58, bn.Length)
    modifies bn
    ensures top <= top0 && DigitsBelow(bn[..], top, 58)
    ensures Suffix(bn[..], top, 58) == 0x100 * old(Suffix(bn[..], top0, 58)) + byte
  {
    ghost var S: seq<Byte> := Repeat(0, top0) + bn[top0..];
    SuffixAgree(S, bn[..], top0, 58);
    top := top0;
    var carry: nat := byte;
    var p: nat := bn.Length;  // one past bn_p
    MultiplyStart(S, bn[..], 58, 0x100, byte);
    while p > top
      invariant top <= top0 && top <= p <= bn.Length && carry < 0x100 && (p == top ==> carry == 0)
      invariant Multiplied(S, bn[..], p, 58, 0x100, byte, carry)
      invariant forall k :: top <= k < p ==> bn[k] == S[k]
      decreases p
    {
      ghost var t := bn[..];
      carry := OneDigit(bn, p, carry, S, byte);
      assert forall k :: top <= k < p - 1 ==> bn[k] == bn[..p - 1][k] == t[..p - 1][k] == S[k];
      p := p - 1;
      if carry != 0 && p == top {
        top := Extend(bn, top, S, byte, carry, top0);
      }
    }
    NoCarry(S, bn[..], p, 58, 0x100, byte);
    SuffixBelow(S, p, top0, 58);
  }

  /** A zero digit is put on top. */
  method Extend(bn: array<Byte>, p: nat, ghost S: seq<Byte>, ghost c: Byte, ghost carry: nat, ghost top0: nat)
    returns (top: nat)
    requires p <= top0 <= bn.Length == |S| && 0 < carry && Multiplied(S, bn[..], p, 58, 0x100, c, carry)
    requires 0x100 * Suffix(S, top0, 58) + c < Pow(58, bn.Length) && forall k :: 0 <= k < top0 ==> S[k] == 0
    modifies bn
    ensures p > 0 && top == p - 1 && bn[top] == S[top] && Multiplied(S, bn[..], p, 58, 0x100, c, carry)
  {
    SuffixZeros(S, p, top0, 58);
    RoomAbove(S, bn[..], p, 58, 0x100, c, carry);
    ghost var t := bn[..];
    top := p - 1;
    bn[top] := 0;
    SuffixAgree(bn[..], t, p, 58);
  }

  lemma SuffixBelow(S: seq<Byte>, p: nat, top0: nat, b: int)
    requires p <= top0 <= |S| && forall k :: 0 <= k < top0 ==> S[k] == 0
    ensures Suffix(S, p, b) == Suffix(S, top0, b)
  {
    SuffixZeros(S, p, top0, b);
  }

  /** The base-58 digits of a number of |r| bytes. */
  method ToDigits(r: seq<Byte>) returns (bn: array<Byte>, top: nat)
    requires r != []
    ensures fresh(bn) && top < bn.Length && DigitsBelow(bn[..], top, 58)
    ensures Suffix(bn[..], top, 58) == Value(r)
  {
    BytesSuffice(|r|);
    bn := new Byte[BytesFor(|r|)];
    top := bn.Length - 1;
    bn[top] := 0;
    assert Suffix(bn[..], top + 1, 58) == 0;
    for i := 0 to |r|
      invariant top < bn.Length && DigitsBelow(bn[..], top, 58)
      invariant Suffix(bn[..], top, 58) == Digits(r, i, 0x100)
    {
      NextFits(r, i, 0x100, Pow(58, bn.Length));
      top := AddByte(bn, top, r[i]);
    }
  }

  /** Reading digits from the front agrees with their weights. */
  lemma {:induction false} SuffixReads(s: seq<Byte>, k: nat, b: int)
    requires k <= |s|
    ensures Digits(s, k, b) * Pow(b, |s| - k) + Suffix(s, k, b) == Suffix(s, 0, b)
  {
    if k > 0 {
      SuffixReads(s, k - 1, b);
      var w, d := Pow(b, |s| - k), Digits(s, k - 1, b);
      MulDist(w, d * b, s[k - 1]);
      MulAssoc(d, b, w);
    }
  }

  lemma {:induction false} SuffixDrop(s: seq<Byte>, top: nat, p: nat, b: int)
    requires top <= p <= |s|
    ensures Suffix(s, p, b) == Suffix(s[top..], p - top, b)
    decreases |s| - p
  {
    if p < |s| {
      SuffixDrop(s, top, p + 1, b);
    }
  }

  /** Skipping leading zero digits leaves the shortest form of a positive number. */
  method SkipZeroDigits(bn: array<Byte>, top0: nat) returns (top: nat)
    requires top0 < bn.Length && DigitsBelow(bn[..], top0, 58) && 0 < Suffix(bn[..], top0, 58)
    ensures top0 <= top < bn.Length && bn[top..] == Numeral(Suffix(bn[..], top0, 58), 58)
  {
    ghost var v := Suffix(bn[..], top0, 58);
    top := top0;
    while bn[top] == 0 && top < bn.Length - 1
      invariant top0 <= top < bn.Length && Suffix(bn[..], top, 58) == v
    {
      top := top + 1;
    }
    SuffixDrop(bn[..], top, top, 58);
    ghost var s := bn[top..];
    assert bn[..][top..] == s;
    SuffixReads(s, |s|, 58);
    MulAssoc(1, 1, Digits(s, |s|, 58));
    NumeralUnique(s, v, 58);
  }

  const FLAG_CHECKSUM: bv32 := 1

  /** The string of a byte string, with its checksum if asked for, and terminated by a NUL. */
  method FromBytes(hash: seq<Byte> -> Checksum, bytesIn: seq<Byte>, flags: bv32) returns (ok: bool, output: array?<Byte>)
    ensures ok <==> bytesIn != [] && flags & !FLAG_CHECKSUM == 0
    ensures ok ==> output != null
    ensures ok ==>
      output[..] == Encoded(if flags & FLAG_CHECKSUM != 0 then WithChecksum(hash, bytesIn) else bytesIn) + [0]
  {
    ok, output := bytesIn != [] && flags & !FLAG_CHECKSUM == 0, null;
    if !ok {
      return;
    }
    var bytes := bytesIn;  // what the macro b indexes
    if flags & FLAG_CHECKSUM != 0 {
      bytes := bytes + hash(bytesIn);
    }
    output := EncodeBytes(bytes);
  }

  method EncodeBytes(bytes: seq<Byte>) returns (output: array<Byte>)
    requires bytes != []
    ensures output[..] == Encoded(bytes) + [0]
  {
    var zeros := CountLeading(bytes, 0);
    LeadingParts(bytes, 0);
    ghost var r := bytes[zeros..];
    if zeros == |bytes| {
      output := new Byte[zeros + 1];
      Fill(output, ONE, zeros);
      output[zeros] := 0;
      assert Value(r) == 0 && Encoded(bytes) == Repeat(ONE, zeros);
      assert output[..zeros] == Repeat(ONE, zeros);
      return;
    }
    LeadingDigit(r, |r|, 0x100);
    PowPositive(0x100, |r| - 1);
    var bn, top := ToDigits(bytes[zeros..]);
    top := SkipZeroDigits(bn, top);
    output := Spell(bn, top, zeros, Value(r));
  }

  /** wally_clear. */
  method Clear(a: array<Byte>, at: nat, n: nat)
    requires at + n <= a.Length
    modifies a
    ensures a[..] == old(a[..at]) + Repeat(0, n) + old(a[at + n..])
  {
    for i := 0 to n
      invariant forall j :: 0 <= j < a.Length ==> a[j] == if at <= j < at + i then 0 else old(a[..])[j]
    {
      a[at + i] := 0;
    }
  }

  /**
   The bytes of a string that fit bytesOut, or the length they need. With a checksum, it is checked and
   cleared, and when it does not fit nothing is left of the bytes.
   */
  method ToBytes(hash: seq<Byte> -> Checksum, str: seq<Byte>, flags: bv32, bytesOut: array?<Byte>)
    returns (ok: bool, written: nat)
    requires flags & FLAG_CHECKSUM != 0 && Decoded(str).Some? ==> CHECKSUM_LENGTH <= |Decoded(str).value|
    modifies if bytesOut != null then {bytesOut} else {}
    ensures bytesOut == null ==> !ok && written == 0
    ensures bytesOut != null ==>
      var len, d := bytesOut.Length, Decoded(str);
      var checks := flags & FLAG_CHECKSUM != 0;
      if flags & !FLAG_CHECKSUM != 0 || len == 0 || (checks && len <= CHECKSUM_LENGTH) then
        !ok && written == 0 && bytesOut[..] == old(bytesOut[..])
      else if d.None? then !ok && written == len && bytesOut[..] == old(bytesOut[..])
      else if |d.value| > len then ok && written == |d.value| && bytesOut[..] == old(bytesOut[..])
      else if !checks then ok && written == |d.value| && bytesOut[..] == d.value + old(bytesOut[written..])
      else match Checked(hash, d.value)
        case Some(b) =>
          ok && written == |b| && bytesOut[..] == b + Repeat(0, CHECKSUM_LENGTH) + old(bytesOut[..])[|d.value|..]
        case None =>
          !ok && written == |d.value| && bytesOut[..] == Repeat(0, len)
  {
    ok, written := false, 0;
    if flags & !FLAG_CHECKSUM != 0 || bytesOut == null || bytesOut.Length == 0 {
      return;
    }
    var checks := flags & FLAG_CHECKSUM != 0;
    if checks && bytesOut.Length <= CHECKSUM_LENGTH {
      return;
    }
    ok, written := Decode(str, bytesOut, bytesOut.Length);
    if ok && written > bytesOut.Length {
      return;
    }
    if ok && checks {
      ok, written := Verify(hash, bytesOut, written, Decoded(str).value);
    }
  }

  /** memcmp of the last bytes with the checksum of the others. */
  method Verify(hash: seq<Byte> -> Checksum, bytesOut: array<Byte>, written0: nat, ghost d: seq<Byte>)
    returns (ok: bool, written: nat)
    requires CHECKSUM_LENGTH <= |d| == written0 <= bytesOut.Length && bytesOut[..written0] == d
    modifies bytesOut
    ensures ok <==> Checked(hash, d).Some?
    ensures ok ==> written == |d| - CHECKSUM_LENGTH
    ensures ok ==> bytesOut[..] == d[..written] + Repeat(0, CHECKSUM_LENGTH) + old(bytesOut[|d|..])
    ensures !ok ==> written == |d| && bytesOut[..] == Repeat(0, bytesOut.Length)
  {
    ok, written := true, written0;
    var offset := written - CHECKSUM_LENGTH;
    assert bytesOut[..offset] == d[..offset] && bytesOut[offset..written] == d[offset..];
    if bytesOut[offset..written] != hash(bytesOut[..offset]) {
      Clear(bytesOut, 0, bytesOut.Length);
      return false, written;
    }
    Clear(bytesOut, offset, CHECKSUM_LENGTH);
    written := offset;
  }

  /** The leading '1's, the characters of the digits, and the terminator. */
  method Spell(bn: array<Byte>, top: nat, zeros: nat, ghost v: nat) returns (output: array<Byte>)
    requires top <= bn.Length && 0 < v && bn[top..] == Numeral(v, 58)
    ensures AllBelow(Numeral(v, 58), 58) && output[..] == Repeat(ONE, zeros) + CharsOf(Numeral(v, 58)) + [0]
  {
    NumeralDenotes(v, 58);
    ghost var ds := Numeral(v, 58);
    var n := bn.Length - top;
    output := new Byte[zeros + n + 1];
    Fill(output, ONE, zeros);
    assert output[..zeros] == Repeat(ONE, zeros);
    for i := 0 to n
      invariant output[..zeros + i] == Repeat(ONE, zeros) + CharsOf(ds)[..i]
    {
      assert bn[top + i] == bn[top..][i] == ds[i];
      output[zeros + i] := ToChar(bn[top + i]);
      assert output[..zeros + (i + 1)] == output[..zeros + i] + [ToChar(ds[i])];
    }
    output[zeros + n] := 0;
    assert CharsOf(ds)[..n] == CharsOf(ds);
    assert output[..] == output[..zeros + n] + [0];
  }
}
