/** Base58: byte strings as digits of their number in base 58, with a '1' for every leading zero byte. */
module Base58 {
  import opened Arith
  import opened Powers
  import opened Numerals
  import opened Radix
  import opened BaseOut
  import opened Wrappers

  type Word32 = x: int | 0 <= x < 0x1_0000_0000
  const W: int := 0x1_0000_0000

  const ONE: Byte := 49

  // ---- the alphabet ----

  /** byte_to_base58: digits, then letters without I, O and l. */
  function ToChar(d: nat): Byte
    requires d < 58
  {
    if d < 9 then 49 + d
    else if d < 17 then 65 + (d - 9)
    else if d < 22 then 74 + (d - 17)
    else if d < 33 then 80 + (d - 22)
    else if d < 44 then 97 + (d - 33)
    else 109 + (d - 44)
  }

  /** base58_to_byte: one more than the digit, and zero for characters outside the alphabet. */
  function FromChar(c: Byte): (d: Byte)
    ensures d <= 58
  {
    if 49 <= c <= 57 then c - 49 + 1
    else if 65 <= c <= 72 then c - 65 + 10
    else if 74 <= c <= 78 then c - 74 + 18
    else if 80 <= c <= 90 then c - 80 + 23
    else if 97 <= c <= 107 then c - 97 + 34
    else if 109 <= c <= 122 then c - 109 + 45
    else 0
  }

  lemma Alphabet()
    ensures forall d: nat :: d < 58 ==> FromChar(ToChar(d)) == d + 1
    ensures forall c: Byte :: FromChar(c) > 0 ==> ToChar(FromChar(c) - 1) == c
  {}

  /** Which characters those are, and in which order: digits, capital and small letters, without 0, I, O and l. */
  lemma AlphabetIs()
    ensures forall d: nat, e: nat :: d < e < 58 ==> ToChar(d) < ToChar(e)
    ensures forall c: Byte :: FromChar(c) > 0 <==>
      (48 <= c <= 57 || 65 <= c <= 90 || 97 <= c <= 122) && c != 48 && c != 73 && c != 79 && c != 108
    ensures forall c: Byte :: (exists d: nat :: d < 58 && ToChar(d) == c) <==> FromChar(c) > 0
  {
    forall c: Byte | FromChar(c) > 0 ensures exists d: nat :: d < 58 && ToChar(d) == c {
      assert ToChar(FromChar(c) - 1) == c;
    }
  }

  // ---- what the strings mean ----

  /** How many copies of c a string starts with. */
  function Leading(s: seq<Byte>, c: Byte): (n: nat)
    ensures n <= |s|
  {
    if s != [] && s[0] == c then 1 + Leading(s[1..], c) else 0
  }

  function Repeat(c: Byte, n: nat): seq<Byte> {
    seq(n, i => c)
  }

  predicate AllValid(s: seq<Byte>) {
    forall i :: 0 <= i < |s| ==> FromChar(s[i]) > 0
  }

  /** The digits of a string; characters outside the alphabet count as zero. */
  function DigitsOf(s: seq<Byte>): seq<Byte> {
    seq(|s|, i requires 0 <= i < |s| => if FromChar(s[i]) > 0 then FromChar(s[i]) - 1 else 0)
  }

  function CharsOf(ds: seq<Byte>): seq<Byte>
    requires AllBelow(ds, 58)
  {
    seq(|ds|, i requires 0 <= i < |ds| => ToChar(ds[i]))
  }

  function Encoded(b: seq<Byte>): seq<Byte> {
    var z := Leading(b, 0);
    var r := b[z..];
    ShortestDenotes(Value(r), 58);
    Repeat(ONE, z) + CharsOf(Shortest(Value(r), 58))
  }

  /** The bytes a string stands for; an empty string or a character outside the alphabet stands for none. */
  function Decoded(s: seq<Byte>): Option<seq<Byte>> {
    var z := Leading(s, ONE);
    if s == [] || !AllValid(s[z..]) then None
    else Some(Repeat(0, z) + Shortest(Value58(s[z..]), 0x100))
  }

  /** A string of base-58 characters as a number. */
  function Value58(s: seq<Byte>): (x: int)
    ensures 0 <= x
  {
    DigitsBound(DigitsOf(s), |s|, 58);
    Digits(DigitsOf(s), |s|, 58)
  }

  // ---- the round trips ----

  lemma {:induction false} LeadingParts(s: seq<Byte>, c: Byte)
    ensures s == Repeat(c, Leading(s, c)) + s[Leading(s, c)..]
    ensures Leading(s, c) < |s| ==> s[Leading(s, c)] != c
  {
    if s != [] && s[0] == c {
      LeadingParts(s[1..], c);
      assert s == [c] + s[1..];
      assert Repeat(c, Leading(s, c)) == [c] + Repeat(c, Leading(s[1..], c));
    }
  }

  lemma {:induction false} LeadingOf(c: Byte, n: nat, t: seq<Byte>)
    requires t != [] ==> t[0] != c
    ensures Leading(Repeat(c, n) + t, c) == n
  {
    if n > 0 {
      LeadingOf(c, n - 1, t);
      assert (Repeat(c, n) + t)[1..] == Repeat(c, n - 1) + t;
    } else {
      assert Repeat(c, 0) + t == t;
    }
  }

  lemma CharsBack(ds: seq<Byte>)
    requires AllBelow(ds, 58)
    ensures AllValid(CharsOf(ds)) && DigitsOf(CharsOf(ds)) == ds
    ensures ds != [] && ds[0] != 0 ==> CharsOf(ds)[0] != ONE
  {
    Alphabet();
  }

  lemma DigitsBack(s: seq<Byte>)
    requires AllValid(s)
    ensures AllBelow(DigitsOf(s), 58) && CharsOf(DigitsOf(s)) == s
    ensures s != [] && s[0] != ONE ==> DigitsOf(s)[0] != 0
  {
    Alphabet();
  }

  /** Decoding what was encoded gives back every byte string, leading zeros included. */
  lemma DecodeEncoded(b: seq<Byte>)
    requires b != []
    ensures Decoded(Encoded(b)) == Some(b)
  {
    var z := Leading(b, 0);
    var r := b[z..];
    LeadingParts(b, 0);
    var ds := Shortest(Value(r), 58);
    ShortestDenotes(Value(r), 58);
    CharsBack(ds);
    var t := CharsOf(ds);
    LeadingOf(ONE, z, t);
    var s := Encoded(b);
    assert s == Repeat(ONE, z) + t && s[z..] == t;
    ShortestUnique(r, 0x100);
    assert Value58(t) == Value(r);
  }

  /** An encoding has the number of the bytes, and a '1' in front for every zero byte in front. */
  lemma EncodedIs(b: seq<Byte>)
    ensures var s := Encoded(b); AllValid(s) && Value58(s) == Value(b) && Leading(s, 49) == Leading(b, 0)
  {
    var z := Leading(b, 0);
    var r := b[z..];
    LeadingParts(b, 0);
    var ds := Shortest(Value(r), 58);
    ShortestDenotes(Value(r), 58);
    CharsBack(ds);
    LeadingOf(ONE, z, CharsOf(ds));
    LeadingZeros(b, z);
    BehindOnes(z, CharsOf(ds));
  }

  lemma BehindOnes(z: nat, t: seq<Byte>)
    requires AllValid(t)
    ensures AllValid(Repeat(ONE, z) + t) && Value58(Repeat(ONE, z) + t) == Value58(t)
  {
    var s := Repeat(ONE, z) + t;
    assert FromChar(ONE) == 1;
    assert DigitsOf(s)[z..] == DigitsOf(t);
    DigitsBehindZeros(DigitsOf(s), z, |s|, 58);
  }

  /** Zeros in front do not count. */
  lemma {:induction false} DigitsBehindZeros(s: seq<Byte>, z: nat, n: nat, b: int)
    requires z <= n <= |s| && forall i :: 0 <= i < z ==> s[i] == 0
    ensures Digits(s, n, b) == Digits(s[z..], n - z, b)
  {
    if n > z {
      DigitsBehindZeros(s, z, n - 1, b);
    } else if n > 0 {
      DigitsBehindZeros(s, z - 1, n - 1, b);
      assert s[z - 1..][..0] == [];
    }
  }

  lemma LeadingZeros(b: seq<Byte>, z: nat)
    requires z == Leading(b, 0)
    ensures Value(b) == Value(b[z..])
  {
    LeadingParts(b, 0);
    forall i | 0 <= i < z ensures b[i] == 0 {
      assert b[i] == Repeat(0, z)[i];
    }
    DigitsBehindZeros(b, z, |b|, 0x100);
  }

  /** Encoding what was decoded gives back every string over the alphabet. */
  lemma EncodeDecoded(s: seq<Byte>)
    requires Decoded(s).Some?
    ensures Encoded(Decoded(s).value) == s
  {
    var z := Leading(s, ONE);
    var r := s[z..];
    LeadingParts(s, ONE);
    var t := Shortest(Value58(r), 0x100);
    ShortestDenotes(Value58(r), 0x100);
    LeadingOf(0, z, t);
    var b := Decoded(s).value;
    assert b == Repeat(0, z) + t && b[z..] == t;
    DigitsBack(r);
    ShortestUnique(DigitsOf(r), 58);
    assert Value(t) == Value58(r);
  }

  /** What can be decoded: non-empty strings over the alphabet. */
  lemma DecodableStrings(s: seq<Byte>)
    ensures Decoded(s).Some? <==> s != [] && AllValid(s)
  {
    LeadingParts(s, ONE);
    var z := Leading(s, ONE);
    if AllValid(s[z..]) {
      forall i | 0 <= i < |s| ensures FromChar(s[i]) > 0 {
        assert i >= z ==> s[i] == s[z..][i - z];
        assert i < z ==> s[i] == Repeat(ONE, z)[i];
      }
    }
  }

  // ---- checksums ----

  const CHECKSUM_LENGTH: nat := 4

  /** The first bytes of a hash; which one is a parameter. */
  type Checksum = s: seq<Byte> | |s| == CHECKSUM_LENGTH witness seq(CHECKSUM_LENGTH, i => 0)

  function WithChecksum(hash: seq<Byte> -> Checksum, b: seq<Byte>): seq<Byte> {
    b + hash(b)
  }

  /** The bytes before a checksum that fits them. */
  function Checked(hash: seq<Byte> -> Checksum, d: seq<Byte>): Option<seq<Byte>> {
    var n := |d| - CHECKSUM_LENGTH;
    if n >= 0 && d[n..] == hash(d[..n]) then Some(d[..n]) else None
  }

  /** A string passes for some bytes exactly when it is what those bytes are encoded as. */
  lemma CheckedExactly(hash: seq<Byte> -> Checksum, s: seq<Byte>, b: seq<Byte>)
    ensures Decoded(s).Some? && Checked(hash, Decoded(s).value) == Some(b) <==> s == Encoded(b + hash(b))
  {
    var c := WithChecksum(hash, b);
    DecodeEncoded(c);
    assert c[..|b|] == b && c[|b|..] == hash(b);
    if Decoded(s).Some? && Checked(hash, Decoded(s).value) == Some(b) {
      var d := Decoded(s).value;
      var n := |d| - CHECKSUM_LENGTH;
      assert d == d[..n] + d[n..] == c;
      EncodeDecoded(s);
    }
  }
}
