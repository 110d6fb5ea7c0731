/**
 Recursive Length Prefix, Appendix B of the Yellow Paper: strings and lists of strings,
 a decoder, and the integers as the wallet writes them.
 */
module Rlp {
  import opened Arith
  import opened Powers
  import opened Numerals
  import opened Wrappers

  type Bytes = seq<Byte>

  const SIZE_LIMIT: int := 0x1_0000_0000_0000_0000  // lengths are 64-bit

  // ---- encoding ----

  /** A length written out in full, behind a byte that counts its bytes. */
  function LongHeader(base: nat, length: nat): Bytes
    requires 0 < length < SIZE_LIMIT && base <= 0xf7
  {
    LengthBytes(length);
    [base + |Numeral(length, 0x100)|] + Numeral(length, 0x100)
  }

  lemma LengthBytes(length: nat)
    requires 0 < length < SIZE_LIMIT
    ensures 0 < |Numeral(length, 0x100)| <= 8
  {
    NumeralDenotes(length, 0x100);
    var s := Numeral(length, 0x100);
    LeadingDigit(s, |s|, 0x100);
    if |s| > 8 {
      PowMonotone(0x100, 8, |s| - 1);
      assert Pow2(8) == 0x100 && Pow2(64) == SIZE_LIMIT by { Pow2Constants(); }
      PowOfPow2(8, 8);
    }
  }

  function EncodeString(s: Bytes): Bytes
    requires |s| < SIZE_LIMIT
  {
    if |s| == 1 && s[0] < 0x80 then s
    else if |s| < 56 then [0x80 + |s|] + s
    else LongHeader(0xb7, |s|) + s
  }

  /** A list with the given contents. */
  function EncodeList(payload: Bytes): Bytes
    requires |payload| < SIZE_LIMIT
  {
    if |payload| < 56 then [0xc0 + |payload|] + payload
    else LongHeader(0xf7, |payload|) + payload
  }

  /** The forms of Appendix B: the byte itself, a length in the first byte, or a length in the bytes behind it. */
  lemma StringForms(s: Bytes, l: Bytes)
    requires |s| < SIZE_LIMIT && Value(l) == |s| && l != [] && l[0] != 0
    ensures |s| == 1 && s[0] < 128 ==> EncodeString(s) == s
    ensures |s| < 56 && !(|s| == 1 && s[0] < 128) ==> EncodeString(s) == [128 + |s|] + s
    ensures 56 <= |s| ==> |l| <= 8 && EncodeString(s) == [183 + |l|] + l + s
    ensures |s| < 56 ==> EncodeList(s) == [192 + |s|] + s
    ensures 56 <= |s| ==> EncodeList(s) == [247 + |l|] + l + s
  {
    NumeralUnique(l, |s|, 0x100);
    if 56 <= |s| {
      LengthBytes(|s|);
    }
  }

  // ---- decoding ----

  /** Whether a list or a string follows, where its contents start, and how long they are. */
  datatype Header = Header(isList: bool, start: nat, length: nat)

  function LongLength(s: Bytes, base: nat, isList: bool): Option<Header>
    requires s != [] && base < s[0]
  {
    var n := s[0] - base;
    if |s| < 1 + n then None
    else Some(Header(isList, 1 + n, Value(s[1..1 + n])))
  }

  function ReadHeader(s: Bytes): Option<Header> {
    if s == [] then None
    else if s[0] < 0x80 then Some(Header(false, 0, 1))
    else if s[0] <= 0xb7 then Some(Header(false, 1, s[0] - 0x80))
    else if s[0] <= 0xbf then LongLength(s, 0xb7, false)
    else if s[0] <= 0xf7 then Some(Header(true, 1, s[0] - 0xc0))
    else LongLength(s, 0xf7, true)
  }

  /** The string at the front, and what follows it. */
  function DecodeString(s: Bytes): Option<(Bytes, Bytes)> {
    match ReadHeader(s)
    case None => None
    case Some(h) =>
      if h.isList || |s| < h.start + h.length then None
      else Some((s[h.start..h.start + h.length], s[h.start + h.length..]))
  }

  /** Strings one after another, up to the end. */
  function DecodeStrings(s: Bytes): Option<seq<Bytes>>
    decreases |s|
  {
    if s == [] then Some([])
    else match DecodeString(s)
      case None => None
      case Some((x, rest)) =>
        if |rest| >= |s| then None
        else match DecodeStrings(rest)
          case None => None
          case Some(xs) => Some([x] + xs)
  }

  /** A list of strings, and nothing after it. */
  function DecodeList(s: Bytes): Option<seq<Bytes>> {
    match ReadHeader(s)
    case None => None
    case Some(h) => if !h.isList || |s| != h.start + h.length then None else DecodeStrings(s[h.start..])
  }

  // ---- strings and lists come back ----

  lemma LongRoundTrip(base: nat, x: Bytes, rest: Bytes, isList: bool)
    requires 0 < |x| < SIZE_LIMIT && base <= 0xf7
    ensures var h, s := LongHeader(base, |x|), LongHeader(base, |x|) + x + rest;
      && base < s[0] <= base + 8 && LongLength(s, base, isList) == Some(Header(isList, |h|, |x|))
      && s[|h|..|h| + |x|] == x && s[|h| + |x|..] == rest
  {
    LengthBytes(|x|);
    var n := Numeral(|x|, 0x100);
    var h, s := LongHeader(base, |x|), LongHeader(base, |x|) + x + rest;
    assert s[0] == base + |n| && s[1..1 + |n|] == n;
    NumeralDenotes(|x|, 0x100);
  }

  lemma StringRoundTrip(x: Bytes, rest: Bytes)
    requires |x| < SIZE_LIMIT
    ensures DecodeString(EncodeString(x) + rest) == Some((x, rest))
  {
    var s := EncodeString(x) + rest;
    if |x| == 1 && x[0] < 0x80 {
      assert s[0..1] == x && s[1..] == rest;
    } else if |x| < 56 {
      assert s[0] == 0x80 + |x| && s[1..1 + |x|] == x && s[1 + |x|..] == rest;
    } else {
      LongRoundTrip(0xb7, x, rest, false);
    }
  }

  function Joined(items: seq<Bytes>): Bytes
    requires forall i :: 0 <= i < |items| ==> |items[i]| < SIZE_LIMIT
  {
    if items == [] then [] else EncodeString(items[0]) + Joined(items[1..])
  }

  lemma {:induction false} JoinedSnoc(items: seq<Bytes>, x: Bytes)
    requires |x| < SIZE_LIMIT && forall i :: 0 <= i < |items| ==> |items[i]| < SIZE_LIMIT
    ensures Joined(items + [x]) == Joined(items) + EncodeString(x)
  {
    if items == [] {
      assert items + [x] == [x];
    } else {
      JoinedSnoc(items[1..], x);
      assert (items + [x])[1..] == items[1..] + [x];
      JoinedParts(EncodeString(items[0]), Joined(items[1..]), EncodeString(x));
    }
  }

  lemma JoinedParts(a: Bytes, b: Bytes, c: Bytes)
    ensures a + (b + c) == a + b + c
  {}

  lemma {:induction false} StringsRoundTrip(items: seq<Bytes>)
    requires forall i :: 0 <= i < |items| ==> |items[i]| < SIZE_LIMIT
    ensures DecodeStrings(Joined(items)) == Some(items)
  {
    if items != [] {
      StringsRoundTrip(items[1..]);
      StringRoundTrip(items[0], Joined(items[1..]));
      assert |Joined(items)| > |Joined(items[1..])|;
      assert [items[0]] + items[1..] == items;
    }
  }

  /** A decoder finds every string of a list. */
  lemma ListRoundTrip(items: seq<Bytes>)
    requires forall i :: 0 <= i < |items| ==> |items[i]| < SIZE_LIMIT
    requires |Joined(items)| < SIZE_LIMIT
    ensures DecodeList(EncodeList(Joined(items))) == Some(items)
  {
    var p := Joined(items);
    var s := EncodeList(p);
    StringsRoundTrip(items);
    if |p| < 56 {
      assert s[0] == 0xc0 + |p| && s[1..] == p;
    } else {
      LongRoundTrip(0xf7, p, [], true);
      var h := LongHeader(0xf7, |p|);
      assert h + p + [] == s && s[|h|..] == p;
    }
  }

  /** Different lists have different encodings. */
  lemma ListsInjective(xs: seq<Bytes>, ys: seq<Bytes>)
    requires forall i :: 0 <= i < |xs| ==> |xs[i]| < SIZE_LIMIT
    requires forall i :: 0 <= i < |ys| ==> |ys[i]| < SIZE_LIMIT
    requires |Joined(xs)| < SIZE_LIMIT && |Joined(ys)| < SIZE_LIMIT
    requires EncodeList(Joined(xs)) == EncodeList(Joined(ys))
    ensures xs == ys
  {
    ListRoundTrip(xs);
    ListRoundTrip(ys);
  }

  // ---- integers as the wallet writes them ----

  /** write_int: its header for more than 55 bytes is not the standard's before 128 bytes. */
  function WrittenInt(x: nat): Bytes
    requires |Numeral(x, 0x100)| < SIZE_LIMIT
  {
    var n := Numeral(x, 0x100);
    if x == 0 then [0x80]
    else if x < 0x80 then [x]
    else if |n| < 0x80 then [0x80 + |n|] + n
    else LongHeader(0xb7, |n|) + n
  }

  /** When the header is the standard's. */
  predicate WellHeaded(x: nat) {
    |Numeral(x, 0x100)| <= 55 || |Numeral(x, 0x100)| >= 0x80
  }

  lemma WrittenIsStandard(x: nat)
    requires |Numeral(x, 0x100)| < SIZE_LIMIT && WellHeaded(x)
    ensures WrittenInt(x) == EncodeString(Shortest(x, 0x100))
  {
    if 0 < x < 0x100 {
      assert Numeral(x, 0x100) == [x];
    } else if x >= 0x100 {
      assert |Numeral(x, 0x100)| >= 2;
    }
  }

  /** A decoder reads a written integer back, whatever follows it, exactly when the header is the standard's. */
  lemma WrittenDecodes(x: nat, rest: Bytes)
    requires |Numeral(x, 0x100)| < SIZE_LIMIT
    ensures DecodeString(WrittenInt(x) + rest) == Some((Shortest(x, 0x100), rest)) <==> WellHeaded(x)
  {
    if WellHeaded(x) {
      WrittenIsStandard(x);
      StringRoundTrip(Shortest(x, 0x100), rest);
    } else {
      var n := Numeral(x, 0x100);
      var s := WrittenInt(x) + rest;
      assert s[0] == 0x80 + |n| && |s| == 1 + |n| + |rest|;
      if DecodeString(s).Some? {
        var h := ReadHeader(s).value;
        assert h.start >= 2 && |DecodeString(s).value.1| == |s| - h.start - h.length;
      }
    }
  }

  /** The smallest number whose header is wrong: 56 bytes long. */
  lemma SmallestIllHeaded(rest: Bytes)
    ensures 0 < Pow(0x100, 55) && |Numeral(Pow(0x100, 55), 0x100)| == 56
    ensures WrittenInt(Pow(0x100, 55))[0] == 0xb8
    ensures DecodeString(WrittenInt(Pow(0x100, 55)) + rest) != Some((Shortest(Pow(0x100, 55), 0x100), rest))
  {
    var e: nat := 55;
    var x := Pow(0x100, e);
    PowPositive(0x100, e);
    PowMonotone(0x100, 1, e);
    assert Pow(0x100, 1) == 0x100;
    DigitCount(x, 0x100, e + 1);
    WrittenDecodes(x, rest);
  }

  /** Numbers of at most 55 bytes, 256-bit amounts among them, are written as the standard has it. */
  lemma SmallIsWellHeaded(x: nat)
    requires x < Pow(0x100, 55)
    ensures |Numeral(x, 0x100)| <= 55 && WellHeaded(x)
  {
    var s, e: nat := Numeral(x, 0x100), 55;
    NumeralDenotes(x, 0x100);
    if |s| > e {
      PowMonotone(0x100, e, |s| - 1);
      LeadingDigit(s, |s|, 0x100);
    }
  }
}
