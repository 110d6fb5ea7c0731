/** Integers as text: mpz_sizeinbase, mpz_get_str and mpz_set_str. Characters are ASCII bytes. */
module Strings {
  import opened Arith
  import opened Powers
  import opened Limbs
  import opened Mpn
  import opened MpnDiv
  import opened Mpz
  import opened Numerals
  import opened BaseOut
  import opened BaseDivide
  import opened BaseIn
  import opened Wrappers

  // ---- what is written ----

  const MINUS: Byte := 45
  const ZERO: Byte := 48

  function DigitChar(d: Byte, upper: bool): (c: Byte)
    requires d < 36
    ensures c != 0
  {
    if d < 10 then ZERO + d else if upper then d - 10 + 65 else d - 10 + 97
  }

  function Chars(s: seq<Byte>, upper: bool): seq<Byte>
    requires AllBelow(s, 36)
  {
    seq(|s|, i requires 0 <= i < |s| => DigitChar(s[i], upper))
  }

  /** x in the given base: a sign if it is negative, and digits without leading zeros. */
  function Text(x: int, base: int, upper: bool): seq<Byte>
    requires 2 <= base <= 36
  {
    NumeralDenotes(Abs(x), base);
    (if x < 0 then [MINUS] else []) + Chars(Numeral(Abs(x), base), upper)
  }

  // ---- what is read ----

  /** isspace in the C locale. */
  predicate IsSpace(c: Byte) {
    c == 32 || 9 <= c <= 13
  }

  /** The value of a digit or letter; anything else is a failure in every base. */
  function CharDigit(c: Byte): nat {
    if 48 <= c <= 57 then c - 48
    else if 97 <= c <= 122 then c - 97 + 10
    else if 65 <= c <= 90 then c - 65 + 10
    else 36
  }

  function SkipSpaces(s: seq<Byte>): seq<Byte> {
    if s != [] && IsSpace(s[0]) then SkipSpaces(s[1..]) else s
  }

  /** The base announced by a prefix, and what follows the prefix. */
  function Prefixed(s: seq<Byte>): (int, seq<Byte>) {
    if s == [] || s[0] != ZERO then (10, s)
    else if |s| > 1 && (s[1] == 120 || s[1] == 88) then (16, s[2..])
    else if |s| > 1 && (s[1] == 98 || s[1] == 66) then (2, s[2..])
    else (8, s)
  }

  /** The digits in a text, spaces left out; none when a character is not a digit of the base. */
  function DigitsIn(s: seq<Byte>, base: int): Option<seq<Byte>>
    requires 2 <= base <= 36
  {
    if s == [] then Some([])
    else if IsSpace(s[0]) then DigitsIn(s[1..], base)
    else if CharDigit(s[0]) >= base then None
    else match DigitsIn(s[1..], base)
      case None => None
      case Some(ds) => Some([CharDigit(s[0])] + ds)
  }

  /** Sign, base and digits of a text. */
  function Header(s: seq<Byte>, base: int): (bool, int, seq<Byte>) {
    var t := SkipSpaces(s);
    var negative := t != [] && t[0] == MINUS;
    var u := if negative then t[1..] else t;
    var (b, v) := if base == 0 then Prefixed(u) else (base, u);
    (negative, b, v)
  }

  /** The integer a text denotes, if it is well formed. Base 0 stands for the base its prefix announces. */
  function Parse(s: seq<Byte>, base: int): Option<int>
    requires base == 0 || 2 <= base <= 36
  {
    var (negative, b, v) := Header(s, base);
    match DigitsIn(v, b)
    case None => None
    case Some(ds) =>
      if ds == [] then None
      else Some(if negative then -Digits(ds, |ds|, b) else Digits(ds, |ds|, b))
  }

  // ---- the round trip ----

  lemma {:induction false} DigitsInChars(s: seq<Byte>, base: int, upper: bool)
    requires 2 <= base <= 36 && AllBelow(s, base)
    ensures AllBelow(s, 36) && DigitsIn(Chars(s, upper), base) == Some(s)
    decreases |s|
  {
    if s != [] {
      DigitsInChars(s[1..], base, upper);
      assert Chars(s, upper)[1..] == Chars(s[1..], upper);
      assert s == [s[0]] + s[1..];
    }
  }

  /** A text without a sign. */
  lemma ParseUnsigned(s: seq<Byte>, ds: seq<Byte>, base: int)
    requires 2 <= base <= 36 && s != [] && s[0] != MINUS && !IsSpace(s[0])
    requires DigitsIn(s, base) == Some(ds) && ds != []
    ensures Parse(s, base) == Some(Digits(ds, |ds|, base))
  {
    assert SkipSpaces(s) == s;
  }

  /** A minus negates what follows, which must not begin with a space or another minus. */
  lemma ParseSigned(t: seq<Byte>, base: int)
    requires base == 0 || 2 <= base <= 36
    requires t != [] ==> t[0] != 45 && t[0] != 32 && !(9 <= t[0] <= 13)
    ensures var x := Parse(t, base);
      Parse([45] + t, base) == if x.None? then None else Some(-x.value)
  {
    assert ([45] + t)[1..] == t && SkipSpaces(t) == t && SkipSpaces([45] + t) == [45] + t;
  }

  /** Reading what was written gives back the number, in every base and either case. */
  lemma ParseText(x: int, base: int, upper: bool)
    requires 2 <= base <= 36
    ensures Parse(Text(x, base, upper), base) == Some(x)
  {
    var s := Numeral(Abs(x), base);
    NumeralDenotes(Abs(x), base);
    DigitsInChars(s, base, upper);
    var c := Chars(s, upper);
    assert c[0] != MINUS && !IsSpace(c[0]);
    ParseUnsigned(c, s, base);
    if x < 0 {
      ParseSigned(c, base);
    } else {
      assert [] + c == c;
    }
  }

  /** A decimal text is also understood when the base is left open. */
  lemma ParseDecimalText(x: int)
    ensures Parse(Text(x, 10, false), 0) == Some(x)
  {
    ParseText(x, 10, false);
    var s := Numeral(Abs(x), 10);
    NumeralDenotes(Abs(x), 10);
    var c := Chars(s, false);
    var t := Text(x, 10, false);
    assert x < 0 ==> t[1..] == c;
    assert x >= 0 ==> t == c;
    if x == 0 {
      assert s == [0] && c == [ZERO];
      DigitsInChars([0], 8, false);
      assert Digits([0], 1, 8) == 0;
    }
  }

  /** Different numbers have different texts. */
  lemma TextInjective(x: int, y: int, base: int, upper: bool)
    requires 2 <= base <= 36 && Text(x, base, upper) == Text(y, base, upper)
    ensures x == y
  {
    ParseText(x, base, upper);
    ParseText(y, base, upper);
  }

  // ---- text, character by character ----

  /** A minus for negative numbers, and then '0' to '9' and 'a' to 'z' or 'A' to 'Z' for the digits. */
  lemma TextIs(x: int, base: int, upper: bool)
    requires 2 <= base <= 36
    ensures var n, t, sign := Numeral(Abs(x), base), Text(x, base, upper), if x < 0 then 1 else 0;
      && |t| == sign + |n| && (x < 0 ==> t[0] == 45)
      && forall i :: 0 <= i < |n| ==> t[sign + i] - n[i] == if n[i] < 10 then 48 else if upper then 55 else 87
  {
    NumeralDenotes(Abs(x), base);
    var n, c := Numeral(Abs(x), base), Chars(Numeral(Abs(x), base), upper);
    forall i | 0 <= i < |n| ensures c[i] - n[i] == if n[i] < 10 then 48 else if upper then 55 else 87 {
      assert c[i] == DigitChar(n[i], upper);
    }
  }

  /** Numbers of one digit. */
  lemma TextOfDigit(d: nat, upper: bool)
    requires d < 36
    ensures Text(d, 36, upper) == [if d < 10 then 48 + d else if upper then 55 + d else 87 + d]
  {
    assert Numeral(d, 36) == [d];
    TextIs(d, 36, upper);
  }

  /** Digits and letters of either case stand for their digits, whatever the base. */
  lemma ParseIs(s: seq<Byte>, ds: seq<Byte>, base: int)
    requires 2 <= base <= 36 && 0 < |s| == |ds| && AllBelow(ds, base)
    requires forall i :: 0 <= i < |s| ==>
      if ds[i] < 10 then s[i] == 48 + ds[i] else s[i] == 55 + ds[i] || s[i] == 87 + ds[i]
    ensures Parse(s, base) == Some(Digits(ds, |ds|, base))
  {
    DigitsInIs(s, ds, base);
    assert s[0] != MINUS && !IsSpace(s[0]);
  }

  lemma {:induction false} DigitsInIs(s: seq<Byte>, ds: seq<Byte>, base: int)
    requires 2 <= base <= 36 && |s| == |ds| && AllBelow(ds, base)
    requires forall i :: 0 <= i < |s| ==>
      if ds[i] < 10 then s[i] == 48 + ds[i] else s[i] == 55 + ds[i] || s[i] == 87 + ds[i]
    ensures DigitsIn(s, base) == Some(ds)
  {
    if s != [] {
      DigitsInIs(s[1..], ds[1..], base);
      assert CharDigit(s[0]) == ds[0] && !IsSpace(s[0]) && ds == [ds[0]] + ds[1..];
    }
  }

  /** Decimal text is the number with the digits s[i] - 48; with the base left open too, unless it starts with a zero. */
  lemma ParseDecimal(s: seq<Byte>)
    requires s != [] && forall i :: 0 <= i < |s| ==> 48 <= s[i] <= 57
    ensures var ds: seq<Byte> := seq(|s|, i requires 0 <= i < |s| => s[i] - 48);
      Parse(s, 10) == Some(Digits(ds, |s|, 10)) && (s[0] != 48 ==> Parse(s, 0) == Parse(s, 10))
  {
    ParseIs(s, seq(|s|, i requires 0 <= i < |s| => s[i] - 48), 10);
  }

  /** Single characters in the largest base. */
  lemma ParseCharacter(c: Byte)
    ensures Parse([c], 36) == if 48 <= c <= 57 then Some(c - 48) else if 97 <= c <= 122 then Some(c - 87)
                              else if 65 <= c <= 90 then Some(c - 55) else None
  {
    if CharDigit(c) < 36 {
      ParseIs([c], [CharDigit(c)], 36);
      assert Digits([CharDigit(c)], 1, 36) == CharDigit(c);
    } else {
      var s: seq<Byte> := [c];
      assert s[1..] == [] && SkipSpaces([]) == [];
    }
  }

  /** With the base left open, 0x stands for hexadecimal, 0b for binary, another zero in front for octal. */
  lemma ParsePrefixed(t: seq<Byte>)
    requires t != [] ==> t[0] != 45 && t[0] != 32 && !(9 <= t[0] <= 13)
    ensures Parse([48, 120] + t, 0) == Parse([48, 88] + t, 0) == Parse(t, 16)
    ensures Parse([48, 98] + t, 0) == Parse([48, 66] + t, 0) == Parse(t, 2)
    ensures t == [] || t[0] !in {120, 88, 98, 66} ==> Parse([48] + t, 0) == Parse([48] + t, 8)
    ensures t == [] || t[0] != 48 ==> Parse(t, 0) == Parse(t, 10)
  {
    assert SkipSpaces(t) == t;
    AfterPrefix([48, 120], t);
    AfterPrefix([48, 88], t);
    AfterPrefix([48, 98], t);
    AfterPrefix([48, 66], t);
    assert SkipSpaces([48] + t) == [48] + t && (t != [] ==> ([48] + t)[1] == t[0]);
  }

  lemma AfterPrefix(p: seq<Byte>, t: seq<Byte>)
    requires |p| == 2 && p[0] == 48
    ensures (p + t)[2..] == t && (p + t)[0] == 48 && (p + t)[1] == p[1] && SkipSpaces(p + t) == p + t
  {
  }

  lemma ParseSkips(s: seq<Byte>, base: int)
    requires 2 <= base <= 36 && s != [] && IsSpace(s[0])
    ensures Parse(s, base) == Parse(s[1..], base)
  {
    assert SkipSpaces(s) == SkipSpaces(s[1..]);
  }

  /** Space does not matter anywhere: blank, tab, newline, vertical tab, form feed and carriage return. */
  lemma {:induction false} ParseSpaced(a: seq<Byte>, c: Byte, b: seq<Byte>, base: int)
    requires 2 <= base <= 36 && (c == 32 || 9 <= c <= 13)
    ensures Parse(a + [c] + b, base) == Parse(a + b, base)
    decreases |a|
  {
    var s, t := a + [c] + b, a + b;
    if a == [] {
      assert s[1..] == b == t;
      ParseSkips(s, base);
      return;
    }
    assert s[1..] == a[1..] + [c] + b && t[1..] == a[1..] + b;
    if IsSpace(a[0]) {
      ParseSkips(s, base);
      ParseSkips(t, base);
      ParseSpaced(a[1..], c, b, base);
    } else {
      DigitsSpaced(a[1..], c, b, base);
      DigitsSpaced(a, c, b, base);
      SameDigits(s, t, base);
    }
  }

  lemma SameDigits(s: seq<Byte>, t: seq<Byte>, base: int)
    requires 2 <= base <= 36 && s != [] && t != [] && s[0] == t[0] && !IsSpace(s[0])
    requires DigitsIn(s, base) == DigitsIn(t, base) && DigitsIn(s[1..], base) == DigitsIn(t[1..], base)
    ensures Parse(s, base) == Parse(t, base)
  {
    assert SkipSpaces(s) == s && SkipSpaces(t) == t;
  }

  lemma {:induction false} DigitsSpaced(a: seq<Byte>, c: Byte, b: seq<Byte>, base: int)
    requires 2 <= base <= 36 && IsSpace(c)
    ensures DigitsIn(a + [c] + b, base) == DigitsIn(a + b, base)
    decreases |a|
  {
    var s, t := a + [c] + b, a + b;
    if a == [] {
      assert s[1..] == b == t;
    } else {
      DigitsSpaced(a[1..], c, b, base);
      assert s[1..] == a[1..] + [c] + b && t[1..] == a[1..] + b;
    }
  }

  /** Any other character is refused: no space, no minus, and no digit of the base. */
  lemma NotParsed(a: seq<Byte>, c: Byte, b: seq<Byte>, base: int)
    requires 2 <= base <= 36 && c != 32 && !(9 <= c <= 13) && c != 45
    requires 48 <= c <= 57 ==> base <= c - 48
    requires 65 <= c <= 90 ==> base <= c - 55
    requires 97 <= c <= 122 ==> base <= c - 87
    ensures Parse(a + [c] + b, base) == None
    decreases |a|
  {
    var s := a + [c] + b;
    NoDigits(a, c, b, base);
    if a != [] {
      assert s[1..] == a[1..] + [c] + b;
      NoDigits(a[1..], c, b, base);
      if IsSpace(a[0]) {
        NotParsed(a[1..], c, b, base);
      }
    }
  }

  lemma {:induction false} NoDigits(a: seq<Byte>, c: Byte, b: seq<Byte>, base: int)
    requires 2 <= base <= 36 && !IsSpace(c) && CharDigit(c) >= base
    ensures DigitsIn(a + [c] + b, base) == None
    decreases |a|
  {
    if a != [] {
      NoDigits(a[1..], c, b, base);
      assert (a + [c] + b)[1..] == a[1..] + [c] + b;
    }
  }

  // ---- the operations ----

  /** The number of digits of |u|, without writing them. */
  method SizeInBase(u: Mpz, base: nat) returns (ndigits: nat)
    requires u.Valid() && 2 <= base <= 36
    ensures u.Valid() && u.Value() == old(u.Value())
    ensures ndigits == |Numeral(Abs(u.Value()), base)|
  {
    var un := Abs(u.size);
    if un == 0 {
      return 1;
    }
    ghost var x := u.Magnitude();
    ValTopNonzero(u.d[..un]);
    var bits := BitSize(u.d, un);
    var w := PowerOfTwoBits(base);
    if w > 0 {
      ndigits := (bits + w - 1) / w;
      ghost var count := DigitsForBits(x, w, bits);
      return;
    }
    var tp := new Limb[un];
    Copyi(tp, 0, u.d, 0, un);
    assert tp[..un] == tp[0..0 + un] == u.d[0..0 + un] == u.d[..un];
    ndigits := CountByDivision(tp, un, base);
  }

  method CountByDivision(tp: array<Limb>, un0: nat, base: Limb) returns (ndigits: nat)
    requires 2 <= base <= 36 && 0 < un0 <= tp.Length && tp[un0 - 1] != 0 && 0 < Val(tp[..un0])
    modifies tp
    ensures old(0 < Val(tp[..un0])) && ndigits == |Numeral(old(Val(tp[..un0])), base)|
  {
    ghost var x: nat, y: nat := Val(tp[..un0]), Val(tp[..un0]);
    var bi := DivQr1Invert(base);
    var un := un0;
    ndigits := 0;
    while un > 0
      invariant un <= un0 && y == Val(tp[..un]) && (un > 0 ==> tp[un - 1] != 0 && 0 < y)
      invariant |Numeral(x, base)| == ndigits + if un > 0 then |Numeral(y, base)| else 0
      decreases if un > 0 then y + 1 else 0
    {
      ndigits := ndigits + 1;
      ghost var y0 := y;
      un := DropDigit(tp, un, bi, base);
      y := Val(tp[..un]);
      OneDigitLess(y0, base, y);
    }
  }

  lemma OneDigitLess(x: nat, b: int, q: nat)
    requires 2 <= b <= 0x100 && q * b <= x < q * b + b && 0 < x
    ensures |Numeral(x, b)| == 1 + if q > 0 then |Numeral(q, b)| else 0
    ensures q < x
  {
    DivModUnique(x, b, q, x - q * b);
    if q > 0 {
      MulMono(b, 1, q);
      MulMono(q, 2, b);
    }
  }

  /** tp / base in place, without a leading zero limb. */
  method DropDigit(tp: array<Limb>, un0: nat, bi: DivInverse, ghost base: Limb) returns (un: nat)
    requires 2 <= base <= 36 && Inverts1(bi, base)
    requires 0 < un0 <= tp.Length && tp[un0 - 1] != 0
    modifies tp
    ensures un <= un0 && 0 <= Val(tp[..un]) && (un > 0 <==> Val(tp[..un]) > 0) && (un > 0 ==> tp[un - 1] != 0)
    ensures Val(tp[..un]) * base <= old(Val(tp[..un0])) < Val(tp[..un]) * base + base
  {
    ghost var u := tp[..un0];
    var w, quot := DivQr1Preinv(tp, tp, un0, bi, base);
    ghost var q := tp[..un0];
    if un0 > 1 {
      NextTop(u, q, base, w);
      assert q[..un0 - 1] == tp[..un0 - 1];
    } else {
      LastLimb(q);
      assert tp[..0] == [];
    }
    un := if tp[un0 - 1] == 0 then un0 - 1 else un0;
  }

  // ---- output ----

  /** The base and the letter case a caller's base argument asks for. */
  function OutputBase(base: int): (int, bool) {
    var b := if base >= 0 then base else -base;
    (if b <= 1 then 10 else b, base < 0)
  }

  /** Negative bases ask for capital letters, and -1, 0 and 1 for decimal text. */
  lemma OutputBaseIs(base: int)
    ensures 2 <= base ==> OutputBase(base) == (base, false)
    ensures base <= -2 ==> OutputBase(base) == (-base, true)
    ensures -1 <= base <= 1 ==> OutputBase(base).0 == 10
  {
  }

  /** The text of u, terminated by a NUL; a base above 36 gives nothing. Without a buffer one is allocated. */
  method GetStr(sp0: array?<Byte>, base0: int, u: Mpz) returns (sp: array?<Byte>, ghost n: nat)
    requires u.Valid()
    requires sp0 != null && OutputBase(base0).0 <= 36 ==>
      |Numeral(Abs(u.Value()), OutputBase(base0).0)| + 2 <= sp0.Length
    modifies if sp0 != null then {sp0} else {}
    ensures u.Valid() && u.Value() == old(u.Value())
    ensures OutputBase(base0).0 > 36 ==> sp == null
    ensures OutputBase(base0).0 <= 36 ==>
      && sp != null && (if sp0 != null then sp == sp0 else fresh(sp))
      && n == |Text(u.Value(), OutputBase(base0).0, OutputBase(base0).1)| < sp.Length
      && sp[..n] == Text(u.Value(), OutputBase(base0).0, OutputBase(base0).1) && sp[n] == 0
    ensures sp0 != null ==> forall j :: n < j < sp0.Length ==> sp0[j] == old(sp0[j])
  {
    var base, upper := OutputBase(base0).0, OutputBase(base0).1;
    n := 0;
    sp := sp0;
    if base > 36 {
      return null, 0;
    }
    var size := SizeInBase(u, base);
    if sp == null {
      sp := new Byte[size + 2];
    }
    n := WriteText(sp, base, upper, u);
  }

  /** Sign, digits and terminator, in a buffer that is large enough. */
  method WriteText(sp: array<Byte>, base: nat, upper: bool, u: Mpz) returns (ghost n: nat)
    requires u.Valid() && 2 <= base <= 36
    requires |Numeral(Abs(u.Value()), base)| + 2 <= sp.Length
    modifies sp
    ensures u.Valid() && u.Value() == old(u.Value())
    ensures n == |Text(u.Value(), base, upper)| < sp.Length
    ensures sp[..n] == Text(u.Value(), base, upper) && sp[n] == 0
    ensures forall j :: n < j < sp.Length ==> sp[j] == old(sp[j])
  {
    if u.size == 0 {
      sp[0], sp[1] := ZERO, 0;
      n := 1;
      assert Chars([0], upper) == [ZERO];
    } else {
      n := WriteNonzero(sp, base, upper, u);
    }
  }

  method WriteNonzero(sp: array<Byte>, base: nat, upper: bool, u: Mpz) returns (ghost n: nat)
    requires u.Valid() && u.size != 0 && 2 <= base <= 36
    requires |Numeral(Abs(u.Value()), base)| + 2 <= sp.Length
    modifies sp
    ensures u.Valid() && u.Value() == old(u.Value())
    ensures n == |Text(u.Value(), base, upper)| < sp.Length
    ensures sp[..n] == Text(u.Value(), base, upper) && sp[n] == 0
    ensures forall j :: n < j < sp.Length ==> sp[j] == old(sp[j])
  {
    ghost var x := u.Value();
    var un := Abs(u.size);
    ValBound(u.d[..un]);
    ValTopNonzero(u.d[..un]);
    var i := 0;
    if u.size < 0 {
      sp[0] := MINUS;
      i := 1;
    }
    ghost var s := Numeral(Abs(x), base);
    NumeralDenotes(Abs(x), base);
    var sn := WriteNumeral(sp, i, base, u, un);
    MapDigits(sp, i, sn, upper, s);
    sp[i + sn] := 0;
    n := i + sn;
    JoinText(sp[..n], i, x, base, upper);
  }

  lemma JoinText(t: seq<Byte>, i: nat, x: int, base: nat, upper: bool)
    requires 2 <= base <= 36 && i <= |t| && i == (if x < 0 then 1 else 0) && (x < 0 ==> t[0] == MINUS)
    requires AllBelow(Numeral(Abs(x), base), 36) && t[i..] == Chars(Numeral(Abs(x), base), upper)
    ensures t == Text(x, base, upper)
  {
    assert t == t[..i] + t[i..];
  }

  /** The digits of |u| as numbers, by the path that suits the base. */
  method WriteNumeral(sp: array<Byte>, so: nat, base: nat, u: Mpz, un: nat) returns (sn: nat)
    requires u.Valid() && 0 < un == Abs(u.size) && 2 <= base <= 36 && 0 <= Val(u.d[..un])
    requires so + |Numeral(Val(u.d[..un]), base)| <= sp.Length
    modifies sp
    ensures u.Valid() && 0 <= Val(u.d[..un]) && u.Value() == old(u.Value())
    ensures so + sn <= sp.Length && sp[so..so + sn] == Numeral(Val(u.d[..un]), base)
    ensures OnlyChanges(sp, so, sn)
  {
    var bits := PowerOfTwoBits(base);
    if bits > 0 {
      sn := GetStrBits(sp, so, bits, u.d, un);
    } else {
      var info := GetBaseInfo(base);
      var tp := new Limb[un];
      Copyi(tp, 0, u.d, 0, un);
      assert tp[..un] == tp[0..0 + un] == u.d[0..0 + un] == u.d[..un];
      sn := GetStrOther(sp, so, base, info, tp, un);
    }
  }

  /** Replaces digits by their characters. */
  method MapDigits(sp: array<Byte>, so: nat, sn: nat, upper: bool, ghost s: seq<Byte>)
    requires so + sn <= sp.Length && sp[so..so + sn] == s && AllBelow(s, 36)
    modifies sp
    ensures sp[so..so + sn] == Chars(s, upper)
    ensures OnlyChanges(sp, so, sn)
  {
    ghost var c := Chars(s, upper);
    for i := 0 to sn
      invariant forall j {:trigger s[j]} :: 0 <= j < sn ==> sp[so + j] == if j < i then c[j] else s[j]
      invariant OnlyChanges(sp, so, sn)
    {
      assert sp[so + i] == s[i];
      sp[so + i] := DigitChar(sp[so + i], upper);
    }
    assert forall j :: 0 <= j < sn ==> c[j] == DigitChar(s[j], upper);
    assert sp[so..so + sn] == c;
  }

  /** BigInt::get_value: a zero-filled buffer with room for sign and terminator, and its trailing zeros dropped. */
  method GetValue(u: Mpz) returns (result: seq<Byte>)
    requires u.Valid()
    ensures u.Valid() && u.Value() == old(u.Value())
    ensures result == Text(u.Value(), 10, false)
  {
    var size := SizeInBase(u, 10);
    var buffer := new Byte[size + 2](_ => 0);
    var sp;
    ghost var n;
    sp, n := GetStr(buffer, 10, u);
    ghost var t := Text(u.Value(), 10, false);
    NumeralDenotes(Abs(u.Value()), 10);
    assert t[n - 1] != 0 && buffer[n - 1] == t[n - 1];
    var pos := buffer.Length;
    while pos > 0 && buffer[pos - 1] == 0
      invariant n <= pos <= buffer.Length
      invariant forall j :: pos <= j < buffer.Length ==> buffer[j] == 0
    {
      pos := pos - 1;
    }
    result := buffer[..pos];
  }

  // ---- input ----

  /** The character at i; a C string ends with a NUL. */
  function At(s: seq<Byte>, i: nat): Byte
    requires i <= |s|
  {
    if i < |s| then s[i] else 0
  }

  /** What the digits of s[i0..] are, spaces skipped; fails at the first character that is not a digit. */
  method CollectDigits(dp: array<Byte>, s: seq<Byte>, i0: nat, base: nat) returns (ok: bool, dn: nat)
    requires 2 <= base <= 36 && i0 <= |s| <= i0 + dp.Length
    modifies dp
    ensures dn <= dp.Length && (ok <==> DigitsIn(s[i0..], base).Some?)
    ensures ok ==> DigitsIn(s[i0..], base).value == dp[..dn] && AllBelow(dp[..dn], base)
  {
    ghost var whole := DigitsIn(s[i0..], base);
    var i := i0;
    dn := 0;
    BehindNothing(whole);
    assert dp[..0] == [];
    while i < |s|
      invariant i0 <= i <= |s| && dn <= i - i0 && AllBelow(dp[..dn], base)
      invariant whole == Behind(dp[..dn], DigitsIn(s[i..], base))
    {
      NextCharacter(s, i, base);
      if !IsSpace(s[i]) {
        if CharDigit(s[i]) >= base {
          return false, dn;
        }
        BehindBoth(dp[..dn], CharDigit(s[i]), DigitsIn(s[i + 1..], base));
        ghost var was := dp[..dn];
        dp[dn] := CharDigit(s[i]);
        dn := dn + 1;
        assert dp[..dn] == was + [CharDigit(s[i])];
      }
      i := i + 1;
    }
    assert s[i..] == [];
    ok := true;
  }

  lemma NextCharacter(s: seq<Byte>, i: nat, base: int)
    requires i < |s| && 2 <= base <= 36
    ensures var d, rest := CharDigit(s[i]), DigitsIn(s[i + 1..], base);
      DigitsIn(s[i..], base) == if IsSpace(s[i]) then rest else if d >= base then None else Behind([d], rest)
  {
    assert s[i..][0] == s[i] && s[i..][1..] == s[i + 1..];
  }

  /** Digits with others in front of them. */
  function Behind(front: seq<Byte>, rest: Option<seq<Byte>>): Option<seq<Byte>> {
    if rest.None? then None else Some(front + rest.value)
  }

  lemma BehindNothing(rest: Option<seq<Byte>>)
    ensures Behind([], rest) == rest
  {
    assert rest.Some? ==> [] + rest.value == rest.value;
  }

  lemma BehindBoth(front: seq<Byte>, d: Byte, rest: Option<seq<Byte>>)
    ensures Behind(front, Behind([d], rest)) == Behind(front + [d], rest)
  {
    assert rest.Some? ==> front + ([d] + rest.value) == front + [d] + rest.value;
  }

  /** r = the digits in dp, negated or not. */
  method StoreDigits(r: Mpz, dp: array<Byte>, dn: nat, base: nat, negative: bool)
    requires 2 <= base <= 36 && 0 < dn <= dp.Length && AllBelow(dp[..dn], base)
    modifies r, r.d
    ensures r.Valid() && (r.d == old(r.d) || fresh(r.d))
    ensures r.Value() == if negative then -Digits(dp[..dn], dn, base) else Digits(dp[..dn], dn, base)
  {
    var bits := PowerOfTwoBits(base);
    var rn: nat;
    if bits > 0 {
      r.Realloc(RoundUp(bits * dn, LIMB_BITS));
      rn := SetStrBits(r.d, dp, dn, bits);
    } else {
      var info := GetBaseInfo(base);
      r.Realloc(RoundUp(dn, info.exp));
      MulMono(info.exp, RoundUp(dn, info.exp), r.d.Length);
      rn := SetStrOther(r.d, dp, dn, base, info);
      if r.d[rn - 1] == 0 {
        assert r.d[..1] == [0] && r.d[..0] == [];
        LastLimb([0]);
        rn := rn - 1;
      }
    }
    r.size := if negative then -(rn as int) else rn;
  }

  /** The base a prefix announces. */
  method ReadPrefix(s: seq<Byte>, i0: nat) returns (base: nat, i: nat)
    requires i0 <= |s| && forall k :: 0 <= k < |s| ==> s[k] != 0
    ensures i <= |s| && Prefixed(s[i0..]) == (base, s[i..])
  {
    i := i0;
    ghost var u := s[i..];
    if At(s, i) == ZERO {
      assert u[0] == s[i];
      if At(s, i + 1) == 120 || At(s, i + 1) == 88 {
        base := 16;
        i := i + 2;
        assert s[i..] == u[2..];
      } else if At(s, i + 1) == 98 || At(s, i + 1) == 66 {
        base := 2;
        i := i + 2;
        assert s[i..] == u[2..];
      } else {
        base := 8;
      }
    } else {
      base := 10;
    }
  }

  /** Skips spaces, a sign and, when the base is open, its prefix. */
  method ReadHeader(s: seq<Byte>, base0: nat) returns (negative: bool, base: nat, i: nat)
    requires forall k :: 0 <= k < |s| ==> s[k] != 0
    ensures i <= |s| && Header(s, base0) == (negative, base, s[i..])
  {
    i := 0;
    while i < |s| && IsSpace(s[i])
      invariant i <= |s| && SkipSpaces(s) == SkipSpaces(s[i..])
    {
      assert s[i..][1..] == s[i + 1..];
      i := i + 1;
    }
    ghost var t := s[i..];
    negative := At(s, i) == MINUS;
    if negative {
      i := i + 1;
      assert s[i..] == t[1..];
    }
    base := base0;
    if base == 0 {
      base, i := ReadPrefix(s, i);
    }
  }

  /** r = the number s denotes; fails, leaving zero, when s is malformed. */
  method SetStr(r: Mpz, s: seq<Byte>, base0: nat) returns (ok: bool)
    requires base0 == 0 || 2 <= base0 <= 36
    requires forall i :: 0 <= i < |s| ==> s[i] != 0
    modifies r, r.d
    ensures r.Valid() && (r.d == old(r.d) || fresh(r.d))
    ensures ok <==> Parse(s, base0).Some?
    ensures r.Value() == if ok then Parse(s, base0).value else 0
  {
    var negative, base, i := ReadHeader(s, base0);
    if i == |s| {
      r.size := 0;
      return false;
    }
    var dp := new Byte[|s| - i];
    var dn;
    ok, dn := CollectDigits(dp, s, i, base);
    if !ok || dn == 0 {
      r.size := 0;
      return false;
    }
    StoreDigits(r, dp, dn, base, negative);
  }
}
