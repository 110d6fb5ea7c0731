/** Writing limbs as digits: the bit path for bases that are powers of two, the division path for the others. */
module BaseOut {
  import opened Arith
  import opened Powers
  import opened Limbs
  import opened Bits
  import opened Mpn
  import opened MpnDiv
  import opened Numerals
  import opened WordDivision

  // ---- the base ----

  /** The exponent of a base that is a power of two, or zero. */
  function PowerOfTwoBits(b: nat): (bits: nat)
    ensures bits <= 8 && (bits > 0 ==> b == Pow2(bits))
  {
    assert Pow2(8) == 0x100 by { Pow2Constants(); }
    match b
    case 2 => 1 case 4 => 2 case 8 => 3 case 16 => 4 case 32 => 5
    case 64 => 6 case 128 => 7 case 256 => 8
    case _ => 0
  }

  /** The largest power of the base that fits in a limb. */
  datatype BaseInfo = BaseInfo(exp: nat, bb: Limb)

  ghost predicate Describes(info: BaseInfo, b: int) {
    info.exp > 0 && info.bb == Pow(b, info.exp) && B <= info.bb * b
  }

  method GetBaseInfo(b: Limb) returns (info: BaseInfo)
    requires 2 <= b
    ensures Describes(info, b)
  {
    var m := (B - 1) / b;
    var exp, p: Limb := 1, b;
    assert Pow(b, 1) == b * Pow(b, 0);
    while p <= m
      invariant exp > 0 && 0 < p == Pow(b, exp)
      decreases B - p
    {
      LargerPower(b, m, p);
      p := b * p;
      exp := exp + 1;
    }
    LargestPower(b, m, p);
    info := BaseInfo(exp, p);
  }

  lemma LargerPower(b: int, m: int, p: int)
    requires 2 <= b && m == (B - 1) / b && 0 < p <= m
    ensures p < b * p < B
  {
    DivBounds(B - 1, b);
    MulMono(b, p, m);
    MulMono(p, 2, b);
  }

  lemma LargestPower(b: int, m: int, p: int)
    requires 2 <= b && m == (B - 1) / b && m < p
    ensures B <= p * b
  {
    DivBounds(B - 1, b);
    MulMono(b, m + 1, p);
    MulDist(b, m, 1);
  }

  // ---- sizes in bits ----

  method LimbBits(u: Limb) returns (n: nat)
    requires u > 0
    ensures 0 < n <= LIMB_BITS && Pow2(n - 1) <= u < Pow2(n)
  {
    var shift := Clz(u);
    n := LIMB_BITS - shift;
    Pow2Complement(shift);
    Unscaled(u, Pow2(shift), Pow2(n), Pow2(n - 1));
  }

  lemma Unscaled(u: int, c: int, t: int, h: int)
    requires 0 < c && c * t == B && t == 2 * h && B / 2 <= u * c < B
    ensures h <= u < t
  {
    MulAssoc(c, 2, h);
    MulCancel(u, t, c);
    MulDist(c, u, 1);
    MulCancel(h, u + 1, c);
  }

  /** The number of bits of a number with a nonzero top limb. */
  method BitSize(up: array<Limb>, un: nat) returns (n: nat)
    requires 0 < un <= up.Length && up[un - 1] != 0
    ensures 0 < n <= LIMB_BITS * un && Pow2(n - 1) <= Val(up[..un]) < Pow2(n)
  {
    var t := LimbBits(up[un - 1]);
    n := (un - 1) * LIMB_BITS + t;
    BitsAbove(up[..un], t);
  }

  lemma BitsAbove(u: seq<Limb>, t: nat)
    requires |u| > 0 && t > 0 && Pow2(t - 1) <= u[|u| - 1] < Pow2(t)
    ensures Pow2(LIMB_BITS * (|u| - 1) + t - 1) <= Val(u) < Pow2(LIMB_BITS * (|u| - 1) + t)
  {
    var k := |u| - 1;
    PwIsPow2(k);
    Pow2Add(LIMB_BITS * k, t - 1);
    Pow2Add(LIMB_BITS * k, t);
    LowBound(u, k);
    WeightedTop(Low(u, k), Pw(k), u[k], Pow2(t - 1), Pow2(t));
  }

  lemma WeightedTop(lo: int, p: int, x: int, low: int, high: int)
    requires 0 <= lo < p && low <= x < high
    ensures p * low <= lo + p * x < p * high
  {
    MulMono(p, low, x);
    MulMono(p, x + 1, high);
    MulDist(p, x, 1);
  }

  lemma DigitsNeeded(n: nat, bits: nat) returns (sn: nat)
    requires 0 < bits && 0 < n
    ensures sn == (n + bits - 1) / bits && 0 < sn && n <= bits * sn < n + bits && bits * (sn - 1) <= n - 1
  {
    DivBounds(n + bits - 1, bits);
    sn := (n + bits - 1) / bits;
    MulCancel(0, sn, bits);
    MulDist(bits, sn, -1);
  }

  /** Rounding the bit count up to whole digits gives the digit count. */
  lemma DigitsForBits(x: int, bits: nat, n: nat) returns (sn: nat)
    requires 0 < bits <= 8 && 0 < n && Pow2(n - 1) <= x < Pow2(n)
    ensures sn == (n + bits - 1) / bits && 0 < sn && n <= bits * sn < n + bits
    ensures 2 <= Pow2(bits) <= 0x100 && x < Pow(Pow2(bits), sn) && sn == |Numeral(x, Pow2(bits))|
  {
    sn := DigitsNeeded(n, bits);
    Pow2Monotone(1, bits);
    Pow2Monotone(bits, 8);
    Pow2Constants();
    PowOfPow2(bits, sn);
    PowOfPow2(bits, sn - 1);
    Pow2Monotone(n, bits * sn);
    Pow2Monotone(bits * (sn - 1), n - 1);
    DigitCount(x, Pow2(bits), sn);
  }

  // ---- the bit path ----

  lemma ModShift(a: int, m: int, k: int)
    requires 0 < m
    ensures (a + m * k) % m == a % m
  {
    DivBounds(a, m);
    MulDist(m, a / m, k);
    DivModUnique(a + m * k, m, a / m + k, a % m);
  }

  /** Reducing first modulo a multiple changes nothing. */
  lemma ModMod(a: int, m: int, k: int)
    requires 0 < m && 0 < k
    ensures 0 < m * k && (a % (m * k)) % m == a % m
  {
    MulPositive(m, k);
    DivBounds(a, m * k);
    MulAssoc(m, k, a / (m * k));
    ModShift(a % (m * k), m, k * (a / (m * k)));
  }

  /** Dropping whole limbs and then some bits. */
  lemma DropLimbs(lo: int, p: int, t: int, c: int)
    requires 0 <= lo < p && 0 <= t && 0 < c
    ensures 0 < p * c && (lo + p * t) / (p * c) == t / c
  {
    var q, r := t / c, t % c;
    DivBounds(t, c);
    MulPositive(p, c);
    MulAssoc(p, c, q);
    MulDist(p, q * c, r);
    MulMono(p, r + 1, c);
    MulDist(p, r, 1);
    MulNonNeg(p, r);
    DivModUnique(lo + p * t, p * c, q, lo + p * r);
  }

  /** A digit that lies within the limb u, above c. */
  lemma DigitWithin(u: Limb, rest: int, c: int, t: int, m: int, k: int)
    requires 0 < c && c * t == B && t == m * k && 0 < m
    ensures (u + B * rest) / c % m == u / c % m
  {
    DivBounds(u, c);
    MulAssoc(c, t, rest);
    MulDist(c, u / c, t * rest);
    DivModUnique(u + B * rest, c, u / c + t * rest, u % c);
    MulAssoc(m, k, rest);
    ModShift(u / c, m, k * rest);
  }

  /** A digit that takes the bits of u above c, and the others from w, the next limb. */
  lemma DigitAcross(u: Limb, w: Limb, rest: int, c: int, t: int, m: int, k: int)
    requires 0 < c && 0 < t && c * t == B && 0 < m && m * k == B
    ensures u / c < t
    ensures (u + B * (w + B * rest)) / c % m == (u / c + w * t % B) % m
  {
    DivBounds(u, c);
    MulCancel(u / c, t, c);
    var v := w + B * rest;
    MulAssoc(c, t, v);
    MulDist(c, u / c, t * v);
    DivModUnique(u + B * v, c, u / c + t * v, u % c);
    MulDist(t, w, B * rest);
    MulAssoc(t, B, rest);
    DivBounds(w * t, B);
    var e := (w * t) / B + t * rest;
    MulDist(B, (w * t) / B, t * rest);
    MulAssoc(m, k, e);
    ModShift(u / c + w * t % B, m, k * e);
  }

  /** Where the digit straddles two limbs, the pieces do not meet. */
  lemma PiecesDisjoint(u: Limb, w: Limb, shift: nat, cnt: nat)
    requires cnt <= 8 && shift + cnt == LIMB_BITS
    ensures Shr(u, shift) < 0x100
    ensures BitOr(Shr(u, shift), ShlW(w, cnt)) == Shr(u, shift) + ShlW(w, cnt)
  {
    ShrParts(u, shift);
    ShlParts(w, cnt);
    OrDisjoint(ShlW(w, cnt), Shr(u, shift), cnt);
    OrCommutes(ShlW(w, cnt), Shr(u, shift));
    Pow2Monotone(cnt, 8);
    Pow2Constants();
  }

  /** And only a multiple of the base is lost. */
  lemma Straddles(x: int, u: Limb, w: Limb, rest: int, shift: nat, bits: nat, cnt: nat)
    requires bits <= LIMB_BITS && shift + cnt == LIMB_BITS && x == u + B * (w + B * rest)
    ensures x / Pow2(shift) % Pow2(bits) == (Shr(u, shift) + ShlW(w, cnt)) % Pow2(bits)
  {
    Pow2Complement(LIMB_BITS - cnt);
    Pow2Complement(bits);
    DigitAcross(u, w, rest, Pow2(shift), Pow2(cnt), Pow2(bits), Pow2(LIMB_BITS - bits));
  }

  lemma LiesWithin(u: Limb, rest: int, shift: nat, bits: nat)
    requires shift + bits <= LIMB_BITS
    ensures (u + B * rest) / Pow2(shift) % Pow2(bits) == Shr(u, shift) % Pow2(bits)
  {
    Pow2Complement(shift);
    Pow2Add(bits, LIMB_BITS - shift - bits);
    DigitWithin(u, rest, Pow2(shift), Pow2(LIMB_BITS - shift), Pow2(bits), Pow2(LIMB_BITS - shift - bits));
  }

  /** A byte keeps all the bits of a digit. */
  lemma MaskedByte(x: int, bits: nat)
    requires 0 < bits <= 8
    ensures x % 0x100 % Pow2(bits) == x % Pow2(bits) < 0x100
  {
    Pow2Add(bits, 8 - bits);
    Pow2Constants();
    ModMod(x, Pow2(bits), Pow2(8 - bits));
  }

  /** The digit of width `bits` at bit `shift` of limb i. */
  function DigitOfLimbs(u: seq<Limb>, i: nat, shift: nat, bits: nat): int
    requires i <= |u|
  {
    Val(u[i..]) / Pow2(shift) % Pow2(bits)
  }

  lemma TwoUpperSteps(u: seq<Limb>, i: nat, x: int)
    requires i + 1 < |u| && x == Val(u[i..])
    ensures x == u[i] + B * (u[i + 1] + B * Val(u[i + 2..]))
  {
    UpperStep(u, i);
    UpperStep(u, i + 1);
  }

  lemma StraddlingDigit(u: seq<Limb>, i: nat, shift: nat, bits: nat)
    requires i + 1 < |u| && shift < LIMB_BITS && bits <= 8
    ensures DigitOfLimbs(u, i, shift, bits) == (Shr(u[i], shift) + ShlW(u[i + 1], LIMB_BITS - shift)) % Pow2(bits)
  {
    var x := Val(u[i..]);
    TwoUpperSteps(u, i, x);
    StraddlesAt(x, u[i], u[i + 1], Val(u[i + 2..]), shift, bits);
  }

  lemma StraddlesAt(x: int, low: Limb, high: Limb, rest: int, shift: nat, bits: nat)
    requires bits <= 8 && shift < LIMB_BITS && x == low + B * (high + B * rest)
    ensures x / Pow2(shift) % Pow2(bits) == (Shr(low, shift) + ShlW(high, LIMB_BITS - shift)) % Pow2(bits)
  {
    Straddles(x, low, high, rest, shift, bits, LIMB_BITS - shift);
  }

  lemma ContainedDigit(u: seq<Limb>, i: nat, shift: nat, bits: nat)
    requires i < |u| && shift < LIMB_BITS && (i + 1 == |u| || shift + bits <= LIMB_BITS)
    ensures DigitOfLimbs(u, i, shift, bits) == Shr(u[i], shift) % Pow2(bits)
  {
    UpperStep(u, i);
    if i + 1 < |u| {
      LiesWithin(u[i], Val(u[i + 1..]), shift, bits);
    }
  }

  method JoinPieces(low: Limb, high: Limb, shift: nat, bits: nat, piece: Byte) returns (digit: Byte)
    requires LIMB_BITS - 8 <= shift < LIMB_BITS && 0 < bits <= 8 && piece == Shr(low, shift) % 0x100
    ensures digit % Pow2(bits) == (Shr(low, shift) + ShlW(high, LIMB_BITS - shift)) % Pow2(bits) < 0x100
  {
    PiecesDisjoint(low, high, shift, LIMB_BITS - shift);
    ghost var sum := Shr(low, shift) + ShlW(high, LIMB_BITS - shift);
    SmallRemainder(Shr(low, shift));
    var w := BitOr(piece, ShlW(high, LIMB_BITS - shift));
    MaskedSum(w, sum, bits);
    digit := w % 0x100;
  }

  lemma SmallRemainder(x: int)
    requires 0 <= x < 0x100
    ensures x % 0x100 == x
  {
  }

  lemma MaskedSum(w: int, sum: int, bits: nat)
    requires w == sum && 0 < bits <= 8
    ensures w % 0x100 % Pow2(bits) == sum % Pow2(bits) < 0x100
  {
    MaskedByte(w, bits);
  }

  /** Bits of that limb, and of the next one when they run out. */
  method DigitAt(up: array<Limb>, un: nat, i: nat, shift: nat, bits: nat) returns (digit: Byte)
    requires i < un <= up.Length && shift < LIMB_BITS && 0 < bits <= 8
    ensures digit == DigitOfLimbs(up[..un], i, shift, bits)
  {
    digit := Shr(up[i], shift) % 0x100;
    if shift + bits >= LIMB_BITS && i + 1 < un {
      StraddlingDigit(up[..un], i, shift, bits);
      digit := JoinPieces(up[i], up[i + 1], shift, bits, digit);
    } else {
      MaskedByte(Shr(up[i], shift), bits);
      ContainedDigit(up[..un], i, shift, bits);
    }
    digit := digit % Pow2(bits);  // digit & mask
  }

  lemma DigitsOfLimbs(u: seq<Limb>, i: nat, shift: nat, bits: nat, k: nat)
    requires i < |u| && bits * k == LIMB_BITS * i + shift && 0 < bits
    ensures 2 <= Pow2(bits) && DigitOf(Val(u), Pow2(bits), k) == DigitOfLimbs(u, i, shift, bits)
  {
    Pow2Monotone(1, bits);
    PowOfPow2(bits, k);
    Pow2Add(LIMB_BITS * i, shift);
    PwIsPow2(i);
    ValSplit(u, i);
    ValBound(u[..i]);
    ValBound(u[i..]);
    DropLimbs(Val(u[..i]), Pw(i), Val(u[i..]), Pow2(shift));
  }

  /** Digit k starts at bit `shift` of limb i. */
  predicate StartsAt(bits: nat, k: nat, i: nat, shift: nat, un: nat) {
    i < un && shift < LIMB_BITS && bits * k == LIMB_BITS * i + shift
  }

  /** Another digit means another bit: the position moves on inside the number. */
  lemma NextPosition(bits: nat, k: nat, i: nat, shift: nat, un: nat, sn: nat, n: nat)
    requires 0 < bits <= 8 && bits * sn < n + bits && n <= LIMB_BITS * un && k + 1 < sn
    requires StartsAt(bits, k, i, shift, un)
    ensures if shift + bits < LIMB_BITS then StartsAt(bits, k + 1, i, shift + bits, un)
            else StartsAt(bits, k + 1, i + 1, shift + bits - LIMB_BITS, un)
  {
    MulDist(bits, k, 1);
    MulMono(bits, k + 1, sn - 1);
    MulDist(bits, sn, -1);
  }

  method KthDigit(up: array<Limb>, un: nat, i: nat, shift: nat, bits: nat, ghost k: nat) returns (digit: Byte)
    requires un <= up.Length && 0 < bits <= 8 && StartsAt(bits, k, i, shift, un)
    ensures 2 <= Pow2(bits) && digit == DigitOf(Val(up[..un]), Pow2(bits), k)
  {
    digit := DigitAt(up, un, i, shift, bits);
    DigitsOfLimbs(up[..un], i, shift, bits, k);
  }

  method Advance(bits: nat, i0: nat, shift0: nat, un: nat, ghost k: nat, ghost sn: nat, ghost n: nat)
    returns (i: nat, shift: nat)
    requires 0 < bits <= 8 && bits * sn < n + bits && n <= LIMB_BITS * un && StartsAt(bits, k, i0, shift0, un)
    ensures k + 1 < sn ==> StartsAt(bits, k + 1, i, shift, un)
  {
    if k + 1 < sn {
      NextPosition(bits, k, i0, shift0, un, sn, n);
    }
    i, shift := i0, shift0 + bits;
    if shift >= LIMB_BITS {
      i := i + 1;
      if i < un {
        shift := shift - LIMB_BITS;
      }
    }
  }

  /** The sn lowest digits of up in base 2^bits into sp, most significant first; n is the bit count. */
  method WriteDigits(sp: array<Byte>, so: nat, sn: nat, bits: nat, up: array<Limb>, un: nat, ghost n: nat)
    requires 0 < bits <= 8 && 0 < un <= up.Length && bits * sn < n + bits && n <= LIMB_BITS * un
    requires so + sn <= sp.Length && 2 <= Pow2(bits)
    modifies sp
    ensures Digitwise(sp[so..so + sn], Val(up[..un]), Pow2(bits)) && OnlyChanges(sp, so, sn)
  {
    ghost var x, b := Val(up[..un]), Pow2(bits);
    ghost var S: seq<Byte> := [];
    var i, j: nat, shift := 0, sn, 0;
    while j > 0
      invariant j <= sn && |S| == sn - j && Digitwise(S, x, b)
      invariant j > 0 ==> 0 <= shift && StartsAt(bits, sn - j, i, shift, un)
      invariant forall m :: 0 <= m < |S| ==> sp[so + j + m] == S[m]
      invariant OnlyChanges(sp, so, sn)
    {
      j := j - 1;
      var digit := KthDigit(up, un, i, shift, bits, sn - 1 - j);
      i, shift := Advance(bits, i, shift, un, sn - 1 - j, sn, n);
      sp[so + j] := digit;
      S := [digit] + S;
    }
    assert sp[so..so + sn] == S;
  }

  /** sp = up in base 2^bits, most significant digit first; returns the digit count. */
  method GetStrBits(sp: array<Byte>, so: nat, bits: nat, up: array<Limb>, un: nat) returns (sn: nat)
    requires 0 < bits <= 8 && 0 < un <= up.Length && up[un - 1] != 0
    requires 2 <= Pow2(bits) <= 0x100 && Val(up[..un]) >= 0
    requires so + |Numeral(Val(up[..un]), Pow2(bits))| <= sp.Length
    modifies sp
    ensures so + sn <= sp.Length && sp[so..so + sn] == Numeral(Val(up[..un]), Pow2(bits))
    ensures OnlyChanges(sp, so, sn)
  {
    ghost var x, b := Val(up[..un]), Pow2(bits);
    var n := BitSize(up, un);
    sn := (n + bits - 1) / bits;
    ghost var count := DigitsForBits(x, bits, n);
    WriteDigits(sp, so, sn, bits, up, un, n);
    DigitwiseNumeral(sp[so..so + sn], x, b);
  }

  lemma {:induction false} OrCommutes(x: nat, y: nat)
    ensures BitOr(x, y) == BitOr(y, x)
  {
    if x != 0 && y != 0 {
      OrCommutes(x / 2, y / 2);
    }
  }

  /** The k-th digit of x, counting from the least significant. */
  function DigitOf(x: int, b: int, k: nat): int
    requires 2 <= b
  {
    PowPositive(b, k);
    x / Pow(b, k) % b
  }

  ghost predicate Digitwise(s: seq<Byte>, x: int, b: int)
    requires 2 <= b
  {
    forall j :: 0 <= j < |s| ==> s[j] == DigitOf(x, b, |s| - 1 - j)
  }

  /** Digits that are right one by one read as the number. */
  lemma {:induction false} DigitwiseValue(s: seq<Byte>, n: nat, x: int, b: int)
    requires n <= |s| && 2 <= b && 0 <= x < Pow(b, |s|) && Digitwise(s, x, b)
    ensures Pow(b, |s| - n) > 0 && Digits(s, n, b) == x / Pow(b, |s| - n)
  {
    PowPositive(b, |s| - n);
    if n == 0 {
      DivModUnique(x, Pow(b, |s|), 0, x);
    } else {
      DigitwiseValue(s, n - 1, x, b);
      NextDigit(x, Pow(b, |s| - n), b);
    }
  }

  lemma NextDigit(x: int, p: int, b: int)
    requires 0 <= x && 0 < p && 2 <= b
    ensures 0 < b * p && x / (b * p) * b + x / p % b == x / p
  {
    MulPositive(b, p);
    NestedQuotient(x, p, b);
    DivBounds(x / p, b);
  }

  lemma NestedQuotient(x: int, p: int, b: int)
    requires 0 < p && 0 < b && 0 < b * p
    ensures x / (b * p) == x / p / b
  {
    var y := x / p;
    DivBounds(x, p);
    DivBounds(y, b);
    NestedParts(x, p, b, y, x % p, y / b, y % b);
    DivModUnique(x, b * p, y / b, (y % b) * p + x % p);
  }

  lemma NestedParts(x: int, p: int, b: int, y: int, r: int, q: int, r': int)
    requires x == y * p + r && y == q * b + r' && 0 <= r < p && 0 <= r' < b
    ensures x == q * (b * p) + (r' * p + r) && 0 <= r' * p + r < b * p
  {
    MulDist(p, q * b, r');
    MulAssoc(q, b, p);
    MulMono(p, r' + 1, b);
    MulDist(p, r', 1);
    MulNonNeg(r', p);
  }

  lemma DigitwiseBelow(s: seq<Byte>, x: int, b: int)
    requires 2 <= b && Digitwise(s, x, b)
    ensures AllBelow(s, b)
  {
    forall i | 0 <= i < |s| ensures s[i] < b {
      PowPositive(b, |s| - 1 - i);
      DivBounds(x / Pow(b, |s| - 1 - i), b);
    }
  }

  lemma DigitwiseNumeral(s: seq<Byte>, x: int, b: int)
    requires |s| > 0 && 2 <= b <= 0x100 && 0 < x < Pow(b, |s|) && |s| == |Numeral(x, b)|
    requires Digitwise(s, x, b)
    ensures s == Numeral(x, b)
  {
    DigitwiseValue(s, |s|, x, b);
    DivModUnique(x, 1, x, 0);
    DigitwiseBelow(s, x, b);
    NumeralByLength(s, x, b);
  }

  /** Digits of the right value and the right number are the numeral. */
  lemma NumeralByLength(s: seq<Byte>, x: int, b: int)
    requires 2 <= b <= 0x100 && AllBelow(s, b) && 0 <= x == Digits(s, |s|, b) && |s| == |Numeral(x, b)|
    ensures s == Numeral(x, b)
  {
    if x > 0 {
      AtLeastTop(x, b);
    }
    if s[0] == 0 && |s| > 1 {
      DigitsTail(s, |s|, b);
      DigitsBound(s[1..], |s| - 1, b);
    }
    NumeralUnique(s, x, b);
  }

  lemma AtLeastTop(x: int, b: int)
    requires 2 <= b <= 0x100 && 0 < x
    ensures Pow(b, |Numeral(x, b)| - 1) <= x
  {
    NumeralDenotes(x, b);
    LeadingDigit(Numeral(x, b), |Numeral(x, b)|, b);
  }

  lemma {:induction false} DigitsTail(s: seq<Byte>, n: nat, b: int)
    requires 0 < n <= |s| && s[0] == 0
    ensures Digits(s, n, b) == Digits(s[1..], n - 1, b)
  {
    if n > 1 {
      DigitsTail(s, n - 1, b);
    } else {
      assert Digits(s, 1, b) == s[0];
    }
  }
}
