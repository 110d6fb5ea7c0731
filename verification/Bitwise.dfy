/** Bitwise operations on integers, read as infinitely sign-extended two's complement. */
module Bitwise {
  import opened Arith
  import opened Powers

  datatype BitOp = And | Ior | Xor

  predicate OnBool(op: BitOp, a: bool, b: bool) {
    match op case And => a && b case Ior => a || b case Xor => a != b
  }

  /** Bit k of x; division rounds down, for negative x as well. */
  predicate Bit(x: int, k: nat)
    decreases k
  {
    if k == 0 then x % 2 == 1 else Bit(x / 2, k - 1)
  }

  /** x op y, bit by bit from below, until only sign bits are left. */
  function Apply(op: BitOp, x: int, y: int): (r: int)
    ensures x >= 0 && y >= 0 ==> r >= 0
    decreases Distance(x) + Distance(y)
  {
    if -1 <= x <= 0 && -1 <= y <= 0 then if OnBool(op, x == -1, y == -1) then -1 else 0
    else 2 * Apply(op, x / 2, y / 2) + if OnBool(op, x % 2 == 1, y % 2 == 1) then 1 else 0
  }

  /** How far x is from being only sign bits. */
  function Distance(x: int): nat {
    if x >= 0 then x else -1 - x
  }

  /** One step of the definition, which also holds when only sign bits are left. */
  lemma BitwiseStep(op: BitOp, x: int, y: int)
    ensures Apply(op, x, y) == 2 * Apply(op, x / 2, y / 2) + if OnBool(op, x % 2 == 1, y % 2 == 1) then 1 else 0
  {}

  /** Bit k has weight 2^k. */
  lemma {:induction false} BitOfQuotient(x: int, k: nat)
    ensures Bit(x, k) <==> x / Pow2(k) % 2 == 1
    decreases k
  {
    if k == 0 {
      assert x / 1 == x;
    } else {
      var p := Pow2(k - 1);
      BitOfQuotient(x / 2, k - 1);
      DivBounds(x / 2, p);
      HalveQuotient(x, p, x / 2 / p);
    }
  }

  lemma HalveQuotient(x: int, p: int, q: int)
    requires 0 < p && q * p <= x / 2 < q * p + p
    ensures x / (2 * p) == q
  {
    MulAssoc(2, p, q);
    DivModUnique(x, 2 * p, q, x - q * (2 * p));
  }

  /** The operation acts on every bit by itself, from the lowest to those of the infinite sign extension. */
  lemma {:induction false} BitwiseBits(op: BitOp, x: int, y: int, k: nat)
    ensures Bit(Apply(op, x, y), k) == OnBool(op, Bit(x, k), Bit(y, k))
    decreases k
  {
    LowestBit(op, x, y);
    if k > 0 {
      BitwiseBits(op, x / 2, y / 2, k - 1);
    }
  }

  lemma LowestBit(op: BitOp, x: int, y: int)
    ensures Apply(op, x, y) / 2 == Apply(op, x / 2, y / 2)
    ensures Apply(op, x, y) % 2 == if OnBool(op, x % 2 == 1, y % 2 == 1) then 1 else 0
  {
    BitwiseStep(op, x, y);
  }

  /** Bits determine an integer, so the property above determines the operation. */
  lemma {:induction false} BitsDetermine(x: int, y: int)
    requires forall k: nat :: Bit(x, k) == Bit(y, k)
    ensures x == y
    decreases Distance(x) + Distance(y)
  {
    assert Bit(x, 0) == Bit(y, 0);
    if -1 <= x <= 0 && -1 <= y <= 0 {
    } else {
      forall k: nat ensures Bit(x / 2, k) == Bit(y / 2, k) {
        assert Bit(x, k + 1) == Bit(y, k + 1);
      }
      BitsDetermine(x / 2, y / 2);
    }
  }

  lemma {:induction false} BitwiseCommutes(op: BitOp, x: int, y: int)
    ensures Apply(op, x, y) == Apply(op, y, x)
    decreases Distance(x) + Distance(y)
  {
    if !(-1 <= x <= 0 && -1 <= y <= 0) {
      BitwiseCommutes(op, x / 2, y / 2);
    }
  }

  lemma {:induction false} BitwiseBound(op: BitOp, a: int, b: int, n: nat)
    requires 0 <= a < Pow2(n) && 0 <= b < Pow2(n)
    ensures 0 <= Apply(op, a, b) < Pow2(n)
  {
    if n > 0 {
      BitwiseStep(op, a, b);
      BitwiseBound(op, a / 2, b / 2, n - 1);
    }
  }

  /** The low n bits a, b of x', y' and the rest are treated separately. */
  lemma {:induction false} BitwiseSplit(op: BitOp, a: int, b: int, x: int, y: int, n: nat, p: int, x': int, y': int)
    requires p == Pow2(n) && 0 <= a < p && 0 <= b < p && x' == a + p * x && y' == b + p * y
    ensures Apply(op, x', y') == Apply(op, a, b) + p * Apply(op, x, y)
    decreases n
  {
    if n > 0 {
      var h := Pow2(n - 1);
      HalfSum(x', a, p, h, x);
      HalfSum(y', b, p, h, y);
      BitwiseSplit(op, a / 2, b / 2, x, y, n - 1, h, x' / 2, y' / 2);
      JoinHalves(op, x', y', a, b, p, h, Apply(op, x, y));
    } else {
      assert Apply(op, 0, 0) == 0;
    }
  }

  lemma HalfSum(x': int, a: int, p: int, h: int, x: int)
    requires x' == a + p * x && p == 2 * h
    ensures x' / 2 == a / 2 + h * x && x' % 2 == a % 2
  {
    MulAssoc(2, h, x);
  }

  lemma JoinHalves(op: BitOp, x': int, y': int, a: int, b: int, p: int, h: int, r: int)
    requires x' % 2 == a % 2 && y' % 2 == b % 2 && p == 2 * h
    requires Apply(op, x' / 2, y' / 2) == Apply(op, a / 2, b / 2) + h * r
    ensures Apply(op, x', y') == Apply(op, a, b) + p * r
  {
    BitwiseStep(op, x', y');
    BitwiseStep(op, a, b);
    MulAssoc(2, h, r);
  }

  /** Exclusive or with all ones is the complement. */
  lemma {:induction false} XorOnes(x: int, n: nat)
    requires 0 <= x < Pow2(n)
    ensures Apply(Xor, x, Pow2(n) - 1) == Pow2(n) - 1 - x
  {
    if n > 0 {
      var p := Pow2(n - 1);
      XorOnes(x / 2, n - 1);
      BitwiseStep(Xor, x, 2 * p - 1);
      assert (2 * p - 1) / 2 == p - 1 && (2 * p - 1) % 2 == 1;
    }
  }

  lemma {:induction false} XorZero(x: int)
    ensures Apply(Xor, x, 0) == x
    decreases Distance(x)
  {
    if !(-1 <= x <= 0) {
      XorZero(x / 2);
    }
  }

  lemma {:induction false} IorZero(x: int)
    ensures Apply(Ior, x, 0) == x
    decreases Distance(x)
  {
    if !(-1 <= x <= 0) {
      IorZero(x / 2);
    }
  }

  /** And with 0 and or with -1 do not depend on the other operand. */
  lemma {:induction false} Absorbed(x: int)
    ensures Apply(And, x, 0) == 0 && Apply(Ior, x, -1) == -1
    decreases Distance(x)
  {
    if !(-1 <= x <= 0) {
      Absorbed(x / 2);
    }
  }

  // ---- masks ----

  lemma {:induction false} AndZero(x: nat)
    ensures Apply(And, x, 0) == 0
  {
    if x > 0 {
      BitwiseStep(And, x, 0);
      AndZero(x / 2);
    }
  }

  /** Masking with 2^k - 1 leaves the k low bits. */
  lemma {:induction false} LowMask(x: nat, k: nat)
    ensures Apply(And, x, Pow2(k) - 1) == x % Pow2(k)
    decreases k
  {
    if k == 0 {
      AndZero(x);
    } else {
      LowMask(x / 2, k - 1);
      LowMaskStep(x, Pow2(k - 1));
    }
  }

  lemma LowMaskStep(x: nat, h: int)
    requires 1 <= h && Apply(And, x / 2, h - 1) == x / 2 % h
    ensures Apply(And, x, 2 * h - 1) == x % (2 * h)
  {
    OddMask(x, h - 1, 2 * h - 1);
    LowBitsSplit(x, h, x / 2 / h, x / 2 % h);
  }

  lemma OddMask(x: int, half: int, mask: int)
    requires mask == 2 * half + 1
    ensures Apply(And, x, mask) == 2 * Apply(And, x / 2, half) + x % 2
  {
    BitwiseStep(And, x, mask);
  }

  lemma LowBitsSplit(x: nat, h: int, q: int, r: int)
    requires 1 <= h && q == x / 2 / h && r == x / 2 % h
    ensures x % (2 * h) == 2 * r + x % 2
  {
    DivBounds(x / 2, h);
    MulAssoc(q, 2, h);
    DivModUnique(x, 2 * h, q, 2 * r + x % 2);
  }
}
