/** Powers of two, and powers of an arbitrary base. */
module Powers {
  import opened Arith

  function Pow(b: int, e: nat): int {
    if e == 0 then 1 else b * Pow(b, e - 1)
  }

  function Pow2(n: nat): (p: int)
    ensures p >= 1
  {
    if n == 0 then 1 else 2 * Pow2(n - 1)
  }

  lemma {:induction false} Pow2Add(m: nat, n: nat)
    ensures Pow2(m + n) == Pow2(m) * Pow2(n)
  {
    if m > 0 {
      Pow2Add(m - 1, n);
      MulAssoc(2, Pow2(m - 1), Pow2(n));
    }
  }

  lemma {:induction false} Pow2Monotone(m: nat, n: nat)
    requires m <= n
    ensures Pow2(m) <= Pow2(n)
  {
    if m < n {
      Pow2Monotone(m, n - 1);
    }
  }

  lemma Pow2Constants()
    ensures Pow2(8) == 0x100 && Pow2(16) == 0x1_0000 && Pow2(32) == 0x1_0000_0000
    ensures Pow2(63) == 0x8000_0000_0000_0000
    ensures Pow2(64) == 0x1_0000_0000_0000_0000
  {
    assert Pow2(8) == 0x100;
    Pow2Add(8, 8);
    Pow2Add(16, 16);
    Pow2Add(32, 32);
  }

  /** The only divisors of a power of two are powers of two. */
  lemma {:induction false} DivisorOfPow2(x: int, y: int, n: nat) returns (k: nat)
    requires 0 < x && x * y == Pow2(n)
    ensures k <= n && x == Pow2(k)
    decreases n
  {
    MulCancel(0, y, x);
    if n == 0 {
      MulMono(x, 1, y);
      k := 0;
    } else if x % 2 == 0 {
      MulAssoc(2, x / 2, y);
      k := DivisorOfPow2(x / 2, y, n - 1);
      k := k + 1;
    } else if y % 2 == 0 {
      MulAssoc(x, 2, y / 2);
      MulAssoc(2, x, y / 2);
      k := DivisorOfPow2(x, y / 2, n - 1);
    } else {
      OddProduct(x / 2, y / 2);
      assert false;
    }
  }

  lemma OddProduct(a: int, b: int)
    ensures (2 * a + 1) * (2 * b + 1) == 2 * (2 * (a * b) + a + b) + 1
  {
    MulDist(2 * a + 1, 2 * b, 1);
    MulDist(2 * b, 2 * a, 1);
    assert (2 * a) * (2 * b) == 4 * (a * b) by { MulAssoc(2, a, 2 * b); MulAssoc(a, 2, b); }
  }

  // ---- powers of a base ----

  lemma {:induction false} PowPositive(b: int, n: nat)
    requires 1 <= b
    ensures 1 <= Pow(b, n)
  {
    if n > 0 {
      PowPositive(b, n - 1);
      MulMono(b, 1, Pow(b, n - 1));
    }
  }

  lemma {:induction false} PowAdd(b: int, m: nat, n: nat)
    ensures Pow(b, m + n) == Pow(b, m) * Pow(b, n)
  {
    if m > 0 {
      PowAdd(b, m - 1, n);
      MulAssoc(b, Pow(b, m - 1), Pow(b, n));
    }
  }

  lemma PowMonotone(b: int, m: nat, n: nat)
    requires 1 <= b && m <= n
    ensures 1 <= Pow(b, m) <= Pow(b, n)
  {
    PowAdd(b, m, n - m);
    PowPositive(b, m);
    PowPositive(b, n - m);
    MulMono(Pow(b, m), 1, Pow(b, n - m));
  }

  lemma {:induction false} PowOfPow2(k: nat, n: nat)
    ensures 0 <= k * n && Pow(Pow2(k), n) == Pow2(k * n)
  {
    MulNonNeg(k, n);
    if n > 0 {
      PowOfPow2(k, n - 1);
      Pow2Add(k, k * (n - 1));
      MulDist(k, 1, n - 1);
    }
  }

  /** Powers compare like their roots. */
  lemma {:induction false} PowStrict(x: int, y: int, e: nat)
    requires 0 <= x < y && 0 < e
    ensures 0 <= Pow(x, e) < Pow(y, e)
  {
    if e == 1 {
      assert Pow(x, 1) == x && Pow(y, 1) == y;
    } else {
      PowStrict(x, y, e - 1);
      MulMono(x, Pow(x, e - 1), Pow(y, e - 1));
      MulMono(Pow(y, e - 1), x + 1, y);
      MulDist(Pow(y, e - 1), x, 1);
      MulNonNeg(x, Pow(x, e - 1));
    }
  }

  lemma {:induction false} PowPow(b: int, m: nat, n: nat)
    ensures Pow(Pow(b, m), n) == Pow(b, m * n)
  {
    if n > 0 {
      PowPow(b, m, n - 1);
      PowAdd(b, m, m * (n - 1));
      MulDist(m, n - 1, 1);
    } else {
      assert m * 0 == 0;
    }
  }

  lemma {:induction false} PowBaseMonotone(x: int, y: int, e: nat)
    requires 0 <= x <= y
    ensures 0 <= Pow(x, e) <= Pow(y, e)
  {
    if e > 0 {
      PowBaseMonotone(x, y, e - 1);
      MulMono(x, Pow(x, e - 1), Pow(y, e - 1));
      MulMono(Pow(y, e - 1), x, y);
      MulNonNeg(x, Pow(x, e - 1));
    }
  }
}
