/**
 The word macros: additions, subtractions and products of limbs in fixed-width
 arithmetic. Every intermediate wraps modulo B, exactly where the C code's does.
 */
module Words {
  import opened Arith
  import opened Limbs

  /** `AddW` and `SubW` are addition and subtraction modulo B. */
  lemma WrapsModuloB(x: Limb, y: Limb)
    ensures AddW(x, y) == (x + y) % B
    ensures SubW(x, y) == (x - y) % B
  {
    DivModUnique(x + y, B, if x + y < B then 0 else 1, AddW(x, y));
    DivModUnique(x - y, B, if x >= y then 0 else -1, SubW(x, y));
  }

  /** Two-limb addition: exact unless it carries out of the second limb. */
  function AddSsaaaa(ah: Limb, al: Limb, bh: Limb, bl: Limb): (s: (Limb, Limb))
    ensures var t := ah * B + al + bh * B + bl;
      s.0 * B + s.1 == if t < BB then t else t - BB
  {
    var x := AddW(al, bl);
    (AddW(AddW(ah, bh), if x < al then 1 else 0), x)
  }

  /** Two-limb subtraction: exact unless it borrows from above the second limb. */
  function SubDdmmss(ah: Limb, al: Limb, bh: Limb, bl: Limb): (s: (Limb, Limb))
    ensures var t := ah * B + al - bh * B - bl;
      s.0 * B + s.1 == if t >= 0 then t else t + BB
  {
    var x := SubW(al, bl);
    (SubW(SubW(ah, bh), if al < bl then 1 else 0), x)
  }

  lemma HalfProducts(ul: int, uh: int, vl: int, vh: int)
    ensures (uh * H + ul) * (vh * H + vl) == uh * vh * B + (ul * vh + uh * vl) * H + ul * vl
  {
    MulDist(uh * H + ul, vh * H, vl);
    MulDist(vl, uh * H, ul);
    MulDist(vh * H, uh * H, ul);
    assert (uh * H) * (vh * H) == uh * vh * B;
    assert (uh * H) * vl == uh * vl * H;
    assert ul * (vh * H) == ul * vh * H;
  }

  /** The carry handling of `UmulPpmm`, with the four half-word products as unknowns. */
  lemma UmulCarries(x0: int, x1: int, x2: int, x3: int, z1: Limb, z3: Limb)
    requires 0 <= x0 <= (H - 1) * (H - 1) && 0 <= x1 <= (H - 1) * (H - 1)
    requires 0 <= x2 <= (H - 1) * (H - 1) && 0 <= x3 <= (H - 1) * (H - 1)
    requires z1 == AddW(AddW(x1, x0 / H), x2)
    requires z3 == if z1 < x2 then AddW(x3, H) else x3
    ensures AddW(z3, z1 / H) * B + AddW(z1 * H % B, x0 % H) == x3 * B + (x1 + x2) * H + x0
  {
    var a, l, y := x0 / H, x0 % H, x1 + x0 / H;
    assert x0 == a * H + l && 0 <= a < H && 0 <= l < H && y < B;
    HighHalfDrops(z1);
    if y + x2 < B {
      assert z1 == y + x2 && z3 == x3;
    } else {
      assert z1 == y + x2 - B && z3 == x3 + H;
    }
  }

  lemma HighHalfDrops(x: Limb)
    ensures x * H % B == x % H * H && x == x / H * H + x % H
  {
    DivModUnique(x * H, B, x / H, x % H * H);
  }

  /** The full double-word product, from four half-word products and one carry. */
  method UmulPpmm(u: Limb, v: Limb) returns (w1: Limb, w0: Limb)
    ensures w1 * B + w0 == u * v
  {
    var ul, uh := u % H, u / H;
    var vl, vh := v % H, v / H;
    ProductBound(ul, vl, H);
    ProductBound(ul, vh, H);
    ProductBound(uh, vl, H);
    ProductBound(uh, vh, H);
    var x0: Limb, x1: Limb, x2: Limb, x3: Limb := ul * vl, ul * vh, uh * vl, uh * vh;
    ghost var p1, p2, p3: Limb := x1, x2, x3;
    x1 := AddW(x1, x0 / H);  // this cannot carry
    x1 := AddW(x1, x2);      // but this can
    if x1 < x2 {
      x3 := AddW(x3, H);
    }
    w1 := AddW(x3, x1 / H);
    w0 := AddW(x1 * H % B, x0 % H);
    UmulCarries(x0, p1, p2, p3, x1, x3);
    HalfProducts(ul, uh, vl, vh);
  }
}
