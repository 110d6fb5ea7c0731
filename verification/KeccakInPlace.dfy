/**
 keccakf: the permutation as the source computes it, in place with a five-lane buffer.
 A machine word is modelled by its bits, least significant first.
 */
module KeccakInPlace {
  import opened Powers
  import opened Bitwise
  import opened KeccakF

  // ---- words ----

  function ZeroWord(): Word {
    seq(64, z => false)
  }

  function Xor(a: Word, b: Word): Word {
    seq(64, z requires 0 <= z < 64 => Plus(a[z], b[z]))
  }

  function And(a: Word, b: Word): Word {
    seq(64, z requires 0 <= z < 64 => a[z] && b[z])
  }

  function Or(a: Word, b: Word): Word {
    seq(64, z requires 0 <= z < 64 => a[z] || b[z])
  }

  function Not(a: Word): Word {
    seq(64, z requires 0 <= z < 64 => !a[z])
  }

  function Shl(a: Word, s: nat): Word {
    seq(64, z requires 0 <= z < 64 => z >= s && a[z - s])
  }

  function Shr(a: Word, s: nat): Word {
    seq(64, z requires 0 <= z < 64 => z + s < 64 && a[z + s])
  }

  /** The rol macro. */
  function Rol(x: Word, s: nat): Word
    requires s <= 64
  {
    Or(Shl(x, s), Shr(x, 64 - s))
  }

  lemma RolRotates(x: Word, s: nat)
    requires 0 < s < 64
    ensures Rol(x, s) == Rotated(x, s)
  {}

  // ---- theta ----

  /** The first n lanes of a column, summed. */
  function PartialColumn(s: State, x: nat, n: nat): Word
    requires x < 5 && n <= 5
  {
    if n == 0 then ZeroWord() else Xor(PartialColumn(s, x, n - 1), s[5 * (n - 1) + x])
  }

  /** C[x, .] as a word. */
  function Column(s: State, x: nat): Word
    requires x < 5
  {
    seq(64, z requires 0 <= z < 64 => C(s, x, z))
  }

  lemma WholeColumn(s: State, x: nat)
    requires x < 5
    ensures PartialColumn(s, x, 5) == Column(s, x)
  {
    var p := PartialColumn(s, x, 5);
    forall z | 0 <= z < 64 ensures p[z] == C(s, x, z) {
      assert PartialColumn(s, x, 1)[z] == s[x][z];
      assert PartialColumn(s, x, 2)[z] == Plus(s[x][z], s[5 + x][z]);
      assert PartialColumn(s, x, 3)[z] == Plus(Plus(s[x][z], s[5 + x][z]), s[10 + x][z]);
    }
  }

  /** D[x, .] as the source computes it. */
  lemma ColumnSum(s: State, x: nat)
    requires x < 5
    ensures forall z :: 0 <= z < 64 ==>
      Xor(Column(s, (x + 4) % 5), Rol(Column(s, (x + 1) % 5), 1))[z] == D(s, x, z)
  {
    var b4, b1 := Column(s, (x + 4) % 5), Column(s, (x + 1) % 5);
    RolRotates(b1, 1);
  }

  /** The lane theta makes of lane i. */
  lemma ThetaLane(s: State, i: nat, x: nat)
    requires i < 25 && x == i % 5
    ensures Theta(s)[i] == Xor(s[i], Xor(Column(s, (x + 4) % 5), Rol(Column(s, (x + 1) % 5), 1)))
  {
    ColumnSum(s, x);
  }

  /** Lanes already replaced, going through the columns one by one. */
  function ByColumns(s: State, t: State, x: nat, y: nat): State {
    seq(25, k requires 0 <= k < 25 => if k % 5 < x || (k % 5 == x && k / 5 < y) then t[k] else s[k])
  }

  lemma NextInColumn(s: State, t: State, x: nat, y: nat)
    requires x < 5 && y < 5
    ensures ByColumns(s, t, x, y)[5 * y + x := t[5 * y + x]] == ByColumns(s, t, x, y + 1)
    ensures ByColumns(s, t, x, y)[5 * y + x] == s[5 * y + x]
  {}

  lemma NextColumn(s: State, t: State, x: nat)
    requires x < 5
    ensures ByColumns(s, t, x, 5) == ByColumns(s, t, x + 1, 0)
  {}

  method ThetaInPlace(a: array<Word>, b: array<Word>)
    requires a.Length == 25 && b.Length == 5 && a != b
    modifies a, b
    ensures a[..] == Theta(old(a[..]))
  {
    ghost var s: State := a[..];
    for x := 0 to 5
      invariant a[..] == s
      invariant forall k :: 0 <= k < x ==> b[k] == Column(s, k)
    {
      b[x] := ZeroWord();
      for y := 0 to 5
        invariant a[..] == s
        invariant forall k :: 0 <= k < x ==> b[k] == Column(s, k)
        invariant b[x] == PartialColumn(s, x, y)
      {
        assert a[x + 5 * y] == s[5 * y + x];
        b[x] := Xor(b[x], a[x + 5 * y]);
      }
      WholeColumn(s, x);
    }
    AddColumns(a, b, s);
  }

  method AddColumn(a: array<Word>, b: array<Word>, ghost s: State, ghost t: State, x: nat, y: nat)
    requires a.Length == 25 && b.Length == 5 && a != b && x < 5 && y < 5
    requires a[..] == ByColumns(s, t, x, y) && t == Theta(s)
    requires forall k :: 0 <= k < 5 ==> b[k] == Column(s, k)
    modifies a
    ensures a[..] == ByColumns(s, t, x, y + 1)
  {
    ThetaLane(s, 5 * y + x, x);
    NextInColumn(s, t, x, y);
    assert a[5 * y + x] == a[..][5 * y + x];
    a[5 * y + x] := Xor(a[5 * y + x], Xor(b[(x + 4) % 5], Rol(b[(x + 1) % 5], 1)));
    assert a[..] == ByColumns(s, t, x, y)[5 * y + x := t[5 * y + x]];
  }

  /** The second half of theta. */
  method AddColumns(a: array<Word>, b: array<Word>, ghost s: State)
    requires a.Length == 25 && b.Length == 5 && a != b && a[..] == s
    requires forall k :: 0 <= k < 5 ==> b[k] == Column(s, k)
    modifies a
    ensures a[..] == Theta(s)
  {
    ghost var t := Theta(s);
    for x := 0 to 5
      invariant a[..] == ByColumns(s, t, x, 0)
    {
      for y := 0 to 5
        invariant a[..] == ByColumns(s, t, x, y)
      {
        AddColumn(a, b, s, t, x, y);
      }
      NextColumn(s, t, x);
    }
    assert ByColumns(s, t, 5, 0) == t;
  }

  // ---- rho and pi ----

  function RhoTable(k: nat): nat {
    match k
    case 0 => 1 case 1 => 3 case 2 => 6 case 3 => 10 case 4 => 15 case 5 => 21
    case 6 => 28 case 7 => 36 case 8 => 45 case 9 => 55 case 10 => 2 case 11 => 14
    case 12 => 27 case 13 => 41 case 14 => 56 case 15 => 8 case 16 => 25 case 17 => 43
    case 18 => 62 case 19 => 18 case 20 => 39 case 21 => 61 case 22 => 20 case _ => 44
  }

  function PiTable(k: nat): nat {
    match k
    case 0 => 10 case 1 => 7 case 2 => 11 case 3 => 17 case 4 => 18 case 5 => 3
    case 6 => 5 case 7 => 16 case 8 => 8 case 9 => 21 case 10 => 24 case 11 => 4
    case 12 => 15 case 13 => 23 case 14 => 19 case 15 => 13 case 16 => 12 case 17 => 2
    case 18 => 20 case 19 => 14 case 20 => 22 case 21 => 9 case 22 => 6 case _ => 1
  }

  /** At which step of the loop lane i is overwritten. */
  function StepOf(i: nat): nat {
    match i
    case 1 => 23 case 2 => 17 case 3 => 5 case 4 => 11 case 5 => 6 case 6 => 22
    case 7 => 1 case 8 => 8 case 9 => 21 case 10 => 0 case 11 => 2 case 12 => 16
    case 13 => 15 case 14 => 19 case 15 => 12 case 16 => 7 case 17 => 3 case 18 => 4
    case 19 => 14 case 20 => 18 case 21 => 9 case 22 => 20 case 23 => 13 case _ => 10
  }

  /** The lane whose contents go to lane PiTable(k). */
  function Previous(k: nat): nat {
    if k == 0 then 1 else PiTable(k - 1)
  }

  /** Step k moves lane 5y + x to lane 5((2x + 3y) mod 5) + y. */
  lemma PiFollowsWalk(k: nat)
    requires k < 24
    ensures PiTable(k) == 5 * ((2 * (Previous(k) % 5) + 3 * (Previous(k) / 5)) % 5) + Previous(k) / 5
  {}

  lemma PiInverse(k: nat)
    requires k < 24
    ensures 0 < PiTable(k) < 25 && StepOf(PiTable(k)) == k
  {}

  lemma StepInverse(i: nat)
    requires 0 < i < 25
    ensures StepOf(i) < 24 && PiTable(StepOf(i)) == i
  {}

  lemma RhoTriangular(k: nat)
    requires k < 24
    ensures 0 < RhoTable(k) < 64 && RhoTable(k) == (k + 1) * (k + 2) / 2 % 64
  {
    if k < 12 {
      FirstRotations(k);
    } else {
      LastRotations(k);
    }
  }

  lemma FirstRotations(k: nat)
    requires k < 12
    ensures 0 < RhoTable(k) < 64 && RhoTable(k) == (k + 1) * (k + 2) / 2 % 64
  {}

  lemma LastRotations(k: nat)
    requires 12 <= k < 24
    ensures 0 < RhoTable(k) < 64 && RhoTable(k) == (k + 1) * (k + 2) / 2 % 64
  {}

  /** The loop takes the lanes in the order of the walk of section 3.2.2. */
  lemma {:induction false} FollowsWalk(k: nat) returns (x: nat, y: nat)
    requires k < 24
    ensures Walk(k) == (x, y) && x < 5 && y < 5 && Previous(k) == 5 * y + x
  {
    if k == 0 {
      x, y := 1, 0;
    } else {
      var x', y' := FollowsWalk(k - 1);
      PiMoves(k - 1, x', y');
      x, y := y', (2 * x' + 3 * y') % 5;
    }
  }

  lemma PiMoves(k: nat, x: nat, y: nat)
    requires k < 24 && x < 5 && y < 5 && Previous(k) == 5 * y + x
    ensures PiTable(k) == 5 * ((2 * x + 3 * y) % 5) + y
  {
    PiFollowsWalk(k);
    var p := Previous(k);
    assert p % 5 == x && p / 5 == y;
  }

  /** The offset of the lane moved at step k. */
  lemma OffsetAt(k: nat)
    requires k < 24
    ensures Offset(Walk(k).0, Walk(k).1, 0) % 64 == RhoTable(k)
  {
    OffsetFrom(k, k);
    RhoTriangular(k);
  }

  /** No lane is visited twice, so the search for its offset finds step k. */
  lemma {:induction false} OffsetFrom(k: nat, t: nat)
    requires t <= k < 24
    ensures Offset(Walk(k).0, Walk(k).1, k - t) == (k + 1) * (k + 2) / 2
    decreases t
  {
    if t > 0 {
      OffsetFrom(k, t - 1);
      var x, y := FollowsWalk(k);
      var x', y' := FollowsWalk(k - t);
      PreviousInjective(k, k - t);
    }
  }

  lemma PreviousInjective(k: nat, j: nat)
    requires j < k < 24
    ensures Previous(k) != Previous(j)
  {
    PiInverse(k - 1);
    if j > 0 {
      PiInverse(j - 1);
    }
    assert PiTable(23) == 1;
    PiInverse(23);
  }

  /** Pi's inverse relation, in coordinates. */
  lemma PiCoordinates(x: nat, y: nat)
    requires x < 5 && y < 5
    ensures (y + 3 * ((2 * x + 3 * y) % 5)) % 5 == x
  {}

  lemma PreviousPositive(k: nat)
    requires k < 24
    ensures 0 < Previous(k) < 25
  {
    if k > 0 {
      PiInverse(k - 1);
    }
  }

  lemma PiLane(u: State, x: nat, y: nat)
    requires x < 5 && y < 5
    ensures Pi(u)[5 * ((2 * x + 3 * y) % 5) + y] == u[5 * y + x]
  {
    var i := 5 * ((2 * x + 3 * y) % 5) + y;
    PiCoordinates(x, y);
    assert i % 5 == y && i / 5 == (2 * x + 3 * y) % 5;
  }

  lemma RhoLane(s: State, x: nat, y: nat)
    requires x < 5 && y < 5 && 0 < 5 * y + x
    ensures Rho(s)[5 * y + x] == Rotated(s[5 * y + x], Offset(x, y, 0) % 64)
  {
    var i := 5 * y + x;
    assert i % 5 == x && i / 5 == y;
    assert Rho(s)[i] == Rotated(s[i], Offset(x, y, 0));
    RotatedModulo(s[i], Offset(x, y, 0));
  }

  lemma RotatedModulo(w: Word, r: nat)
    ensures Rotated(w, r) == Rotated(w, r % 64)
  {}

  /** What rho and pi together put in the lane written at step k. */
  lemma RhoPiLane(s: State, k: nat)
    requires k < 24
    ensures 0 < PiTable(k) < 25 && Previous(k) < 25 && 0 < RhoTable(k) < 64
    ensures Pi(Rho(s))[PiTable(k)] == Rol(s[Previous(k)], RhoTable(k))
  {
    var x, y := FollowsWalk(k);
    PiMoves(k, x, y);
    PiLane(Rho(s), x, y);
    PreviousPositive(k);
    RhoLane(s, x, y);
    OffsetAt(k);
    RhoTriangular(k);
    RolRotates(s[5 * y + x], RhoTable(k));
  }

  lemma PiFirst(u: State)
    ensures Pi(u)[0] == u[0]
  {}

  lemma FirstLane(s: State)
    ensures Pi(Rho(s))[0] == s[0]
  {
    PiFirst(Rho(s));
  }

  /** The lanes after k steps of the loop. */
  function ByWalk(s: State, u: State, k: nat): State {
    seq(25, i requires 0 <= i < 25 => if i > 0 && StepOf(i) >= k then s[i] else u[i])
  }

  lemma NextOnWalk(s: State, u: State, k: nat)
    requires k < 24 && s[0] == u[0]
    ensures 0 < PiTable(k) < 25 && ByWalk(s, u, k)[PiTable(k)] == s[PiTable(k)]
    ensures ByWalk(s, u, k)[PiTable(k) := u[PiTable(k)]] == ByWalk(s, u, k + 1)
  {
    PiInverse(k);
    forall i | 0 < i < 25 && i != PiTable(k) ensures StepOf(i) != k {
      StepInverse(i);
    }
  }

  lemma WalkEnds(s: State, u: State)
    requires s[0] == u[0]
    ensures ByWalk(s, u, 0) == s && ByWalk(s, u, 24) == u
  {
    forall i | 0 < i < 25 ensures StepOf(i) < 24 {
      StepInverse(i);
    }
  }

  method RhoPiInPlace(a: array<Word>, b: array<Word>)
    requires a.Length == 25 && b.Length == 5 && a != b
    modifies a, b
    ensures a[..] == Pi(Rho(old(a[..])))
  {
    ghost var s: State := a[..];
    ghost var u := Pi(Rho(s));
    FirstLane(s);
    WalkEnds(s, u);
    var t := a[1];
    for k := 0 to 24
      invariant a[..] == ByWalk(s, u, k)
      invariant k < 24 ==> Previous(k) < 25 && t == s[Previous(k)]
    {
      t := RhoPiStep(a, b, t, k, s, u);
    }
  }

  /** Lane PiTable(k) receives the rotated lane held in t, and is held in turn. */
  method RhoPiStep(a: array<Word>, b: array<Word>, t0: Word, k: nat, ghost s: State, ghost u: State) returns (t: Word)
    requires a.Length == 25 && b.Length == 5 && a != b && k < 24 && u == Pi(Rho(s)) && s[0] == u[0]
    requires a[..] == ByWalk(s, u, k) && Previous(k) < 25 && t0 == s[Previous(k)]
    modifies a, b
    ensures a[..] == ByWalk(s, u, k + 1) && Previous(k + 1) < 25 && t == s[Previous(k + 1)]
  {
    RhoPiLane(s, k);
    NextOnWalk(s, u, k);
    var i := PiTable(k);
    assert a[i] == a[..][i];
    b[0] := a[i];
    a[i] := Rol(t0, RhoTable(k));
    t := b[0];
    assert a[..] == ByWalk(s, u, k)[i := u[i]];
  }

  // ---- chi ----

  lemma ChiLane(s: State, y: nat, x: nat)
    requires x < 5 && y < 5
    ensures Chi(s)[5 * y + x] == Xor(s[5 * y + x], And(Not(s[5 * y + (x + 1) % 5]), s[5 * y + (x + 2) % 5]))
  {
    var i := 5 * y + x;
    var r := Xor(s[i], And(Not(s[5 * y + (x + 1) % 5]), s[5 * y + (x + 2) % 5]));
    LaneIndex(y, x);
    forall z | 0 <= z < 64 ensures Chi(s)[i][z] == r[z] {
      ChiBit(s, x, y, (x + 1) % 5, (x + 2) % 5, z);
    }
    assert Chi(s)[i] == r;
  }

  lemma ChiBit(s: State, x: nat, y: nat, x1: nat, x2: nat, z: nat)
    requires x < 5 && x1 < 5 && x2 < 5 && y < 5 && z < 64 && x1 == (x + 1) % 5 && x2 == (x + 2) % 5
    ensures ChiAt(s, x, y, z) == Plus(s[5 * y + x][z], !s[5 * y + x1][z] && s[5 * y + x2][z])
  {
  }

  lemma LaneIndex(y: nat, x: nat)
    requires x < 5 && y < 5
    ensures (5 * y + x) % 5 == x && (5 * y + x) / 5 == y && 5 * y + x < 25
  {
  }

  method ChiInPlace(a: array<Word>, b: array<Word>)
    requires a.Length == 25 && b.Length == 5 && a != b
    modifies a, b
    ensures a[..] == Chi(old(a[..]))
  {
    ghost var s: State := a[..];
    ghost var t := Chi(s);
    for y := 0 to 5
      invariant a[..] == ByRows(s, t, 5 * y)
    {
      ChiRow(a, b, y, s, t);
    }
  }

  /** Lanes already replaced, going through the rows one by one. */
  function ByRows(s: State, t: State, n: nat): State {
    seq(25, k requires 0 <= k < 25 => if k < n then t[k] else s[k])
  }

  lemma NextInRow(s: State, t: State, n: nat)
    requires n < 25
    ensures ByRows(s, t, n)[n := t[n]] == ByRows(s, t, n + 1) && ByRows(s, t, n)[n] == s[n]
  {}

  /** One row, from a copy of it. */
  method ChiRow(a: array<Word>, b: array<Word>, y: nat, ghost s: State, ghost t: State)
    requires a.Length == 25 && b.Length == 5 && a != b && y < 5 && t == Chi(s)
    requires a[..] == ByRows(s, t, 5 * y)
    modifies a, b
    ensures a[..] == ByRows(s, t, 5 * (y + 1))
  {
    for x := 0 to 5
      invariant a[..] == ByRows(s, t, 5 * y)
      invariant forall k :: 0 <= k < x ==> b[k] == s[5 * y + k]
    {
      assert a[5 * y + x] == a[..][5 * y + x] == s[5 * y + x];
      b[x] := a[5 * y + x];
    }
    for x := 0 to 5
      invariant a[..] == ByRows(s, t, 5 * y + x)
      invariant forall k :: 0 <= k < 5 ==> b[k] == s[5 * y + k]
    {
      ChiStep(a, b, y, x, s, t);
    }
  }

  method ChiStep(a: array<Word>, b: array<Word>, y: nat, x: nat, ghost s: State, ghost t: State)
    requires a.Length == 25 && b.Length == 5 && a != b && x < 5 && y < 5 && t == Chi(s)
    requires a[..] == ByRows(s, t, 5 * y + x) && forall k :: 0 <= k < 5 ==> b[k] == s[5 * y + k]
    modifies a
    ensures a[..] == ByRows(s, t, 5 * y + (x + 1))
  {
    ChiLane(s, y, x);
    NextInRow(s, t, 5 * y + x);
    a[5 * y + x] := Xor(b[x], And(Not(b[(x + 1) % 5]), b[(x + 2) % 5]));
    assert a[..] == ByRows(s, t, 5 * y + x)[5 * y + x := t[5 * y + x]];
  }

  // ---- iota ----

  function RcTable(i: nat): nat {
    match i
    case 0 => 0x1 case 1 => 0x8082 case 2 => 0x8000_0000_0000_808a case 3 => 0x8000_0000_8000_8000
    case 4 => 0x808b case 5 => 0x8000_0001 case 6 => 0x8000_0000_8000_8081 case 7 => 0x8000_0000_0000_8009
    case 8 => 0x8a case 9 => 0x88 case 10 => 0x8000_8009 case 11 => 0x8000_000a
    case 12 => 0x8000_808b case 13 => 0x8000_0000_0000_008b case 14 => 0x8000_0000_0000_8089 case 15 => 0x8000_0000_0000_8003
    case 16 => 0x8000_0000_0000_8002 case 17 => 0x8000_0000_0000_0080 case 18 => 0x800a case 19 => 0x8000_0000_8000_000a
    case 20 => 0x8000_0000_8000_8081 case 21 => 0x8000_0000_0000_8080 case 22 => 0x8000_0001 case _ => 0x8000_0000_8000_8008
  }

  /** The word a number stands for. */
  function WordOf(n: nat): Word {
    seq(64, z requires 0 <= z < 64 => Bit(n, z))
  }

  /** The shift register at the start of round i. */
  function RegisterTable(i: nat): bv8 {
    match i
    case 0 => 0x01 case 1 => 0x80 case 2 => 0xd8 case 3 => 0x1a case 4 => 0xdf case 5 => 0x09
    case 6 => 0x35 case 7 => 0x4f case 8 => 0xca case 9 => 0x70 case 10 => 0x41 case 11 => 0xec
    case 12 => 0xd5 case 13 => 0xcd case 14 => 0x63 case 15 => 0xab case 16 => 0xaa case 17 => 0x2a
    case 18 => 0xf2 case 19 => 0xe8 case 20 => 0x37 case 21 => 0x3e case 22 => 0x0b case _ => 0x44
  }

  function Shift7(r: bv8): bv8 {
    Shift(Shift(Shift(Shift(Shift(Shift(Shift(r)))))))
  }

  lemma RegisterRow(i: nat)
    requires i < 23
    ensures Shift7(RegisterTable(i)) == RegisterTable(i + 1)
  {}

  /** What the register and its next six states are, seven steps before the next round. */
  lemma Advance(t: nat, r: bv8)
    requires Register(t) == r
    ensures Rc(t) == (r & 1 == 1) && Rc(t + 1) == (Shift(r) & 1 == 1) && Rc(t + 2) == (Shift(Shift(r)) & 1 == 1)
    ensures Rc(t + 3) == (Shift(Shift(Shift(r))) & 1 == 1)
    ensures Rc(t + 4) == (Shift(Shift(Shift(Shift(r)))) & 1 == 1)
    ensures Rc(t + 5) == (Shift(Shift(Shift(Shift(Shift(r))))) & 1 == 1)
    ensures Rc(t + 6) == (Shift(Shift(Shift(Shift(Shift(Shift(r)))))) & 1 == 1)
    ensures Register(t + 7) == Shift7(r)
  {
    assert Register(t + 1) == Shift(Register(t)) && Register(t + 2) == Shift(Register(t + 1));
    assert Register(t + 3) == Shift(Register(t + 2)) && Register(t + 4) == Shift(Register(t + 3));
    assert Register(t + 5) == Shift(Register(t + 4)) && Register(t + 6) == Shift(Register(t + 5));
  }

  lemma AdvanceRow(i: nat, t: nat)
    requires i < 23 && Register(t) == RegisterTable(i)
    ensures Register(t + 7) == RegisterTable(i + 1)
  {
    RegisterRow(i);
    Advance(t, Register(t));
  }

  lemma {:induction false} RegisterAt(i: nat)
    requires i < 24
    ensures Register(7 * i) == RegisterTable(i)
  {
    if i > 0 {
      RegisterAt(i - 1);
      AdvanceRow(i - 1, 7 * (i - 1));
    }
  }

  function One(b: bool): nat {
    if b then 1 else 0
  }

  function Odd(r: bv8): nat {
    One(r & 1 == 1)
  }

  /** The number with bits 0, 1, 3, 7, 15, 31 and 63 given, the others zero. */
  function Taps(b0: nat, b1: nat, b2: nat, b3: nat, b4: nat, b5: nat, b6: nat): nat {
    b0 + 2 * (b1 + 4 * (b2 + 0x10 * (b3 + 0x100 * (b4 + 0x1_0000 * (b5 + 0x1_0000_0000 * b6)))))
  }

  ghost predicate Produces(r: bv8, n: nat) {
    var r1 := Shift(r); var r2 := Shift(r1); var r3 := Shift(r2); var r4 := Shift(r3); var r5 := Shift(r4);
    n == Taps(Odd(r), Odd(r1), Odd(r2), Odd(r3), Odd(r4), Odd(r5), Odd(Shift(r5)))
  }

  /** The constants of the source are what the shift register produces. */
  lemma RcRow(i: nat)
    requires i < 24
    ensures Produces(RegisterTable(i), RcTable(i))
  {}

  ghost predicate Tapped(t: nat, n: nat) {
    n == Taps(One(Rc(t)), One(Rc(t + 1)), One(Rc(t + 2)), One(Rc(t + 3)), One(Rc(t + 4)), One(Rc(t + 5)), One(Rc(t + 6)))
  }

  lemma FromRegister(t: nat, r: bv8, n: nat)
    requires Register(t) == r && Produces(r, n)
    ensures Tapped(t, n)
  {
    Advance(t, r);
  }

  lemma {:induction false} ShiftedBit(g: nat, m: nat, z: nat)
    ensures Bit(Pow2(g) * m, z) <==> z >= g && Bit(m, z - g)
  {
    if g > 0 {
      var h := Pow2(g - 1) * m;
      assert Pow2(g) * m == 2 * h;
      if z > 0 {
        ShiftedBit(g - 1, m, z - 1);
      }
    }
  }

  /** One bit, g - 1 zero bits, and the bits of m. */
  lemma TapBit(n: nat, b: bool, g: nat, p: nat, m: nat, z: nat)
    requires 0 < g && p == Pow2(g) && n == One(b) + p * m
    ensures Bit(n, z) <==> if z == 0 then b else z >= g && Bit(m, z - g)
  {
    var h := Pow2(g - 1) * m;
    assert p * m == 2 * h;
    if z > 0 {
      ShiftedBit(g - 1, m, z - 1);
    }
  }

  /** Bit z of a number with the given bits 0, 1, 3, 7, 15, 31 and 63. */
  lemma TapsBit(b0: bool, b1: bool, b2: bool, b3: bool, b4: bool, b5: bool, b6: bool, z: nat)
    requires z < 64
    ensures Bit(Taps(One(b0), One(b1), One(b2), One(b3), One(b4), One(b5), One(b6)), z) <==>
      if z == 0 then b0 else if z == 1 then b1 else if z == 3 then b2 else if z == 7 then b3
      else if z == 15 then b4 else if z == 31 then b5 else z == 63 && b6
  {
    LowTapsBit(b0, b1, b2, b3, HighTaps(b4, b5, b6), z);
    if z >= 15 { HighTapsBit(b4, b5, b6, z - 15); }
  }

  lemma LowTapsBit(b0: bool, b1: bool, b2: bool, b3: bool, n4: nat, z: nat)
    ensures Bit(One(b0) + 2 * (One(b1) + 4 * (One(b2) + 0x10 * (One(b3) + 0x100 * n4))), z) <==>
      if z == 0 then b0 else if z == 1 then b1 else if z == 3 then b2 else if z == 7 then b3
      else z >= 15 && Bit(n4, z - 15)
  {
    assert Pow2(8) == 0x100 && Pow2(4) == 0x10 && Pow2(2) == 4 && Pow2(1) == 2;
    var n3 := One(b3) + 0x100 * n4;
    var n2 := One(b2) + 0x10 * n3;
    var n1 := One(b1) + 4 * n2;
    TapBit(One(b0) + 2 * n1, b0, 1, 2, n1, z);
    if z >= 1 { TapBit(n1, b1, 2, 4, n2, z - 1); }
    if z >= 3 { TapBit(n2, b2, 4, 0x10, n3, z - 3); }
    if z >= 7 { TapBit(n3, b3, 8, 0x100, n4, z - 7); }
  }

  function HighTaps(b4: bool, b5: bool, b6: bool): nat {
    One(b4) + 0x1_0000 * (One(b5) + 0x1_0000_0000 * One(b6))
  }

  lemma HighTapsBit(b4: bool, b5: bool, b6: bool, z: nat)
    requires z < 49
    ensures Bit(HighTaps(b4, b5, b6), z) <==> if z == 0 then b4 else if z == 16 then b5 else z == 48 && b6
  {
    Pow2Constants();
    var n6 := One(b6);
    var n5 := One(b5) + 0x1_0000_0000 * n6;
    TapBit(HighTaps(b4, b5, b6), b4, 16, 0x1_0000, n5, z);
    if z >= 16 { TapBit(n5, b5, 32, 0x1_0000_0000, n6, z - 16); }
  }

  lemma TappedWord(i: nat, t: nat, n: nat)
    requires t == 7 * i && Tapped(t, n)
    ensures WordOf(n) == RoundConstant(i)
  {
    forall z | 0 <= z < 64 ensures Bit(n, z) == RoundConstant(i)[z] {
      TapsBit(Rc(t), Rc(t + 1), Rc(t + 2), Rc(t + 3), Rc(t + 4), Rc(t + 5), Rc(t + 6), z);
    }
  }

  lemma RoundConstantBits(i: nat)
    requires i < 24
    ensures WordOf(RcTable(i)) == RoundConstant(i)
  {
    RegisterAt(i);
    RcRow(i);
    FromRegister(7 * i, RegisterTable(i), RcTable(i));
    TappedWord(i, 7 * i, RcTable(i));
  }

  // ---- keccakf ----

  /** 24 rounds in place. */
  method Keccakf(a: array<Word>)
    requires a.Length == 25
    modifies a
    ensures a[..] == Permutation(old(a[..]))
  {
    ghost var s: State := a[..];
    var b := new Word[5](i => ZeroWord());
    for i := 0 to 24
      invariant a[..] == Rounds(s, i)
    {
      OneRound(a, b, i);
    }
  }

  method OneRound(a: array<Word>, b: array<Word>, i: nat)
    requires a.Length == 25 && b.Length == 5 && a != b && i < 24
    modifies a, b
    ensures a[..] == Iota(Chi(Pi(Rho(Theta(old(a[..]))))), i)
  {
    ThetaInPlace(a, b);
    RhoPiInPlace(a, b);
    ChiInPlace(a, b);
    IotaInPlace(a, i);
  }

  method IotaInPlace(a: array<Word>, i: nat)
    requires a.Length == 25 && i < 24
    modifies a
    ensures a[..] == Iota(old(a[..]), i)
  {
    RoundConstantBits(i);
    a[0] := Xor(a[0], WordOf(RcTable(i)));
  }
}
