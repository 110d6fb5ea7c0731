/**
 The step mappings of section 3.2 of FIPS 202 and the permutation Keccak-f[1600], bit by
 bit: bit (x, y, z) of a state is bit z of its lane 5y + x.
 */
module KeccakF {

  type Word = w: seq<bool> | |w| == 64 witness seq(64, i => false)
  type State = s: seq<Word> | |s| == 25 witness seq(25, i => seq(64, j => false))

  /** Sum of two bits. */
  function Plus(a: bool, b: bool): bool {
    a != b
  }

  function A(s: State, x: nat, y: nat, z: nat): bool
    requires x < 5 && y < 5 && z < 64
  {
    s[5 * y + x][z]
  }

  // ---- theta (section 3.2.1) ----

  /** The parity of a column. */
  function C(s: State, x: nat, z: nat): bool
    requires x < 5 && z < 64
  {
    Plus(Plus(Plus(Plus(A(s, x, 0, z), A(s, x, 1, z)), A(s, x, 2, z)), A(s, x, 3, z)), A(s, x, 4, z))
  }

  /** D[x, z] = C[x - 1, z] + C[x + 1, z - 1]. */
  function D(s: State, x: nat, z: nat): bool
    requires x < 5 && z < 64
  {
    Plus(C(s, (x + 4) % 5, z), C(s, (x + 1) % 5, (z + 63) % 64))
  }

  function Theta(s: State): State {
    seq(25, i requires 0 <= i < 25 => seq(64, z requires 0 <= z < 64 => Plus(s[i][z], D(s, i % 5, z))))
  }

  // ---- rho (section 3.2.2) ----

  /** The lane visited at step t of the walk (x, y) -> (y, 2x + 3y) that starts at (1, 0). */
  function Walk(t: nat): (nat, nat) {
    if t == 0 then (1, 0) else var p := Walk(t - 1); (p.1, (2 * p.0 + 3 * p.1) % 5)
  }

  /** The offset of lane (x, y): the triangular number of its place in the walk. */
  function Offset(x: nat, y: nat, t: nat): nat
    requires t <= 24
    decreases 24 - t
  {
    if t == 24 then 0
    else if Walk(t) == (x, y) then (t + 1) * (t + 2) / 2
    else Offset(x, y, t + 1)
  }

  /** Bit z comes from bit z - r. */
  function Rotated(w: Word, r: nat): Word {
    seq(64, z requires 0 <= z < 64 => w[(z + 64 - r % 64) % 64])
  }

  function Rho(s: State): State {
    seq(25, i requires 0 <= i < 25 => if i == 0 then s[0] else Rotated(s[i], Offset(i % 5, i / 5, 0)))
  }

  // ---- pi (section 3.2.3) ----

  /** A'[x, y] = A[x + 3y, x]. */
  function Pi(s: State): State {
    seq(25, i requires 0 <= i < 25 => s[5 * (i % 5) + (i % 5 + 3 * (i / 5)) % 5])
  }

  // ---- chi (section 3.2.4) ----

  /** A'[x, y, z] = A[x, y, z] + (A[x + 1, y, z] + 1) A[x + 2, y, z]. */
  function ChiAt(s: State, x: nat, y: nat, z: nat): bool
    requires x < 5 && y < 5 && z < 64
  {
    Plus(A(s, x, y, z), Plus(A(s, (x + 1) % 5, y, z), true) && A(s, (x + 2) % 5, y, z))
  }

  function Chi(s: State): State {
    seq(25, i requires 0 <= i < 25 => seq(64, z requires 0 <= z < 64 => ChiAt(s, i % 5, i / 5, z)))
  }

  // ---- iota (section 3.2.5) ----

  /** The eight-bit shift register behind the round constants, bit k being R[k], after t steps. */
  function Register(t: nat): bv8 {
    if t == 0 then 1 else Shift(Register(t - 1))
  }

  /** R = 0 || R; R[0], R[4], R[5] and R[6] += R[8]; R = Trunc8(R). */
  function Shift(r: bv8): bv8 {
    if r & 0x80 == 0 then r << 1 else (r << 1) ^ 0x71
  }

  function Rc(t: nat): bool {
    Register(t) & 1 == 1
  }

  /** Bit 2^j - 1 of the constant of round i is rc(j + 7i), for j from 0 to 6. */
  function RoundConstant(i: nat): Word {
    seq(64, z requires 0 <= z < 64 =>
      if z == 0 then Rc(7 * i) else if z == 1 then Rc(7 * i + 1) else if z == 3 then Rc(7 * i + 2)
      else if z == 7 then Rc(7 * i + 3) else if z == 15 then Rc(7 * i + 4) else if z == 31 then Rc(7 * i + 5)
      else if z == 63 then Rc(7 * i + 6) else false)
  }

  function Iota(s: State, i: nat): State {
    s[0 := seq(64, z requires 0 <= z < 64 => Plus(s[0][z], RoundConstant(i)[z]))]
  }

  // ---- the permutation (sections 3.3 and 3.4) ----

  function Rounds(s: State, n: nat): State {
    if n == 0 then s else Iota(Chi(Pi(Rho(Theta(Rounds(s, n - 1))))), n - 1)
  }

  /** The binary logarithm of the lane length; it fixes the number of rounds. */
  const L: nat := 6

  function Permutation(s: State): State {
    Rounds(s, 12 + 2 * L)
  }

  /** 24 rounds of the five mappings, each with the constant of its number. */
  lemma RoundsAre(s: State, n: nat)
    ensures Rounds(s, 0) == s && Rounds(s, n + 1) == Iota(Chi(Pi(Rho(Theta(Rounds(s, n))))), n)
    ensures Permutation(s) == Rounds(s, 24)
  {
  }

  // ---- the mappings seen from their effects ----

  function One(b: bool): nat {
    if b then 1 else 0
  }

  /** How many bits of a column are set. */
  function Ones(s: State, x: nat, z: nat): nat
    requires x < 5 && z < 64
  {
    One(s[x][z]) + One(s[5 + x][z]) + One(s[10 + x][z]) + One(s[15 + x][z]) + One(s[20 + x][z])
  }

  lemma ColumnParity(s: State, x: nat, z: nat)
    requires x < 5 && z < 64
    ensures C(s, x, z) == (Ones(s, x, z) % 2 == 1)
  {
    var a, b, c, d, e := s[x][z], s[5 + x][z], s[10 + x][z], s[15 + x][z], s[20 + x][z];
    assert C(s, x, z) == Plus(Plus(Plus(Plus(a, b), c), d), e);
  }

  lemma ParitySum(a: bool, m: nat, n: nat)
    ensures Plus(a, Plus(m % 2 == 1, n % 2 == 1)) == ((One(a) + m + n) % 2 == 1)
  {}

  /** Theta adds to a bit of lane i = 5y + x the columns on its two sides, of the right one the bit below. */
  lemma ThetaAt(s: State, i: nat, x: nat, y: nat, z: nat, left: nat, right: nat, below: nat, m: nat, n: nat)
    requires i < 25 && x < 5 && z < 64 && i == 5 * y + x
    requires left < 5 && right < 5 && below < 64 && m == Ones(s, left, z) && n == Ones(s, right, below)
    requires left == (if x == 0 then 4 else x - 1) && right == (if x == 4 then 0 else x + 1)
    requires below == (if z == 0 then 63 else z - 1)
    ensures Theta(s)[i][z] == ((One(s[i][z]) + m + n) % 2 == 1)
  {
    assert i % 5 == x;
    Neighbours(s, x, z, left, right, below, m, n);
    ThetaBit(s, i, x, z, s[i][z], Plus(m % 2 == 1, n % 2 == 1));
    ParitySum(s[i][z], m, n);
  }

  lemma ThetaBit(s: State, i: nat, x: nat, z: nat, bit: bool, d: bool)
    requires i < 25 && x == i % 5 && z < 64 && bit == s[i][z] && d == D(s, x, z)
    ensures Theta(s)[i][z] == Plus(bit, d)
  {}

  lemma Neighbours(s: State, x: nat, z: nat, left: nat, right: nat, below: nat, m: nat, n: nat)
    requires x < 5 && z < 64 && left == (if x == 0 then 4 else x - 1) && right == (if x == 4 then 0 else x + 1)
    requires below == (if z == 0 then 63 else z - 1) && m == Ones(s, left, z) && n == Ones(s, right, below)
    ensures D(s, x, z) == Plus(m % 2 == 1, n % 2 == 1)
  {
    assert left == (x + 4) % 5 && right == (x + 1) % 5 && below == (z + 63) % 64;
    ColumnParity(s, left, z);
    ColumnParity(s, right, below);
  }

  /** Pi moves lane (x, y) to (y, 2x + 3y). */
  lemma PiMoves(s: State, x: nat, y: nat)
    requires x < 5 && y < 5
    ensures Pi(s)[5 * ((2 * x + 3 * y) % 5) + y] == s[5 * y + x]
  {
    var i := 5 * ((2 * x + 3 * y) % 5) + y;
    assert i % 5 == y && i / 5 == (2 * x + 3 * y) % 5;
    assert (y + 3 * (i / 5)) % 5 == x;
  }

  /** Five bits as a number. */
  function Five(a: bool, b: bool, c: bool, d: bool, e: bool): (n: nat)
    ensures n < 32
  {
    One(a) + 2 * One(b) + 4 * One(c) + 8 * One(d) + 16 * One(e)
  }

  /** The row that begins in lane i as a number, bit x having weight 2^x. */
  function Row(s: State, i: nat, z: nat): (n: nat)
    requires i <= 20 && z < 64
    ensures n < 32
  {
    Five(s[i][z], s[i + 1][z], s[i + 2][z], s[i + 3][z], s[i + 4][z])
  }

  /** What chi makes of each of the 32 rows. */
  const CHI_ROWS: seq<nat> :=
    [0, 9, 18, 11, 5, 12, 22, 15, 10, 3, 24, 1, 13, 4, 30, 7, 20, 21, 6, 23, 17, 16, 2, 19, 26, 27, 8, 25, 29, 28, 14, 31]

  lemma ChiFive(a: bool, b: bool, c: bool, d: bool, e: bool)
    ensures |CHI_ROWS| == 32
    ensures Five(Plus(a, !b && c), Plus(b, !c && d), Plus(c, !d && e), Plus(d, !e && a), Plus(e, !a && b))
         == CHI_ROWS[Five(a, b, c, d, e)]
  {
    if a { if b { if c {} else {} } else { if c {} else {} } } else { if b { if c {} else {} } else { if c {} else {} } }
  }

  lemma ChiOfRow(s: State, i: nat, z: nat)
    requires i <= 20 && i % 5 == 0 && z < 64
    ensures |CHI_ROWS| == 32 && Row(Chi(s), i, z) == CHI_ROWS[Row(s, i, z)]
  {
    ChiFive(s[i][z], s[i + 1][z], s[i + 2][z], s[i + 3][z], s[i + 4][z]);
    ChiBit(s, i, 0, 1, 2, z);
    ChiBit(s, i, 1, 2, 3, z);
    ChiBit(s, i, 2, 3, 4, z);
    ChiBit(s, i, 3, 4, 0, z);
    ChiBit(s, i, 4, 0, 1, z);
  }

  lemma ChiBit(s: State, i: nat, x: nat, next: nat, second: nat, z: nat)
    requires i <= 20 && i % 5 == 0 && x < 5 && next == (x + 1) % 5 && second == (x + 2) % 5 && z < 64
    ensures Chi(s)[i + x][z] == Plus(s[i + x][z], !s[i + next][z] && s[i + second][z])
  {
    var j := i + x;
    assert j % 5 == x && 5 * (j / 5) == i;
    assert Chi(s)[j][z] == ChiAt(s, x, j / 5, z);
  }
}
