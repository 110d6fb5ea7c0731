/**
 FIPS 202 on bit strings: the padding of section 5.1, the sponge of section 4 and the function
 KECCAK[c] of section 5.2. The byte form of the sponge is shown to be this one.
 */
module SpongeBits {
  import opened Arith
  import opened KeccakF
  import opened KeccakBytes
  import opened Sponge

  type Bits = seq<bool>

  const WIDTH: nat := 1600

  type Block = b: seq<bool> | |b| == WIDTH witness seq(WIDTH, i => false)

  // ---- the standard ----

  function ZeroBits(n: nat): Bits {
    seq(n, i => false)
  }

  /** pad10*1(x, m): what makes m bits a positive multiple of x (algorithm 9). */
  function Pad101(x: nat, m: nat): Bits
    requires 0 < x
  {
    var j: int := (-2 - m) % x;
    [true] + ZeroBits(j) + [true]
  }

  /** A one, zeros, a one: the shortest such string that fills up the last block. */
  lemma PadIs(x: nat, m: nat)
    requires 0 < x
    ensures var p := Pad101(x, m);
      && (m + |p|) % x == 0 && 2 <= |p| <= x + 1
      && forall i :: 0 <= i < |p| ==> p[i] == (i == 0 || i == |p| - 1)
  {
    var j: int := (-2 - m) % x;
    DivBounds(-2 - m, x);
    MulSub(x, 0, (-2 - m) / x);
    DivModUnique(m + 2 + j, x, -((-2 - m) / x), 0);
  }

  /** A block of the padded string added to the state, followed by zeros. */
  function XorBits(s: Block, p: Bits): Block {
    seq(WIDTH, i requires 0 <= i < WIDTH => if i < |p| then Plus(s[i], p[i]) else s[i])
  }

  function AbsorbBits(f: Block -> Block, s: Block, p: Bits, r: nat): Block
    requires 0 < r
    decreases |p|
  {
    if |p| < r then s else AbsorbBits(f, f(XorBits(s, p[..r])), p[r..], r)
  }

  function SqueezeBits(f: Block -> Block, s: Block, d: nat, r: nat): (z: Bits)
    requires 0 < r <= WIDTH
    ensures |z| == d
    decreases d
  {
    if d <= r then s[..d] else s[..r] + SqueezeBits(f, f(s), d - r, r)
  }

  /** SPONGE[f, pad10*1, r](N, d) (algorithm 8). */
  function SpongeOf(f: Block -> Block, n: Bits, d: nat, r: nat): (z: Bits)
    requires 0 < r <= WIDTH
    ensures |z| == d
  {
    SqueezeBits(f, AbsorbBits(f, ZeroBits(WIDTH), n + Pad101(r, |n|), r), d, r)
  }

  /** The lanes of a string (section 3.1.2), and the string of an array of lanes (section 3.1.3). */
  function ToLanes(s: Block): State {
    seq(25, i requires 0 <= i < 25 => s[64 * i..64 * i + 64])
  }

  function FromLanes(st: State): Block {
    seq(WIDTH, i requires 0 <= i < WIDTH => st[i / 64][i % 64])
  }

  /** KECCAK-p[1600, 24] on strings. */
  function KeccakP(s: Block): Block {
    FromLanes(Permutation(ToLanes(s)))
  }

  /** KECCAK[c](N, d). */
  function KeccakC(c: nat, n: Bits, d: nat): (z: Bits)
    requires c < WIDTH
    ensures |z| == d
  {
    SpongeOf(KeccakP, n, d, WIDTH - c)
  }

  /** A shorter output is the beginning of a longer one. */
  lemma {:induction false} SqueezePrefix(f: Block -> Block, s: Block, d: nat, e: nat, r: nat)
    requires 0 < r <= WIDTH && d <= e
    ensures SqueezeBits(f, s, d, r) == SqueezeBits(f, s, e, r)[..d]
    decreases d
  {
    if d > r {
      SqueezePrefix(f, f(s), d - r, e - r, r);
    }
  }

  // ---- bits of bytes ----

  function Flat(m: seq<Octet>): (b: Bits)
    ensures |b| == 8 * |m|
  {
    seq(8 * |m|, i requires 0 <= i < 8 * |m| => m[i / 8][i % 8])
  }

  function FlatState(s: Bytes): Block {
    Flat(s)
  }

  lemma FlatAt(m: seq<Octet>, k: nat, j: nat)
    requires k < |m| && j < 8
    ensures Flat(m)[8 * k + j] == m[k][j]
  {
    assert (8 * k + j) / 8 == k && (8 * k + j) % 8 == j;
  }

  lemma FlatConcat(a: seq<Octet>, b: seq<Octet>)
    ensures Flat(a + b) == Flat(a) + Flat(b)
  {
    forall i | 0 <= i < 8 * |a + b| ensures Flat(a + b)[i] == (Flat(a) + Flat(b))[i] {
      var k, j := i / 8, i % 8;
      FlatAt(a + b, k, j);
      if k < |a| {
        FlatAt(a, k, j);
      } else {
        FlatAt(b, k - |a|, j);
        assert i - 8 * |a| == 8 * (k - |a|) + j;
      }
    }
  }

  lemma FlatSlices(m: seq<Octet>, n: nat)
    requires n <= |m|
    ensures Flat(m[..n]) == Flat(m)[..8 * n] && Flat(m[n..]) == Flat(m)[8 * n..]
  {
    assert m[..n] + m[n..] == m;
    FlatConcat(m[..n], m[n..]);
  }

  // ---- the padding (section 5.1) ----

  /** The byte that holds the suffix of a domain and the first bit of the padding. */
  predicate Delimits(delim: Octet, suffix: Bits) {
    |suffix| <= 6 && forall j :: 0 <= j < 8 ==> delim[j] == if j < |suffix| then suffix[j] else j == |suffix|
  }

  /** How many zeros the padding has when q bytes of a block are left for it and for s bits of suffix. */
  lemma ZerosBetween(length: nat, rate: nat, s: nat)
    requires 0 < rate && s <= 6
    ensures (-(8 * length + s) - 2) % (8 * rate) == 8 * (rate - length % rate) - s - 2
  {
    var k, m := length / rate, length % rate;
    DivBounds(length, rate);
    MulAssoc(8, k, rate);
    MulDist(8 * rate, -k, -1);
    MulSub(8 * rate, 0, k);
    MulAssoc(8, rate, k);
    DivModUnique(-(8 * length + s) - 2, 8 * rate, -k - 1, 8 * (rate - m) - s - 2);
  }

  lemma PaddingBits(length: nat, rate: nat, delim: Octet, suffix: Bits)
    requires 0 < rate && Delimits(delim, suffix)
    ensures Flat(Padding(length, rate, delim)) == suffix + Pad101(8 * rate, 8 * length + |suffix|)
  {
    var q, s := rate - length % rate, |suffix|;
    DivBounds(length, rate);
    ZerosBetween(length, rate, s);
    var p, t := Padding(length, rate, delim), suffix + Pad101(8 * rate, 8 * length + s);
    assert |p| == q && |t| == 8 * q;
    forall i | 0 <= i < 8 * q ensures Flat(p)[i] == t[i] {
      PaddingBit(i / 8, i % 8, q, delim, suffix);
      FlatAt(p, i / 8, i % 8);
    }
  }

  /** Bit j of byte k: suffix, a one, zeros, and a one at the very end, even when all is in one byte. */
  lemma PaddingBit(k: nat, j: nat, q: nat, delim: Octet, suffix: Bits)
    requires k < q && j < 8 && Delimits(delim, suffix)
    ensures var i := 8 * k + j;
      PaddingByte(k, q, delim)[j] ==
      if i < |suffix| then suffix[i] else i == |suffix| || i == 8 * q - 1
  {
  }

  // ---- the byte form of the sponge is the sponge ----

  /** The permutation of bytes is that of bits. */
  ghost predicate Lifts(f: Bytes -> Bytes, g: Block -> Block) {
    forall s: Bytes :: g(FlatState(s)) == FlatState(f(s))
  }

  lemma XorFlat(s: Bytes, p: seq<Octet>)
    requires |p| <= STATE_BYTES
    ensures FlatState(XorBlock(s, p)) == XorBits(FlatState(s), Flat(p))
  {
    var a, b := FlatState(XorBlock(s, p)), XorBits(FlatState(s), Flat(p));
    forall i | 0 <= i < WIDTH ensures a[i] == b[i] {
      assert i / 8 < |p| <==> i < 8 * |p|;
    }
  }

  lemma {:induction false} AbsorbFlat(f: Bytes -> Bytes, g: Block -> Block, s: Bytes, m: seq<Octet>, rate: nat)
    requires Lifts(f, g) && 0 < rate <= STATE_BYTES
    ensures FlatState(Absorb(f, s, m, rate)) == AbsorbBits(g, FlatState(s), Flat(m), 8 * rate)
    decreases |m|
  {
    if |m| >= rate {
      var t := XorBlock(s, m[..rate]);
      FlatSlices(m, rate);
      XorFlat(s, m[..rate]);
      assert g(FlatState(t)) == FlatState(f(t));
      AbsorbFlat(f, g, f(t), m[rate..], rate);
    }
  }

  lemma {:induction false} SqueezeFlat(f: Bytes -> Bytes, g: Block -> Block, s: Bytes, n: nat, rate: nat)
    requires Lifts(f, g) && 0 < rate <= STATE_BYTES
    ensures Flat(Squeeze(f, s, n, rate)) == SqueezeBits(g, FlatState(s), 8 * n, 8 * rate)
    decreases n
  {
    if n <= rate {
      FlatSlices(s, n);
    } else {
      FlatSlices(s, rate);
      SqueezeFlat(f, g, f(s), n - rate, rate);
      FlatConcat(s[..rate], Squeeze(f, f(s), n - rate, rate));
      assert g(FlatState(s)) == FlatState(f(s));
    }
  }

  /** The bits of the hash are the sponge's output for the bits of the message and its suffix. */
  lemma HashIsSponge(f: Bytes -> Bytes, g: Block -> Block, m: seq<Octet>, n: nat, rate: nat, delim: Octet, suffix: Bits)
    requires Lifts(f, g) && 0 < rate <= STATE_BYTES && Delimits(delim, suffix)
    ensures Flat(Hash(f, m, n, rate, delim)) == SpongeOf(g, Flat(m) + suffix, 8 * n, 8 * rate)
  {
    var p := Padding(|m|, rate, delim);
    PaddingBits(|m|, rate, delim, suffix);
    FlatConcat(m, p);
    var padded := (Flat(m) + suffix) + Pad101(8 * rate, |Flat(m) + suffix|);
    assert Flat(m + p) == padded;
    AbsorbFlat(f, g, ZeroState(), m + p, rate);
    assert FlatState(ZeroState()) == ZeroBits(WIDTH);
    SqueezeFlat(f, g, Absorb(f, ZeroState(), m + p, rate), n, rate);
  }

  // ---- Keccak-f on bytes and on bits ----

  lemma LanesFlat(s: Bytes)
    ensures ToLanes(FlatState(s)) == LanesOf(s)
  {
    forall i | 0 <= i < 25 ensures ToLanes(FlatState(s))[i] == LanesOf(s)[i] {
      forall z | 0 <= z < 64 ensures ToLanes(FlatState(s))[i][z] == LanesOf(s)[i][z] {
        assert 64 * i + z == 8 * (8 * i + z / 8) + z % 8;
        FlatAt(s, 8 * i + z / 8, z % 8);
      }
    }
  }

  lemma FromLanesFlat(st: State)
    ensures FromLanes(st) == FlatState(BytesOf(st))
  {
    forall i | 0 <= i < WIDTH ensures FromLanes(st)[i] == FlatState(BytesOf(st))[i] {
      var k, j := i / 8, i % 8;
      FlatAt(BytesOf(st), k, j);
      assert i / 64 == k / 8 && i % 64 == 8 * (k % 8) + j;
    }
  }

  lemma PermuteLifts()
    ensures Lifts(Permute, KeccakP)
  {
    forall s: Bytes ensures KeccakP(FlatState(s)) == FlatState(Permute(s)) {
      LanesFlat(s);
      FromLanesFlat(Permutation(LanesOf(s)));
    }
  }
}
