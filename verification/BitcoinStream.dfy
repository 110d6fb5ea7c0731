/**
 The two streams a transaction is written to: one keeps the bytes, the other only counts
 them. Integers are little-endian.
 */
module BitcoinStream {
  import opened Arith
  import opened Powers
  import opened Numerals

  type Bytes = seq<Byte>

  /** Byte k of x. */
  function ByteOf(x: int, k: nat): Byte
    decreases k
  {
    if k == 0 then x % 0x100 else ByteOf(x / 0x100, k - 1)
  }

  /** The n low bytes of x, least significant first. */
  function LittleEndian(x: int, n: nat): (s: Bytes)
    ensures |s| == n
  {
    seq(n, k requires 0 <= k < n => ByteOf(x, k))
  }

  lemma SingleByte(x: Byte)
    ensures LittleEndian(x, 1) == [x]
  {}

  /** What is written is x modulo a power of 256: byte k has weight 256^k. */
  lemma LittleEndianReads(x: int, n: nat)
    ensures 0 < Pow(0x100, n) && Reversed(LittleEndian(x, n), n, 0x100) == x % Pow(0x100, n)
  {
    LowBytes(x, n, n);
  }

  lemma {:induction false} LowBytes(x: int, n: nat, k: nat)
    requires k <= n
    ensures 0 < Pow(0x100, k) && Reversed(LittleEndian(x, n), k, 0x100) == x % Pow(0x100, k)
    decreases k
  {
    PowPositive(0x100, k);
    if k > 0 {
      LowBytes(x, n, k - 1);
      ByteOfIs(x, k - 1);
      NextByte(x, Pow(0x100, k - 1));
    }
  }

  lemma {:induction false} ByteOfIs(x: int, k: nat)
    ensures 0 < Pow(0x100, k) && ByteOf(x, k) == x / Pow(0x100, k) % 0x100
    decreases k
  {
    PowPositive(0x100, k);
    if k > 0 {
      ByteOfIs(x / 0x100, k - 1);
      DivideTwice(x, Pow(0x100, k - 1));
    }
  }

  lemma DivideTwice(x: int, p: int)
    requires 0 < p
    ensures x / (0x100 * p) == x / 0x100 / p
  {
    var y := x / 0x100;
    DivBounds(y, p);
    MulAssoc(y / p, 0x100, p);
    DivModUnique(x, 0x100 * p, y / p, 0x100 * (y % p) + x % 0x100);
  }

  lemma NextByte(x: int, p: int)
    requires 0 < p
    ensures x % (0x100 * p) == x % p + p * (x / p % 0x100)
  {
    var y := x / p;
    DivBounds(x, p);
    MulDist(p, 0x100 * (y / 0x100), y % 0x100);
    MulAssoc(y / 0x100, 0x100, p);
    MulMono(p, 0, y % 0x100);
    MulMono(p, y % 0x100, 0xff);
    DivModUnique(x, 0x100 * p, y / 0x100, x % p + p * (y % 0x100));
  }

  /** A length, in one, three, five or nine bytes. */
  function CompactSize(size: nat): (s: Bytes)
    ensures |s| <= 9
  {
    if size < 253 then [size]
    else if size <= 0xffff then [253] + LittleEndian(size, 2)
    else if size <= 0xffff_ffff then [254] + LittleEndian(size, 4)
    else [255] + LittleEndian(size, 8)
  }

  function CompactBytes(data: Bytes): Bytes {
    CompactSize(|data|) + data
  }

  lemma Concat2(w: Bytes, a: Bytes, b: Bytes)
    ensures w + a + b == w + (a + b)
  {}

  lemma Concat4(w: Bytes, a: Bytes, b: Bytes, c: Bytes, d: Bytes)
    ensures w + a + b + c + d == w + (a + b + c + d)
  {}

  class Stream {
    const counting: bool
    var data: Bytes
    var count: nat
    ghost var written: Bytes

    /** A data stream holds what was written to it, a counting stream its length. */
    ghost predicate Valid()
      reads this
    {
      if counting then count == |written| else data == written
    }

    constructor (counting: bool)
      ensures Valid() && written == [] && this.counting == counting
    {
      this.counting := counting;
      data, count, written := [], 0, [];
    }

    method WriteData(bytes: Bytes)
      requires Valid()
      modifies this
      ensures Valid() && written == old(written) + bytes
    {
      if counting {
        count := count + |bytes|;
      } else {
        data := data + bytes;
      }
      written := written + bytes;
    }

    /** An integer of n bytes. */
    method WriteInt(x: int, n: nat)
      requires Valid()
      modifies this
      ensures Valid() && written == old(written) + LittleEndian(x, n)
    {
      WriteData(LittleEndian(x, n));
    }

    method WriteCompactSize(size: nat)
      requires Valid()
      modifies this
      ensures Valid() && written == old(written) + CompactSize(size)
    {
      if size < 253 {
        SingleByte(size);
        WriteInt(size, 1);
      } else if size <= 0xffff {
        WriteMarked(253, size, 2);
      } else if size <= 0xffff_ffff {
        WriteMarked(254, size, 4);
      } else {
        WriteMarked(255, size, 8);
      }
    }

    method WriteMarked(marker: Byte, size: nat, n: nat)
      requires Valid()
      modifies this
      ensures Valid() && written == old(written) + ([marker] + LittleEndian(size, n))
    {
      SingleByte(marker);
      WriteInt(marker, 1);
      WriteInt(size, n);
    }

    /** A byte string behind its length. */
    method WriteCompactBytes(bytes: Bytes)
      requires Valid()
      modifies this
      ensures Valid() && written == old(written) + CompactBytes(bytes)
    {
      ghost var w := written;
      WriteCompactSize(|bytes|);
      WriteData(bytes);
      Concat2(w, CompactSize(|bytes|), bytes);
    }

    /** The bytes back to front. */
    method WriteReversed(bytes: Bytes)
      requires Valid()
      modifies this
      ensures Valid() && written == old(written) + Backwards(bytes)
    {
      var i := |bytes|;
      assert bytes[i..] == [];
      while i > 0
        invariant 0 <= i <= |bytes| && Valid() && written == old(written) + Backwards(bytes[i..])
      {
        i := i - 1;
        assert bytes[i..] == [bytes[i]] + bytes[i + 1..];
        WriteData([bytes[i]]);
      }
      assert bytes[0..] == bytes;
    }
  }

  function Backwards(s: Bytes): (r: Bytes)
    ensures |r| == |s|
  {
    if s == [] then [] else Backwards(s[1..]) + [s[0]]
  }
}
