/** wally_aes_cbc: chaining in place over caller's buffers. The AES block transformation is a parameter. */
module AesCbc {
  import opened Cbc

  datatype Status = Ok | Invalid

  const ENCRYPT: bv32 := 1
  const DECRYPT: bv32 := 2
  const ALL_OPS: bv32 := 3

  predicate ValidKeyLength(n: nat) {
    n == 16 || n == 24 || n == 32
  }

  predicate Accepted(key: array?<bv8>, iv: array?<bv8>, input: array?<bv8>, flags: bv32, len: nat) {
    && key != null && ValidKeyLength(key.Length)
    && input != null && flags & ALL_OPS != ALL_OPS
    && (flags & ENCRYPT != 0 ==> len % BLOCK == 0)
    && (flags & DECRYPT != 0 ==> input.Length % BLOCK == 0)
    && iv != null && iv.Length == BLOCK && flags & !ALL_OPS == 0
  }

  /** What the last sixteen bytes decrypt to; they are looked at before any others. */
  function FinalBlock(k: Cipher, iv: Block, c: Bytes): Block
    requires BLOCK <= |c|
  {
    var last := |c| - BLOCK;
    Xor(k.decrypt(c[last..]), if |c| / BLOCK == 1 then iv else c[last - BLOCK..last])
  }

  /** The length reported to the caller, who may have offered too short a buffer. */
  function Needed(k: Cipher, iv: Block, input: Bytes, flags: bv32): nat
    requires flags & ENCRYPT == 0 ==> BLOCK <= |input|
  {
    if flags & ENCRYPT != 0 then
      BLOCK * (|input| / BLOCK + 1)
    else
      BLOCK * (|input| / BLOCK - 1) + Kept(FinalBlock(k, iv, input)[BLOCK - 1])
  }

  /** What is written when there is room. With neither operation named, whole blocks but the last are decrypted. */
  function Output(k: Cipher, iv: Block, input: Bytes, flags: bv32): (s: Bytes)
    requires flags & ENCRYPT == 0 ==> BLOCK <= |input|
  {
    if flags & ENCRYPT != 0 then Ciphertext(k, iv, input)
    else if flags & DECRYPT != 0 then Plaintext(k, iv, input)
    else Joined(Decrypted(k, iv, Blocks(input)[..|input| / BLOCK - 1]))
  }

  /** Flag 1 encrypts and flag 2 decrypts. */
  lemma OperationsAre(k: Cipher, iv: Block, s: Bytes)
    ensures Output(k, iv, s, 1) == Ciphertext(k, iv, s)
    ensures BLOCK <= |s| ==> Output(k, iv, s, 2) == Plaintext(k, iv, s)
  {
  }

  lemma JoinedDecrypted(k: Cipher, iv: Block, cs: seq<Block>)
    requires cs != []
    ensures Joined(Decrypted(k, iv, cs)) == Joined(Decrypted(k, iv, cs[..|cs| - 1]))
          + Xor(k.decrypt(cs[|cs| - 1]), Link(iv, cs[..|cs| - 1]))
  {
    var p := Decrypted(k, iv, cs);
    assert p[..|cs| - 1] == Decrypted(k, iv, cs[..|cs| - 1]);
  }

  lemma FinalBlockAligned(k: Cipher, iv: Block, c: Bytes, n: nat)
    requires |c| == BLOCK * (n + 1)
    ensures FinalBlock(k, iv, c) == Xor(k.decrypt(Blocks(c)[n]), Link(iv, Blocks(c)[..n]))
  {
    var bs := Blocks(c);
    assert bs[n] == c[|c| - BLOCK..];
    if n > 0 {
      assert bs[n - 1] == c[|c| - 2 * BLOCK..|c| - BLOCK];
    }
  }

  lemma UnpaddedAppend(q: Bytes, f: Block)
    ensures Unpadded(q + f) == q + f[..Kept(f[BLOCK - 1])]
  {
  }

  /** On whole blocks, the last block is decrypted like the others. */
  lemma PlaintextParts(k: Cipher, iv: Block, c: Bytes)
    requires BLOCK <= |c| && |c| % BLOCK == 0
    ensures Plaintext(k, iv, c)
         == Joined(Decrypted(k, iv, Blocks(c)[..|c| / BLOCK - 1]))
          + FinalBlock(k, iv, c)[..Kept(FinalBlock(k, iv, c)[BLOCK - 1])]
  {
    var bs, n := Blocks(c), |c| / BLOCK - 1;
    FinalBlockAligned(k, iv, c, n);
    JoinedDecrypted(k, iv, bs);
    UnpaddedAppend(Joined(Decrypted(k, iv, bs[..n])), FinalBlock(k, iv, c));
  }

  /** The length reported is that of the output, unless no operation is named and the last block seems to have text. */
  lemma NeededIsLength(k: Cipher, iv: Block, s: Bytes, flags: bv32)
    requires flags & ENCRYPT == 0 ==> BLOCK <= |s|
    requires flags & DECRYPT != 0 ==> |s| % BLOCK == 0
    ensures |Output(k, iv, s, flags)| == Needed(k, iv, s, flags) <==>
            flags & ALL_OPS != 0 || Kept(FinalBlock(k, iv, s)[BLOCK - 1]) == 0
  {
    if flags & ENCRYPT == 0 && flags & DECRYPT != 0 {
      PlaintextParts(k, iv, s);
    }
    assert flags & ALL_OPS != 0 <==> flags & ENCRYPT != 0 || flags & DECRYPT != 0;
  }

  /** The cipher that changes nothing. */
  function Copying(): Cipher {
    Cipher(b => b, b => b)
  }

  /** One block that seems to hold one byte of padding: 15 bytes are reported, and none is written. */
  lemma NothingWritten(iv: Block, c: Bytes)
    requires iv == seq(BLOCK, i => 0) && c == seq(BLOCK, i => 1)
    ensures Invertible(Copying()) && Needed(Copying(), iv, c, 0) == 15 && Output(Copying(), iv, c, 0) == []
    ensures Output(Copying(), iv, c, DECRYPT) == seq(15, i => 1)
  {
    var k := Copying();
    var f := FinalBlock(k, iv, c);
    assert f == Xor(c, iv) && f[BLOCK - 1] == 1 && f == c;
    assert Kept(f[BLOCK - 1]) == 15;
    PlaintextParts(k, iv, c);
    assert Blocks(c)[..0] == [];
  }

  /** Each operation undoes the other's output and reports its length, for plaintexts of every length. */
  lemma RoundTrip(k: Cipher, iv: Block, p: Bytes)
    requires Invertible(k)
    ensures var c := Output(k, iv, p, ENCRYPT);
      && Needed(k, iv, p, ENCRYPT) == |c|
      && Needed(k, iv, c, DECRYPT) == |p| && Output(k, iv, c, DECRYPT) == p
  {
    var c := Ciphertext(k, iv, p);
    PlaintextOfCiphertext(k, iv, p);
    NeededIsLength(k, iv, c, DECRYPT);
  }

  // ---- one block at a time ----

  method XorBlock(dst: array<bv8>, at: nat, a: array<bv8>, i: nat, b: array<bv8>, j: nat)
    requires at + BLOCK <= dst.Length && i + BLOCK <= a.Length && j + BLOCK <= b.Length
    requires (dst == a ==> at == i) && (dst == b ==> at == j)
    modifies dst
    ensures dst[..] == old(dst[..at]) + Xor(old(a[i..i + BLOCK]), old(b[j..j + BLOCK])) + old(dst[at + BLOCK..])
  {
    ghost var s, x := dst[..], Xor(a[i..i + BLOCK], b[j..j + BLOCK]);
    for n := 0 to BLOCK
      invariant forall m :: 0 <= m < dst.Length ==> dst[m] == if at <= m < at + n then x[m - at] else s[m]
    {
      assert a[i + n] == old(a[i..i + BLOCK])[n] && b[j + n] == old(b[j..j + BLOCK])[n];
      dst[at + n] := a[i + n] ^ b[j + n];
    }
  }

  /** aes_enc or aes_dec on one block. */
  method RunCipher(f: Block -> Block, src: array<bv8>, i: nat, dst: array<bv8>, at: nat)
    requires i + BLOCK <= src.Length && at + BLOCK <= dst.Length
    modifies dst
    ensures dst[..] == old(dst[..at]) + f(old(src[i..i + BLOCK])) + old(dst[at + BLOCK..])
  {
    var out := f(src[i..i + BLOCK]);
    forall n | 0 <= n < BLOCK {
      dst[at + n] := out[n];
    }
  }

  // ---- the loop over the blocks, for each direction ----

  /** The output buffer, first holding o, after i blocks. */
  function EncryptedSoFar(k: Cipher, iv: Block, p: Bytes, o: Bytes, i: nat): Bytes
    requires i <= |p| / BLOCK && BLOCK * i <= |o|
  {
    Joined(Encrypted(k, iv, Blocks(p)[..i])) + o[BLOCK * i..]
  }

  function DecryptedSoFar(k: Cipher, iv: Block, c: Bytes, o: Bytes, i: nat): Bytes
    requires i <= |c| / BLOCK && BLOCK * i <= |o|
  {
    Joined(Decrypted(k, iv, Blocks(c)[..i])) + o[BLOCK * i..]
  }

  function LinkAfter(k: Cipher, iv: Block, p: Bytes, i: nat): Block
    requires i <= |p| / BLOCK
  {
    Link(iv, Encrypted(k, iv, Blocks(p)[..i]))
  }

  lemma Spliced(s: Bytes, j: Bytes, x: Block, o: Bytes)
    requires |j| + BLOCK <= |o| && s == j + o[|j|..]
    ensures |s| == |o| && s[..|j|] + x + s[|j| + BLOCK..] == (j + x) + o[|j| + BLOCK..]
  {
    assert s[..|j|] == j && s[|j| + BLOCK..] == o[|j| + BLOCK..];
  }

  lemma EncryptedNext(k: Cipher, iv: Block, p: Bytes, o: Bytes, i: nat)
    requires i < |p| / BLOCK && BLOCK * i + BLOCK <= |o|
    ensures var e := k.encrypt(Xor(BlockAt(p, i), LinkAfter(k, iv, p, i)));
      var s := EncryptedSoFar(k, iv, p, o, i);
      LinkAfter(k, iv, p, i + 1) == e && |s| == |o|
      && EncryptedSoFar(k, iv, p, o, i + 1) == s[..BLOCK * i] + e + s[BLOCK * i + BLOCK..]
  {
    var bs := Blocks(p);
    assert bs[..i + 1][..i] == bs[..i];
    var c := Encrypted(k, iv, bs[..i]);
    var e := k.encrypt(Xor(bs[i], Link(iv, c)));
    assert Encrypted(k, iv, bs[..i + 1]) == c + [e];
    assert (c + [e])[..i] == c;
    assert Joined(c + [e]) == Joined(c) + e;
    Spliced(EncryptedSoFar(k, iv, p, o, i), Joined(c), e, o);
  }

  lemma DecryptedNext(k: Cipher, iv: Block, c: Bytes, o: Bytes, i: nat)
    requires i < |c| / BLOCK && BLOCK * i + BLOCK <= |o|
    ensures var x := Xor(k.decrypt(BlockAt(c, i)), if i == 0 then iv else BlockAt(c, i - 1));
      var s := DecryptedSoFar(k, iv, c, o, i);
      |s| == |o| && DecryptedSoFar(k, iv, c, o, i + 1) == s[..BLOCK * i] + x + s[BLOCK * i + BLOCK..]
  {
    var bs := Blocks(c);
    assert bs[..i + 1][..i] == bs[..i];
    JoinedDecrypted(k, iv, bs[..i + 1]);
    var x := Xor(k.decrypt(bs[i]), Link(iv, bs[..i]));
    Spliced(DecryptedSoFar(k, iv, c, o, i), Joined(Decrypted(k, iv, bs[..i])), x, o);
  }

  /** Appends a block to the bytes already written, over the first of those that follow. */
  method EncryptBlock(k: Cipher, src: array<bv8>, i: nat, chain: array<bv8>, link: nat,
                      dst: array<bv8>, at: nat, buf: array<bv8>)
    requires i + BLOCK <= src.Length && link + BLOCK <= chain.Length && at + BLOCK <= dst.Length
    requires buf.Length == BLOCK && buf != src && buf != chain && buf != dst
    modifies dst, buf
    ensures var e := k.encrypt(Xor(old(src[i..i + BLOCK]), old(chain[link..link + BLOCK])));
      dst[..] == old(dst[..at]) + e + old(dst[at + BLOCK..]) && dst[at..at + BLOCK] == e
  {
    XorBlock(buf, 0, src, i, chain, link);
    assert buf[0..BLOCK] == Xor(old(src[i..i + BLOCK]), old(chain[link..link + BLOCK]));
    RunCipher(k.encrypt, buf, 0, dst, at);
  }

  method DecryptBlock(k: Cipher, src: array<bv8>, i: nat, chain: array<bv8>, link: nat, dst: array<bv8>, at: nat)
    requires i + BLOCK <= src.Length && link + BLOCK <= chain.Length && at + BLOCK <= dst.Length && chain != dst
    modifies dst
    ensures dst[..] == old(dst[..at])
          + Xor(k.decrypt(old(src[i..i + BLOCK])), chain[link..link + BLOCK]) + old(dst[at + BLOCK..])
  {
    RunCipher(k.decrypt, src, i, dst, at);
    assert dst[at..at + BLOCK] == k.decrypt(old(src[i..i + BLOCK]));
    assert dst[..at] == old(dst[..at]) && dst[at + BLOCK..] == old(dst[at + BLOCK..]);
    XorBlock(dst, at, dst, at, chain, link);
  }

  method EncryptStep(k: Cipher, ghost iv: Block, ghost o: Bytes, input: array<bv8>, ghost i: nat,
                     chain: array<bv8>, link: nat, output: array<bv8>, at: nat, buf: array<bv8>)
    requires at == BLOCK * i && i < input.Length / BLOCK && link + BLOCK <= chain.Length && at + BLOCK <= output.Length
    requires buf.Length == BLOCK && buf != input && buf != chain && buf != output && output != input
    requires |o| == output.Length && output[..] == EncryptedSoFar(k, iv, input[..], o, i)
    requires chain[link..link + BLOCK] == LinkAfter(k, iv, input[..], i)
    modifies output, buf
    ensures output[..] == EncryptedSoFar(k, iv, input[..], o, i + 1)
    ensures output[at..at + BLOCK] == LinkAfter(k, iv, input[..], i + 1)
  {
    EncryptedNext(k, iv, input[..], o, i);
    assert input[at..at + BLOCK] == BlockAt(input[..], i);
    EncryptBlock(k, input, at, chain, link, output, at, buf);
  }

  method DecryptStep(k: Cipher, ghost iv: Block, ghost o: Bytes, input: array<bv8>, ghost i: nat,
                     chain: array<bv8>, link: nat, output: array<bv8>, at: nat)
    requires at == BLOCK * i && i < input.Length / BLOCK && link + BLOCK <= chain.Length && at + BLOCK <= output.Length
    requires output != input && output != chain
    requires |o| == output.Length && output[..] == DecryptedSoFar(k, iv, input[..], o, i)
    requires chain[link..link + BLOCK] == if i == 0 then iv else BlockAt(input[..], i - 1)
    modifies output
    ensures output[..] == DecryptedSoFar(k, iv, input[..], o, i + 1)
    ensures at + BLOCK <= input.Length && input[at..at + BLOCK] == BlockAt(input[..], i)
  {
    DecryptedNext(k, iv, input[..], o, i);
    assert input[at..at + BLOCK] == BlockAt(input[..], i);
    DecryptBlock(k, input, at, chain, link, output, at);
  }

  /** Leaves the place of the block that the next one is chained to. */
  method EncryptBlocks(k: Cipher, iv: array<bv8>, input: array<bv8>, output: array<bv8>, blocks: nat, buf: array<bv8>)
    returns (chain: array<bv8>, link: nat)
    requires iv.Length == buf.Length == BLOCK && blocks <= input.Length / BLOCK && BLOCK * blocks <= output.Length
    requires output != iv && output != input && buf != iv && buf != input && buf != output
    modifies output, buf
    ensures output[..] == EncryptedSoFar(k, iv[..], input[..], old(output[..]), blocks)
    ensures chain in {iv, output} && link + BLOCK <= chain.Length
    ensures chain[link..link + BLOCK] == LinkAfter(k, iv[..], input[..], blocks)
  {
    chain, link := iv, 0;
    var at: nat := 0;
    ghost var v, p, o := iv[..], input[..], output[..];
    for i := 0 to blocks
      invariant at == BLOCK * i && iv[..] == v && input[..] == p
      invariant output[..] == EncryptedSoFar(k, v, p, o, i)
      invariant chain in {iv, output} && link + BLOCK <= chain.Length
      invariant chain[link..link + BLOCK] == LinkAfter(k, v, p, i)
    {
      EncryptStep(k, v, o, input, i, chain, link, output, at, buf);
      chain, link := output, at;
      at := at + BLOCK;
    }
  }

  method DecryptBlocks(k: Cipher, iv: array<bv8>, input: array<bv8>, output: array<bv8>, blocks: nat)
    requires iv.Length == BLOCK && blocks <= input.Length / BLOCK && BLOCK * blocks <= output.Length
    requires output != iv && output != input
    modifies output
    ensures output[..] == DecryptedSoFar(k, iv[..], input[..], old(output[..]), blocks)
  {
    var chain, link := iv, 0;
    var at: nat := 0;
    ghost var v, c, o := iv[..], input[..], output[..];
    for i := 0 to blocks
      invariant at == BLOCK * i && iv[..] == v && input[..] == c
      invariant output[..] == DecryptedSoFar(k, v, c, o, i)
      invariant chain in {iv, input} && 0 <= link && link + BLOCK <= chain.Length
      invariant chain[link..link + BLOCK] == if i == 0 then v else BlockAt(c, i - 1)
    {
      DecryptStep(k, v, o, input, i, chain, link, output, at);
      chain, link := input, at;
      at := at + BLOCK;
    }
  }

  // ---- the last block of an encryption ----

  /** What does not fill a block, and its padding. */
  function LastBlock(p: Bytes): Block {
    p[BLOCK * (|p| / BLOCK)..] + seq(PadLength(|p|), i => PadLength(|p|) as bv8)
  }

  lemma CiphertextParts(k: Cipher, iv: Block, p: Bytes)
    ensures Ciphertext(k, iv, p) == Joined(Encrypted(k, iv, Blocks(p)))
          + k.encrypt(Xor(LastBlock(p), Link(iv, Encrypted(k, iv, Blocks(p)))))
  {
    var n, q := |p| / BLOCK, Padded(p);
    var bs := Blocks(q);
    forall i | 0 <= i < n ensures bs[i] == Blocks(p)[i] {
      assert BlockAt(q, i) == BlockAt(p, i);
    }
    assert bs[..n] == Blocks(p);
    assert bs[n] == LastBlock(p);
    var c := Encrypted(k, iv, bs);
    assert c[..n] == Encrypted(k, iv, Blocks(p));
  }

  lemma EncryptedAll(k: Cipher, iv: Block, p: Bytes, o: Bytes)
    requires BLOCK * (|p| / BLOCK + 1) <= |o|
    ensures var n := |p| / BLOCK;
      var s, e := EncryptedSoFar(k, iv, p, o, n), k.encrypt(Xor(LastBlock(p), LinkAfter(k, iv, p, n)));
      |s| == |o| && s[..BLOCK * n] + e + s[BLOCK * n + BLOCK..] == Ciphertext(k, iv, p) + o[BLOCK * (n + 1)..]
  {
    var n, bs := |p| / BLOCK, Blocks(p);
    assert bs[..n] == bs;
    CiphertextParts(k, iv, p);
    var e := k.encrypt(Xor(LastBlock(p), LinkAfter(k, iv, p, n)));
    Spliced(EncryptedSoFar(k, iv, p, o, n), Joined(Encrypted(k, iv, bs)), e, o);
  }

  method FillLast(input: array<bv8>, at: nat, chain: array<bv8>, link: nat, remainder: nat, buf: array<bv8>)
    requires remainder == input.Length % BLOCK && at == input.Length - remainder && link + BLOCK <= chain.Length
    requires buf.Length == BLOCK && buf != input && buf != chain
    modifies buf
    ensures buf[..] == Xor(LastBlock(input[..]), chain[link..link + BLOCK])
  {
    ghost var b, v := LastBlock(input[..]), chain[link..link + BLOCK];
    var n := 0;
    while n < remainder
      invariant 0 <= n <= remainder
      invariant forall m :: 0 <= m < n ==> buf[m] == b[m] ^ v[m]
    {
      assert input[at + n] == b[n] && chain[link + n] == v[n];
      buf[n] := input[at + n] ^ chain[link + n];
      n := n + 1;
    }
    var pad := (BLOCK - remainder) as bv8;
    while n < BLOCK
      invariant remainder <= n <= BLOCK
      invariant forall m :: 0 <= m < n ==> buf[m] == b[m] ^ v[m]
    {
      assert b[n] == pad && chain[link + n] == v[n];
      buf[n] := pad ^ chain[link + n];
      n := n + 1;
    }
  }

  method EncryptLast(k: Cipher, input: array<bv8>, at: nat, chain: array<bv8>, link: nat,
                     output: array<bv8>, remainder: nat, buf: array<bv8>)
    requires remainder == input.Length % BLOCK && at == input.Length - remainder
    requires link + BLOCK <= chain.Length && at + BLOCK <= output.Length
    requires buf.Length == BLOCK && buf != input && buf != chain && buf != output
    modifies output, buf
    ensures output[..] == old(output[..at])
          + k.encrypt(Xor(old(LastBlock(input[..])), old(chain[link..link + BLOCK]))) + old(output[at + BLOCK..])
  {
    FillLast(input, at, chain, link, remainder, buf);
    assert buf[0..BLOCK] == buf[..];
    RunCipher(k.encrypt, buf, 0, output, at);
  }

  method EncryptAll(k: Cipher, iv: array<bv8>, input: array<bv8>, output: array<bv8>, blocks: nat, remainder: nat,
                    buf: array<bv8>)
    requires iv.Length == buf.Length == BLOCK && blocks == input.Length / BLOCK && remainder == input.Length % BLOCK
    requires BLOCK * (blocks + 1) <= output.Length
    requires output != iv && output != input && buf != iv && buf != input && buf != output
    modifies output, buf
    ensures output[..] == Ciphertext(k, iv[..], input[..]) + old(output[BLOCK * (blocks + 1)..])
  {
    ghost var v, p, o := iv[..], input[..], output[..];
    var chain, link := EncryptBlocks(k, iv, input, output, blocks, buf);
    EncryptedAll(k, v, p, o);
    EncryptLast(k, input, BLOCK * blocks, chain, link, output, remainder, buf);
  }

  // ---- the first block of a decryption: the last ----

  method DecryptFinal(k: Cipher, iv: array<bv8>, input: array<bv8>, blocks: nat, buf: array<bv8>)
    returns (remainder: nat)
    requires iv.Length == buf.Length == BLOCK <= input.Length && blocks == input.Length / BLOCK - 1
    requires buf != iv && buf != input
    modifies buf
    ensures buf[..] == FinalBlock(k, iv[..], input[..])
    ensures remainder == Kept(buf[BLOCK - 1])
  {
    var last := input.Length - BLOCK;
    var prev, at := input, last - BLOCK;
    if blocks == 0 {
      prev, at := iv, 0;
    }
    RunCipher(k.decrypt, input, last, buf, 0);
    assert input[last..] == input[last..last + BLOCK];
    assert buf[0..BLOCK] == k.decrypt(input[last..]);
    XorBlock(buf, 0, prev, at, buf, 0);
    XorCommutes(prev[at..at + BLOCK], k.decrypt(input[last..]));
    remainder := BLOCK - buf[BLOCK - 1] as int % BLOCK;
    if remainder == BLOCK {
      remainder := 0;
    }
  }

  lemma OutputParts(k: Cipher, iv: Block, c: Bytes, flags: bv32) returns (j: Bytes, tail: Bytes)
    requires BLOCK <= |c| && flags & ENCRYPT == 0 && (flags & DECRYPT != 0 ==> |c| % BLOCK == 0)
    ensures j == Joined(Decrypted(k, iv, Blocks(c)[..|c| / BLOCK - 1])) && |j| == BLOCK * (|c| / BLOCK - 1)
    ensures var f := FinalBlock(k, iv, c);
      tail == if flags & DECRYPT != 0 then f[..Kept(f[BLOCK - 1])] else []
    ensures Output(k, iv, c, flags) == j + tail
  {
    var f := FinalBlock(k, iv, c);
    j := Joined(Decrypted(k, iv, Blocks(c)[..|c| / BLOCK - 1]));
    tail := if flags & DECRYPT != 0 then f[..Kept(f[BLOCK - 1])] else [];
    if flags & DECRYPT != 0 {
      PlaintextParts(k, iv, c);
    }
  }

  lemma DecryptedAll(k: Cipher, iv: Block, c: Bytes, j: Bytes, tail: Bytes, o: Bytes, p: Bytes)
    requires BLOCK <= |c| && j == Joined(Decrypted(k, iv, Blocks(c)[..|c| / BLOCK - 1]))
    requires |j| + |tail| <= |o| == |p| && p[|j|..] == tail + o[|j| + |tail|..]
    ensures DecryptedSoFar(k, iv, c, p, |c| / BLOCK - 1) == (j + tail) + o[|j + tail|..]
  {
  }

  method CopyTail(flags: bv32, buf: array<bv8>, count: nat, output: array<bv8>, at: nat)
    requires count <= buf.Length && at + count <= output.Length && buf != output
    modifies output
    ensures if flags & DECRYPT != 0 then output[at..] == buf[..count] + old(output[at + count..])
      else output[..] == old(output[..])
  {
    if flags & DECRYPT != 0 {
      forall n | 0 <= n < count {
        output[at + n] := buf[n];
      }
    }
  }

  method DecryptAll(k: Cipher, iv: array<bv8>, input: array<bv8>, flags: bv32, output: array<bv8>, blocks: nat,
                    remainder: nat, buf: array<bv8>)
    requires iv.Length == buf.Length == BLOCK <= input.Length && blocks == input.Length / BLOCK - 1
    requires flags & ENCRYPT == 0 && (flags & DECRYPT != 0 ==> input.Length % BLOCK == 0)
    requires buf[..] == FinalBlock(k, iv[..], input[..]) && remainder == Kept(buf[BLOCK - 1])
    requires BLOCK * blocks + remainder <= output.Length
    requires output != iv && output != input && buf != output
    modifies output
    ensures var s := Output(k, iv[..], input[..], flags);
      |s| <= output.Length && output[..] == s + old(output[|s|..])
  {
    ghost var v, c, o := iv[..], input[..], output[..];
    ghost var j, tail: Bytes := OutputParts(k, v, c, flags);
    assert flags & DECRYPT != 0 ==> tail == buf[..remainder];
    CopyTail(flags, buf, remainder, output, BLOCK * blocks);
    DecryptedAll(k, v, c, j, tail, o, output[..]);
    DecryptBlocks(k, iv, input, output, blocks);
  }

  // ---- wally_aes_cbc ----

  /** Reports the length needed even when it is more than there is room for; then nothing is written. */
  method Run(cipher: Bytes -> Cipher, key: array?<bv8>, iv: array?<bv8>, input: array?<bv8>, flags: bv32,
             output: array?<bv8>, len: nat)
    returns (status: Status, written: nat)
    requires output != null ==> output.Length == len && output != key && output != iv && output != input
    requires Accepted(key, iv, input, flags, len) && flags & ENCRYPT == 0 ==> BLOCK <= input.Length
    modifies if output == null then {} else {output}
    ensures !Accepted(key, iv, input, flags, len) ==> status == Invalid && written == 0
    ensures Accepted(key, iv, input, flags, len) ==> written == Needed(cipher(key[..]), iv[..], input[..], flags)
    ensures Accepted(key, iv, input, flags, len) ==> (status == Invalid <==> 0 < written <= len && output == null)
    ensures output != null ==>
      if Accepted(key, iv, input, flags, len) && 0 < written <= len then
        var s := Output(cipher(key[..]), iv[..], input[..], flags);
        |s| <= len && output[..] == s + old(output[|s|..])
      else output[..] == old(output[..])
  {
    written := 0;
    if !Accepted(key, iv, input, flags, len) {
      return Invalid, 0;
    }
    var k := cipher(key[..]);
    var blocks, remainder: nat := input.Length / BLOCK, 0;
    var buf := new bv8[BLOCK];
    if flags & ENCRYPT != 0 {
      remainder := input.Length % BLOCK;
      written := (blocks + 1) * BLOCK;
    } else {
      blocks := blocks - 1;
      remainder := DecryptFinal(k, iv, input, blocks, buf);
      written := blocks * BLOCK + remainder;
    }
    if len < written || written == 0 {
      return Ok, written;
    }
    if output == null {
      return Invalid, written;
    }
    if flags & ENCRYPT != 0 {
      EncryptAll(k, iv, input, output, blocks, remainder, buf);
    } else {
      DecryptAll(k, iv, input, flags, output, blocks, remainder, buf);
    }
    status := Ok;
  }
}
