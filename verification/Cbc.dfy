/** Cipher block chaining (section 6.2 of SP 800-38A) and the padding of section 6.3 of RFC 5652, over any block cipher. */
module Cbc {
  const BLOCK: nat := 16

  type Bytes = seq<bv8>
  type Block = b: seq<bv8> | |b| == BLOCK witness seq(BLOCK, i => 0)

  /** The block cipher under one key. */
  datatype Cipher = Cipher(encrypt: Block -> Block, decrypt: Block -> Block)

  /** Decryption undoes encryption, and the other way round. */
  ghost predicate Invertible(k: Cipher) {
    && (forall b: Block :: k.decrypt(k.encrypt(b)) == b)
    && (forall b: Block :: k.encrypt(k.decrypt(b)) == b)
  }

  function Xor(a: Block, b: Block): Block {
    seq(BLOCK, i requires 0 <= i < BLOCK => a[i] ^ b[i])
  }

  lemma XorTwice(a: Block, b: Block)
    ensures Xor(Xor(a, b), b) == a
  {
  }

  lemma XorCommutes(a: Block, b: Block)
    ensures Xor(a, b) == Xor(b, a)
  {
  }

  /** Addition of bits: the zero block is neutral, every block is its own inverse, and the order does not matter. */
  lemma XorIsAddition(a: Block, b: Block, c: Block)
    ensures Xor(a, seq(BLOCK, i => 0)) == a && Xor(a, a) == seq(BLOCK, i => 0)
    ensures Xor(a, b) == Xor(b, a) && Xor(Xor(a, b), c) == Xor(a, Xor(b, c))
    ensures forall i :: 0 <= i < 16 ==> Xor(a, b)[i] == a[i] ^ b[i]
  {
    forall i | 0 <= i < BLOCK ensures (a[i] ^ b[i]) ^ c[i] == a[i] ^ (b[i] ^ c[i]) {}
    assert Xor(Xor(a, b), c) == Xor(a, Xor(b, c));
  }

  // ---- chains of blocks ----

  /** What the block after c is chained to: the last of them, or the initialisation vector. */
  function Link(iv: Block, c: seq<Block>): Block {
    if c == [] then iv else c[|c| - 1]
  }

  function Encrypted(k: Cipher, iv: Block, p: seq<Block>): (c: seq<Block>)
    ensures |c| == |p|
  {
    if p == [] then [] else
      var n := |p| - 1;
      var c := Encrypted(k, iv, p[..n]);
      c + [k.encrypt(Xor(p[n], Link(iv, c)))]
  }

  function Decrypted(k: Cipher, iv: Block, c: seq<Block>): (p: seq<Block>)
    ensures |p| == |c|
  {
    if c == [] then [] else
      var n := |c| - 1;
      Decrypted(k, iv, c[..n]) + [Xor(k.decrypt(c[n]), Link(iv, c[..n]))]
  }

  /** Block i of the plaintext is a function of two blocks of the ciphertext, so an altered block spoils two. */
  lemma {:induction false} DecryptedBlock(k: Cipher, iv: Block, c: seq<Block>, i: nat)
    requires i < |c|
    ensures Decrypted(k, iv, c)[i] == Xor(k.decrypt(c[i]), Link(iv, c[..i]))
  {
    var n := |c| - 1;
    if i < n {
      DecryptedBlock(k, iv, c[..n], i);
      assert c[..n][..i] == c[..i];
    }
  }

  /** Block i of the ciphertext: the plaintext's plus the block before, or the initialisation vector, encrypted. */
  lemma {:induction false} EncryptedBlock(k: Cipher, iv: Block, p: seq<Block>, i: nat)
    requires i < |p|
    ensures Encrypted(k, iv, p)[i] == k.encrypt(Xor(p[i], if i == 0 then iv else Encrypted(k, iv, p)[i - 1]))
  {
    var n := |p| - 1;
    if i < n {
      EncryptedBlock(k, iv, p[..n], i);
    }
  }

  lemma {:induction false} DecryptEncrypted(k: Cipher, iv: Block, p: seq<Block>)
    requires Invertible(k)
    ensures Decrypted(k, iv, Encrypted(k, iv, p)) == p
  {
    if p != [] {
      var n := |p| - 1;
      var c := Encrypted(k, iv, p[..n]);
      DecryptEncrypted(k, iv, p[..n]);
      assert Encrypted(k, iv, p)[..n] == c;
      XorTwice(p[n], Link(iv, c));
    }
  }

  lemma {:induction false} EncryptDecrypted(k: Cipher, iv: Block, c: seq<Block>)
    requires Invertible(k)
    ensures Encrypted(k, iv, Decrypted(k, iv, c)) == c
  {
    if c != [] {
      var n := |c| - 1;
      var p := Decrypted(k, iv, c[..n]);
      EncryptDecrypted(k, iv, c[..n]);
      assert Decrypted(k, iv, c)[..n] == p;
      XorTwice(k.decrypt(c[n]), Link(iv, c[..n]));
    }
  }

  // ---- bytes and blocks ----

  function BlockAt(s: Bytes, i: nat): Block
    requires BLOCK * i + BLOCK <= |s|
  {
    s[BLOCK * i..BLOCK * i + BLOCK]
  }

  /** The whole blocks of s. */
  function Blocks(s: Bytes): (bs: seq<Block>)
    ensures |bs| == |s| / BLOCK
  {
    seq(|s| / BLOCK, i requires 0 <= i < |s| / BLOCK => BlockAt(s, i))
  }

  function Joined(bs: seq<Block>): (s: Bytes)
    ensures |s| == BLOCK * |bs|
  {
    if bs == [] then [] else Joined(bs[..|bs| - 1]) + bs[|bs| - 1]
  }

  lemma {:induction false} JoinedBlockAt(bs: seq<Block>, i: nat)
    requires i < |bs|
    ensures BlockAt(Joined(bs), i) == bs[i]
  {
    var n := |bs| - 1;
    if i < n {
      var s, lo := Joined(bs[..n]), BLOCK * i;
      JoinedBlockAt(bs[..n], i);
      assert (s + bs[n])[lo..lo + BLOCK] == s[lo..lo + BLOCK];
    }
  }

  lemma BlocksOfJoined(bs: seq<Block>)
    ensures Blocks(Joined(bs)) == bs
  {
    forall i | 0 <= i < |bs| ensures Blocks(Joined(bs))[i] == bs[i] {
      JoinedBlockAt(bs, i);
    }
  }

  lemma {:induction false} JoinedBlocks(s: Bytes)
    requires |s| % BLOCK == 0
    ensures Joined(Blocks(s)) == s
  {
    if s != [] {
      var m := |s| - BLOCK;
      var n := m / BLOCK;
      JoinedBlocks(s[..m]);
      forall i | 0 <= i < n ensures Blocks(s)[i] == Blocks(s[..m])[i] {
        assert BlockAt(s, i) == BlockAt(s[..m], i);
      }
      assert Blocks(s)[..n] == Blocks(s[..m]);
    }
  }

  // ---- padding ----

  function PadLength(length: nat): (v: nat)
    ensures 1 <= v <= BLOCK && (length + v) % BLOCK == 0
  {
    BLOCK - length % BLOCK
  }

  /** p and enough bytes, each saying how many they are, to end a block. */
  function Padded(p: Bytes): (q: Bytes)
    ensures |q| == BLOCK * (|p| / BLOCK + 1) && p <= q
  {
    var v := PadLength(|p|);
    p + seq(v, i => v as bv8)
  }

  predicate WellPadded(q: Bytes) {
    q != [] && |q| % BLOCK == 0 &&
    var v := q[|q| - 1] as int;
    1 <= v <= BLOCK && forall i :: |q| - v <= i < |q| ==> q[i] == v as bv8
  }

  /** How many bytes of a final block ending in `last` are kept. */
  function Kept(last: bv8): (k: nat)
    ensures k < BLOCK
  {
    var k := BLOCK - last as int % BLOCK;
    if k == BLOCK then 0 else k
  }

  /** q without what the code takes for its padding; it does not look at more than the last byte. */
  function Unpadded(q: Bytes): (p: Bytes)
    requires BLOCK <= |q|
    ensures p <= q
  {
    q[..|q| - BLOCK + Kept(q[|q| - 1])]
  }

  lemma UnpadPadded(p: Bytes)
    ensures WellPadded(Padded(p)) && Unpadded(Padded(p)) == p
  {
    var q, v := Padded(p), PadLength(|p|);
    assert q[|q| - 1] == v as bv8;
    assert q[|q| - 1] as int == v;
  }

  lemma PadUnpadded(q: Bytes)
    requires BLOCK <= |q| && |q| % BLOCK == 0
    ensures Padded(Unpadded(q)) == q <==> WellPadded(q)
  {
    var p := Unpadded(q);
    if WellPadded(q) {
      var v := q[|q| - 1] as int;
      assert |p| == |q| - v;
      assert PadLength(|p|) == v;
    } else {
      UnpadPadded(p);
    }
  }

  // ---- messages of any length ----

  function Ciphertext(k: Cipher, iv: Block, p: Bytes): (c: Bytes)
    ensures |c| == BLOCK * (|p| / BLOCK + 1)
  {
    Joined(Encrypted(k, iv, Blocks(Padded(p))))
  }

  function Plaintext(k: Cipher, iv: Block, c: Bytes): (p: Bytes)
    requires BLOCK <= |c|
  {
    Unpadded(Joined(Decrypted(k, iv, Blocks(c))))
  }

  lemma CiphertextIs(k: Cipher, iv: Block, p: Bytes, c: Bytes)
    requires Invertible(k) && |c| % BLOCK == 0
    ensures Ciphertext(k, iv, p) == c <==> Padded(p) == Joined(Decrypted(k, iv, Blocks(c)))
  {
    var bs, cs := Blocks(Padded(p)), Blocks(c);
    if Ciphertext(k, iv, p) == c {
      BlocksOfJoined(Encrypted(k, iv, bs));
      DecryptEncrypted(k, iv, bs);
      JoinedBlocks(Padded(p));
    } else if Padded(p) == Joined(Decrypted(k, iv, cs)) {
      BlocksOfJoined(Decrypted(k, iv, cs));
      EncryptDecrypted(k, iv, cs);
      JoinedBlocks(c);
    }
  }

  /** Decryption undoes encryption of plaintexts of every length. */
  lemma PlaintextOfCiphertext(k: Cipher, iv: Block, p: Bytes)
    requires Invertible(k)
    ensures Plaintext(k, iv, Ciphertext(k, iv, p)) == p
  {
    CiphertextIs(k, iv, p, Ciphertext(k, iv, p));
    UnpadPadded(p);
  }

  /** Encryption restores a ciphertext exactly when what was decrypted is properly padded. */
  lemma CiphertextOfPlaintext(k: Cipher, iv: Block, c: Bytes)
    requires Invertible(k) && BLOCK <= |c| && |c| % BLOCK == 0
    ensures Ciphertext(k, iv, Plaintext(k, iv, c)) == c <==> WellPadded(Joined(Decrypted(k, iv, Blocks(c))))
  {
    var q := Joined(Decrypted(k, iv, Blocks(c)));
    PadUnpadded(q);
    CiphertextIs(k, iv, Unpadded(q), c);
  }
}
