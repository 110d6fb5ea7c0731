/**
 Extended keys and child key derivation (BIP-32). HMAC-SHA512, HASH160 and the curve are parameters;
 of the curve, only that point addition follows addition of private keys.
 */
module Bip32 {
  import opened Arith
  import opened Powers
  import opened Numerals
  import opened Wrappers

  type Hash160 = s: seq<Byte> | |s| == 20 witness seq(20, i => 0)
  type Bytes32 = s: seq<Byte> | |s| == 32 witness seq(32, i => 0)
  type Bytes33 = s: seq<Byte> | |s| == 33 witness seq(33, i => 0)
  type Bytes64 = s: seq<Byte> | |s| == 64 witness seq(64, i => 0)

  function Zeros(n: nat): seq<Byte> {
    seq(n, i => 0)
  }

  // ---- numbers of a fixed length ----

  function BigEndian(x: nat, n: nat): (s: seq<Byte>)
    ensures |s| == n
  {
    if n == 0 then [] else BigEndian(x / 0x100, n - 1) + [x % 0x100]
  }

  lemma {:induction false} BigEndianReads(x: nat, n: nat)
    requires x < Pow(0x100, n)
    ensures Value(BigEndian(x, n)) == x
  {
    if n > 0 {
      BigEndianReads(x / 0x100, n - 1);
      var s, t := BigEndian(x, n), BigEndian(x / 0x100, n - 1);
      DigitsAgree(s, t, n - 1, 0x100);
    }
  }

  lemma {:induction false} BigEndianWrites(s: seq<Byte>)
    ensures BigEndian(Value(s), |s|) == s
  {
    if s != [] {
      var n := |s| - 1;
      var v := Value(s[..n]);
      BigEndianWrites(s[..n]);
      DigitsAgree(s, s[..n], n, 0x100);
      assert Value(s) == v * 0x100 + s[n];
      assert Value(s) / 0x100 == v && Value(s) % 0x100 == s[n];
      assert s == s[..n] + [s[n]];
    }
  }

  // ---- what is abstracted ----

  datatype Primitives<!Point> = Primitives(
    hmac: (seq<Byte>, seq<Byte>) -> Bytes64,
    hash160: seq<Byte> -> Hash160,
    order: nat,
    point: nat -> Point,
    infinity: Point,
    add: (Point, Point) -> Point,
    serialize: Point -> Bytes33,
    parse: seq<Byte> -> Option<Point>)

  ghost predicate Homomorphic<Point(!new)>(p: Primitives<Point>) {
    && 1 < p.order <= Pow(0x100, 32) <= 2 * p.order
    && (forall a: nat, b: nat :: a < p.order && b < p.order ==> p.add(p.point(a), p.point(b)) == p.point((a + b) % p.order))
  }

  /** The group law, and compressed points that can be parsed again. */
  ghost predicate Lawful<Point(!new)>(p: Primitives<Point>) {
    && Homomorphic(p)
    && (forall a: nat :: a < p.order ==> (p.point(a) == p.infinity <==> a == 0))
    && (forall q: Point :: q != p.infinity ==> p.parse(p.serialize(q)) == Some(q))
  }

  /** secp256k1_ec_pubkey_create and pubkey_serialize. */
  function PublicKey<Point>(p: Primitives<Point>, k: Bytes32): Option<Bytes33> {
    if 0 < Value(k) < p.order then Some(p.serialize(p.point(Value(k)))) else None
  }

  /** secp256k1_ec_privkey_tweak_add. */
  function TweakPrivate<Point>(p: Primitives<Point>, k: Bytes32, t: Bytes32): Option<Bytes32> {
    if p.order == 0 || Value(t) >= p.order then None else
      var s := (Value(k) + Value(t)) % p.order;
      var b: Bytes32 := BigEndian(s, 32);
      if s == 0 then None else Some(b)
  }

  /** pubkey_parse, pubkey_tweak_add and pubkey_serialize. */
  function TweakPublic<Point(==)>(p: Primitives<Point>, k: Bytes33, t: Bytes32): Option<Bytes33> {
    var q := p.parse(k);
    if q.None? || Value(t) >= p.order then None else
      var r := p.add(q.value, p.point(Value(t)));
      if r == p.infinity then None else Some(p.serialize(r))
  }

  /** Tweaking a private key tweaks its public key, and the one fails when the other does. */
  lemma TweakCommutes<Point(!new)>(p: Primitives<Point>, k: Bytes32, t: Bytes32)
    requires Lawful(p) && 0 < Value(k) < p.order
    ensures var s := TweakPrivate(p, k, t);
      var q := TweakPublic(p, p.serialize(p.point(Value(k))), t);
      && (s.None? <==> q.None?)
      && (s.Some? ==> 0 < Value(s.value) < p.order && PublicKey(p, s.value) == q)
  {
    var n: nat := 32;
    if Value(t) < p.order {
      var s := (Value(k) + Value(t)) % p.order;
      BigEndianReads(s, n);
    }
  }

  // ---- extended keys ----

  const MAIN_PUBLIC: nat := 0x0488B21E
  const MAIN_PRIVATE: nat := 0x0488ADE4
  const TEST_PUBLIC: nat := 0x043587CF
  const TEST_PRIVATE: nat := 0x04358394

  const KEY_PUBLIC: bv32 := 1
  const SKIP_HASH: bv32 := 2
  const ALL_FLAGS: bv32 := 3

  const HARDENED: nat := 0x8000_0000
  const MAX_DEPTH: nat := 0xff

  type Uint32 = x: int | 0 <= x < 0x1_0000_0000

  datatype Key = Key(version: Uint32, depth: Byte, childNum: Uint32, chainCode: Bytes32, privKey: Bytes33,
                     pubKey: Bytes33, parent160: Hash160, hash160: Hash160)

  /** A record that was wiped. */
  function Cleared(): Key {
    Key(0, 0, 0, Zeros(32), Zeros(33), Zeros(33), Zeros(20), Zeros(20))
  }

  predicate Private(k: Key) {
    k.privKey[0] == 0
  }

  predicate Mainnet(version: Uint32) {
    version == MAIN_PRIVATE || version == MAIN_PUBLIC
  }

  function Stripped(): Bytes33 {
    [1] + Zeros(32)
  }

  /** The input of the HMAC that a child is derived from. */
  function Data(k: Key, i: Uint32): seq<Byte> {
    (if i >= HARDENED then k.privKey else k.pubKey) + BigEndian(i, 4)
  }

  /** The two keys of a child, given the left half of the HMAC. */
  function ChildKeys<Point(==)>(p: Primitives<Point>, k: Key, t: Bytes32): Option<(Bytes33, Bytes33)> {
    if Private(k) then
      var s := TweakPrivate(p, k.privKey[1..], t);
      if s.None? then None else
        var q := PublicKey(p, s.value);
        var priv: Bytes33 := [0] + s.value;
        if q.None? then None else Some((priv, q.value))
    else
      var q := TweakPublic(p, k.pubKey, t);
      if q.None? then None else Some((Stripped(), q.value))
  }

  function ChildVersion(version: Uint32, public: bool): Uint32 {
    if Mainnet(version) then if public then MAIN_PUBLIC else MAIN_PRIVATE
    else if public then TEST_PUBLIC else TEST_PRIVATE
  }

  /** Child i of k, or nothing; section "Child key derivation (CKD) functions" of BIP-32. */
  function Derived<Point(==)>(p: Primitives<Point>, k: Key, i: Uint32, flags: bv32): Option<Key> {
    var public := flags & KEY_PUBLIC != 0;
    if flags & !ALL_FLAGS != 0 || (!Private(k) && (!public || i >= HARDENED)) || k.depth == MAX_DEPTH then None else
      var h := p.hmac(k.chainCode, Data(k, i));
      var keys := ChildKeys(p, k, h[..32]);
      if keys.None? then None else
        var (priv, pub) := keys.value;
        var skip := flags & SKIP_HASH != 0;
        Some(Key(ChildVersion(k.version, public), k.depth + 1, i, h[32..], if public then Stripped() else priv, pub,
                 if skip then Zeros(20) else k.hash160, if skip then Zeros(20) else p.hash160(pub)))
  }

  /** A further step of a path, from where the others lead. */
  function Step<Point(==)>(p: Primitives<Point>, parent: Option<Key>, i: Uint32, flags: bv32): Option<Key> {
    if parent.None? then None else Derived(p, parent.value, i, flags)
  }

  /** Derivation along a path, one child after another. */
  function DerivedPath<Point(==)>(p: Primitives<Point>, k: Key, path: seq<Uint32>, flags: bv32): Option<Key> {
    if path == [] then Some(k) else
      var n := |path| - 1;
      Step(p, DerivedPath(p, k, path[..n], flags), path[n], flags)
  }

  const SEED: seq<Byte> := [66, 105, 116, 99, 111, 105, 110, 32, 115, 101, 101, 100]

  /** The key at the root of the tree of a seed. */
  function Master<Point>(p: Primitives<Point>, seed: seq<Byte>, version: Uint32, flags: bv32): Option<Key> {
    if |seed| !in {16, 32, 64} || version !in {MAIN_PRIVATE, TEST_PRIVATE} || flags & !SKIP_HASH != 0 then None else
      var h := p.hmac(SEED, seed);
      var pub := PublicKey(p, h[..32]);
      if pub.None? then None else
        Some(Key(version, 0, 0, h[32..], [0] + h[..32], pub.value, Zeros(20),
                 if flags & SKIP_HASH != 0 then Zeros(20) else p.hash160(pub.value)))
  }

  // ---- what every derivation keeps ----

  /** The public key of a private one is its point. */
  predicate Consistent<Point>(p: Primitives<Point>, k: Key) {
    Private(k) ==> PublicKey(p, k.privKey[1..]) == Some(k.pubKey)
  }

  /** Keys come from a seed or from outside; derivation does the rest. */
  lemma StartsConsistent<Point>(p: Primitives<Point>, seed: seq<Byte>, version: Uint32, flags: bv32, b: seq<Byte>)
    ensures var k := Master(p, seed, version, flags);
      k.Some? ==> Consistent(p, k.value) && Private(k.value)
    ensures Unserialized(p, b).Some? ==> Consistent(p, Unserialized(p, b).value)
  {
    var k := Master(p, seed, version, flags);
    if k.Some? {
      assert k.value.privKey[1..] == p.hmac(SEED, seed)[..32];
    }
  }

  lemma DerivedKeeps<Point(!new)>(p: Primitives<Point>, k: Key, i: Uint32, flags: bv32)
    requires Lawful(p) && Consistent(p, k)
    ensures var c := Derived(p, k, i, flags);
      c.Some? ==> Consistent(p, c.value) && (Private(c.value) <==> flags & KEY_PUBLIC == 0) && c.value.depth == k.depth + 1
  {
    var c := Derived(p, k, i, flags);
    if c.Some? && flags & KEY_PUBLIC == 0 {
      var h := p.hmac(k.chainCode, Data(k, i));
      var s := TweakPrivate(p, k.privKey[1..], h[..32]);
      assert c.value.privKey == [0] + s.value && c.value.privKey[1..] == s.value;
    }
  }

  lemma {:induction false} DerivedPathKeeps<Point(!new)>(p: Primitives<Point>, k: Key, path: seq<Uint32>, flags: bv32)
    requires Lawful(p) && Consistent(p, k)
    ensures var c := DerivedPath(p, k, path, flags);
      c.Some? ==> Consistent(p, c.value) && c.value.depth == k.depth + |path| <= MAX_DEPTH
                  && (path != [] ==> (Private(c.value) <==> flags & KEY_PUBLIC == 0))
  {
    if path != [] {
      var n := |path| - 1;
      DerivedPathKeeps(p, k, path[..n], flags);
      var parent := DerivedPath(p, k, path[..n], flags);
      if parent.Some? {
        DerivedKeeps(p, parent.value, path[n], flags);
      }
    }
  }

  lemma DerivedPathStep<Point>(p: Primitives<Point>, k: Key, path: seq<Uint32>, i: Uint32, flags: bv32)
    ensures DerivedPath(p, k, path + [i], flags) == Step(p, DerivedPath(p, k, path, flags), i, flags)
  {
    assert (path + [i])[..|path|] == path;
  }

  /** A path can be followed in two parts. */
  lemma {:induction false} DerivedPathAppend<Point>(p: Primitives<Point>, k: Key, a: seq<Uint32>, b: seq<Uint32>,
                                                    flags: bv32)
    ensures var m := DerivedPath(p, k, a, flags);
      DerivedPath(p, k, a + b, flags) == if m.None? then None else DerivedPath(p, m.value, b, flags)
  {
    var m := DerivedPath(p, k, a, flags);
    if b == [] {
      assert a + b == a;
    } else {
      var n := |b| - 1;
      var c, i := b[..n], b[n];
      DerivedPathAppend(p, k, a, c, flags);
      DerivedPathStep(p, k, a + c, i, flags);
      assert a + b == (a + c) + [i] && b == c + [i];
      if m.Some? {
        DerivedPathStep(p, m.value, c, i, flags);
      }
    }
  }

  // ---- children and master keys as the standard gives them ----

  /** What follows the key in the input of the HMAC is the child's number in four bytes. */
  lemma NumberInFour(s: seq<Byte>, i: Uint32)
    requires |s| == 4 && Value(s) == i
    ensures BigEndian(i, 4) == s
  {
    BigEndianWrites(s);
  }

  /**
   The child of a private key. The HMAC h is that of the private key for a hardened child and of the public key for
   any other, with the child's number in four bytes behind. To the key's number the left half is added, modulo the
   order; the right half is the chain code. There is no child for unknown flags, a parent at depth 255, a half that
   is not below the order, or a sum of zero.
   */
  lemma PrivateChildIs<Point>(p: Primitives<Point>, k: Key, i: Uint32, flags: bv32, s: seq<Byte>, h: Bytes64)
    requires |s| == 4 && Value(s) == i && h == p.hmac(k.chainCode, (if i >= 0x8000_0000 then k.privKey else k.pubKey) + s)
    requires k.privKey[0] == 0 && 1 < p.order <= Pow(0x100, 32)
    ensures var c := Derived(p, k, i, flags);
      var x := (Value(h[..32]) + Value(k.privKey[1..])) % p.order;
      && (c.Some? <==> flags & !3 == 0 && k.depth != 255 && Value(h[..32]) < p.order && x != 0)
      && (c.Some? ==>
            && c.value.chainCode == h[32..] && c.value.pubKey == p.serialize(p.point(x))
            && if flags & 1 == 0 then c.value.privKey[0] == 0 && Value(c.value.privKey[1..]) == x
               else c.value.privKey == [1] + Zeros(32))
  {
    NumberInFour(s, i);
    assert h == p.hmac(k.chainCode, Data(k, i));
    var x: nat := (Value(h[..32]) + Value(k.privKey[1..])) % p.order;
    BigEndianReads(x, 32);
    assert ([0] + BigEndian(x, 32))[1..] == BigEndian(x, 32);
    assert flags & !3 == 0 <==> flags & !ALL_FLAGS == 0;
  }

  /**
   The child of a public key, which has no private key: to its point that of the left half is added. There is none,
   besides, unless it is asked for without a private key and is not hardened.
   */
  lemma PublicChildIs<Point>(p: Primitives<Point>, k: Key, i: Uint32, flags: bv32, s: seq<Byte>, h: Bytes64)
    requires |s| == 4 && Value(s) == i && h == p.hmac(k.chainCode, (if i >= 0x8000_0000 then k.privKey else k.pubKey) + s)
    requires k.privKey[0] != 0
    ensures var c, q := Derived(p, k, i, flags), p.parse(k.pubKey);
      && (c.Some? <==> flags & !3 == 0 && flags & 1 != 0 && i < 0x8000_0000 && k.depth != 255
                       && q.Some? && Value(h[..32]) < p.order
                       && p.add(q.value, p.point(Value(h[..32]))) != p.infinity)
      && (c.Some? ==>
            && c.value.chainCode == h[32..] && c.value.privKey == [1] + Zeros(32)
            && c.value.pubKey == p.serialize(p.add(q.value, p.point(Value(h[..32])))))
  {
    NumberInFour(s, i);
    assert h == p.hmac(k.chainCode, Data(k, i));
  }

  /** The other fields of a child. */
  lemma ChildRecordIs<Point>(p: Primitives<Point>, k: Key, i: Uint32, flags: bv32)
    requires Derived(p, k, i, flags).Some?
    ensures var c := Derived(p, k, i, flags).value;
      && c.depth == k.depth + 1 && c.childNum == i
      && c.version == (if k.version in {0x0488B21E, 0x0488ADE4} then if flags & 1 == 0 then 0x0488ADE4 else 0x0488B21E
                       else if flags & 1 == 0 then 0x04358394 else 0x043587CF)
      && c.parent160 == (if flags & 2 == 0 then k.hash160 else Zeros(20))
      && c.hash160 == (if flags & 2 == 0 then p.hash160(c.pubKey) else Zeros(20))
  {
  }

  /** Different children of a key have different inputs of the HMAC. */
  lemma DataInjective(k: Key, i: Uint32, j: Uint32)
    requires Data(k, i) == Data(k, j)
    ensures i == j
  {
    assert Data(k, i)[33..] == BigEndian(i, 4) && Data(k, j)[33..] == BigEndian(j, 4);
    var n: nat := 4;
    assert Pow(0x100, n) == 0x1_0000_0000;
    BigEndianReads(i, n);
    BigEndianReads(j, n);
  }

  /** The master key: the HMAC of the seed under "Bitcoin seed", private key in the left half, chain code in the right. */
  lemma MasterIs<Point>(p: Primitives<Point>, seed: seq<Byte>, version: Uint32, flags: bv32, key: seq<Byte>)
    requires |key| == 12 && forall i :: 0 <= i < 12 ==> key[i] == "Bitcoin seed"[i] as int
    ensures var k, h := Master(p, seed, version, flags), p.hmac(key, seed);
      var pub := p.serialize(p.point(Value(h[..32])));
      && (k.Some? <==> |seed| in {16, 32, 64} && version in {0x0488ADE4, 0x04358394} && flags & !2 == 0
                       && 0 < Value(h[..32]) < p.order)
      && (k.Some? ==> k.value == Key(version, 0, 0, h[32..], [0] + h[..32], pub, Zeros(20),
                                     if flags & 2 == 0 then p.hash160(pub) else Zeros(20)))
  {
    assert key == SEED;
  }

  // ---- neutering ----

  /** The version that a key's public half is written with. */
  function PublicVersion(version: Uint32): Uint32 {
    if version == MAIN_PRIVATE then MAIN_PUBLIC else if version == TEST_PRIVATE then TEST_PUBLIC else version
  }

  /** key_strip_private_key: the version stays that of a private key. */
  function Strip(k: Key): Key {
    k.(privKey := Stripped())
  }

  /** The public half of a key, as BIP-32 has it: stripped, and with a public version. */
  function Neutered(k: Key): Key {
    Strip(k).(version := PublicVersion(k.version))
  }

  function NeuteredIfAny(k: Option<Key>): Option<Key> {
    if k.None? then None else Some(Neutered(k.value))
  }

  /** Along a step that is not hardened, a private key's own, its neutered and its public children are one. */
  lemma NeuterStep<Point(!new)>(p: Primitives<Point>, k: Key, i: Uint32, flags: bv32)
    requires Lawful(p) && Consistent(p, k) && Private(k) && i < HARDENED && flags & KEY_PUBLIC == 0
    ensures NeuteredIfAny(Derived(p, k, i, flags)) == Derived(p, Neutered(k), i, flags | KEY_PUBLIC)
         == Derived(p, k, i, flags | KEY_PUBLIC)
  {
    assert (flags | KEY_PUBLIC) & !ALL_FLAGS == flags & !ALL_FLAGS;
    assert (flags | KEY_PUBLIC) & SKIP_HASH == flags & SKIP_HASH;
    assert (flags | KEY_PUBLIC) & KEY_PUBLIC != 0;
    NeuterChild(p, k, i, flags, flags | KEY_PUBLIC);
  }

  /** The same, with the flags of the public derivation as an unknown. */
  lemma NeuterChild<Point(!new)>(p: Primitives<Point>, k: Key, i: Uint32, flags: bv32, public: bv32)
    requires Lawful(p) && Consistent(p, k) && Private(k) && i < HARDENED
    requires flags & KEY_PUBLIC == 0 && public & KEY_PUBLIC != 0
    requires public & !ALL_FLAGS == flags & !ALL_FLAGS && public & SKIP_HASH == flags & SKIP_HASH
    ensures NeuteredIfAny(Derived(p, k, i, flags)) == Derived(p, Neutered(k), i, public) == Derived(p, k, i, public)
  {
    PublicChild(p, k, i, flags, public);
    NeuteredKeys(p, k, i, public);
  }

  /** The public child of a private key is its private child, neutered. */
  lemma PublicChild<Point>(p: Primitives<Point>, k: Key, i: Uint32, flags: bv32, public: bv32)
    requires Private(k) && flags & KEY_PUBLIC == 0 && public & KEY_PUBLIC != 0
    requires public & !ALL_FLAGS == flags & !ALL_FLAGS && public & SKIP_HASH == flags & SKIP_HASH
    ensures NeuteredIfAny(Derived(p, k, i, flags)) == Derived(p, k, i, public)
  {
    assert PublicVersion(ChildVersion(k.version, false)) == ChildVersion(k.version, true);
  }

  /** A private key and its neutered self have the same public children. */
  lemma NeuteredKeys<Point(!new)>(p: Primitives<Point>, k: Key, i: Uint32, public: bv32)
    requires Lawful(p) && Consistent(p, k) && Private(k) && i < HARDENED && public & KEY_PUBLIC != 0
    ensures Derived(p, Neutered(k), i, public) == Derived(p, k, i, public)
  {
    var h := p.hmac(k.chainCode, Data(k, i));
    assert Data(Neutered(k), i) == Data(k, i);
    assert Mainnet(PublicVersion(k.version)) == Mainnet(k.version);
    TweakCommutes(p, k.privKey[1..], h[..32]);
  }

  predicate NoneHardened(path: seq<Uint32>) {
    forall j :: 0 <= j < |path| ==> path[j] < HARDENED
  }

  lemma {:induction false} NeuterPath<Point(!new)>(p: Primitives<Point>, k: Key, path: seq<Uint32>, flags: bv32)
    requires Lawful(p) && Consistent(p, k) && Private(k) && NoneHardened(path) && flags & KEY_PUBLIC == 0
    ensures NeuteredIfAny(DerivedPath(p, k, path, flags)) == DerivedPath(p, Neutered(k), path, flags | KEY_PUBLIC)
  {
    if path != [] {
      var n := |path| - 1;
      NeuterPath(p, k, path[..n], flags);
      DerivedPathKeeps(p, k, path[..n], flags);
      var parent := DerivedPath(p, k, path[..n], flags);
      if parent.Some? {
        NeuterStep(p, parent.value, path[n], flags);
      }
    }
  }

  /** A public key has no children along a path with a hardened step. */
  lemma {:induction false} HardenedFails<Point>(p: Primitives<Point>, k: Key, path: seq<Uint32>, flags: bv32)
    requires !NoneHardened(path) && !Private(k) && flags & KEY_PUBLIC != 0
    ensures DerivedPath(p, k, path, flags).None?
  {
    var n := |path| - 1;
    var parent := DerivedPath(p, k, path[..n], flags);
    if NoneHardened(path[..n]) {
      assert path[n] >= HARDENED;
      PublicStays(p, k, path[..n], flags);
    } else {
      HardenedFails(p, k, path[..n], flags);
    }
  }

  lemma PublicStays<Point>(p: Primitives<Point>, k: Key, path: seq<Uint32>, flags: bv32)
    requires !Private(k) && flags & KEY_PUBLIC != 0
    ensures var c := DerivedPath(p, k, path, flags);
      c.Some? ==> !Private(c.value)
  {
  }

  /**
   Deriving privately and then neutering is neutering and then deriving publicly, exactly along the paths
   without a hardened step; and when the private derivation fails, so does the public one.
   */
  lemma NeuterCommutes<Point(!new)>(p: Primitives<Point>, k: Key, path: seq<Uint32>, flags: bv32)
    requires Lawful(p) && Consistent(p, k) && Private(k) && flags & KEY_PUBLIC == 0
    ensures var c, d := DerivedPath(p, k, path, flags), DerivedPath(p, Neutered(k), path, flags | KEY_PUBLIC);
      && (c.None? ==> d.None?)
      && (c.Some? ==> (d == Some(Neutered(c.value)) <==> NoneHardened(path)))
  {
    if NoneHardened(path) {
      NeuterPath(p, k, path, flags);
    } else {
      assert (flags | KEY_PUBLIC) & KEY_PUBLIC != 0;
      HardenedFails(p, Neutered(k), path, flags | KEY_PUBLIC);
    }
  }

  /** A child's version depends on its parent's network only. */
  lemma {:induction false} StripOrNeuter<Point>(p: Primitives<Point>, k: Key, path: seq<Uint32>, flags: bv32)
    requires path != []
    ensures DerivedPath(p, Strip(k), path, flags) == DerivedPath(p, Neutered(k), path, flags)
  {
    var n := |path| - 1;
    if n > 0 {
      StripOrNeuter(p, k, path[..n], flags);
    } else {
      var a, b := Strip(k), Neutered(k);
      assert Mainnet(a.version) == Mainnet(b.version) && Data(a, path[0]) == Data(b, path[0]);
      SameChild(p, a, b, path[0], flags);
    }
  }

  lemma SameChild<Point>(p: Primitives<Point>, a: Key, b: Key, i: Uint32, flags: bv32)
    requires a == b.(version := a.version) && Mainnet(a.version) == Mainnet(b.version)
    ensures Derived(p, a, i, flags) == Derived(p, b, i, flags)
  {
    assert Data(a, i) == Data(b, i);
  }

  lemma {:induction false} PathVersion<Point>(p: Primitives<Point>, k: Key, path: seq<Uint32>, flags: bv32)
    requires path != [] && DerivedPath(p, k, path, flags).Some?
    ensures DerivedPath(p, k, path, flags).value.version in
            (if flags & KEY_PUBLIC != 0 then {MAIN_PUBLIC, TEST_PUBLIC} else {MAIN_PRIVATE, TEST_PRIVATE})
  {
    var parent := DerivedPath(p, k, path[..|path| - 1], flags);
    assert DerivedPath(p, k, path, flags).value.version == ChildVersion(parent.value.version, flags & KEY_PUBLIC != 0);
  }

  /**
   With the code's own stripping, which keeps the version: the two ways fail together, but for hardened steps, and
   where both succeed they agree in all but the version. They agree in that too only where there is nothing to derive.
   */
  lemma StripCommutes<Point(!new)>(p: Primitives<Point>, k: Key, path: seq<Uint32>, flags: bv32)
    requires Lawful(p) && Consistent(p, k) && Private(k) && flags & KEY_PUBLIC == 0
    ensures var c, d := DerivedPath(p, k, path, flags), DerivedPath(p, Strip(k), path, flags | KEY_PUBLIC);
      && (c.None? ==> d.None?)
      && (c.Some? ==> (d.Some? <==> NoneHardened(path)))
      && (c.Some? && d.Some? ==> d.value == Strip(c.value).(version := d.value.version))
      && (c.Some? ==> (d == Some(Strip(c.value)) <==> path == []))
  {
    if path != [] {
      StripOrNeuter(p, k, path, flags | KEY_PUBLIC);
      assert (flags | KEY_PUBLIC) & KEY_PUBLIC != 0;
      if NoneHardened(path) {
        NeuterPath(p, k, path, flags);
      } else {
        HardenedFails(p, Strip(k), path, flags | KEY_PUBLIC);
      }
      if DerivedPath(p, k, path, flags).Some? {
        PathVersion(p, k, path, flags);
        if DerivedPath(p, Strip(k), path, flags | KEY_PUBLIC).Some? {
          PathVersion(p, Strip(k), path, flags | KEY_PUBLIC);
        }
      }
    }
  }

  // ---- one lawful choice of the primitives ----

  const ORDER: int := 0x1_0000000000000000_0000000000000000_0000000000000000_0000000000000000

  type Residue = x: int | 0 <= x < ORDER

  lemma OrderIs()
    ensures Pow(0x100, 32) == ORDER
  {
    Pow2Constants();
    assert Pow2(128) == Pow2(64) * Pow2(64) by { Pow2Add(64, 64); }
    assert Pow2(256) == Pow2(128) * Pow2(128) by { Pow2Add(128, 128); }
    PowOfPow2(8, 32);
  }

  function ReadResidue(s: seq<Byte>): Option<Residue> {
    if |s| != 33 then None else
      ResidueFits(s[1..]);
      Some(Value(s[1..]))
  }

  lemma ResidueFits(s: seq<Byte>)
    requires |s| == 32
    ensures 0 <= Value(s) < ORDER
  {
    OrderIs();
    DigitsBound(s, 32, 0x100);
  }

  function WriteResidue(x: Residue): Bytes33 {
    [2] + BigEndian(x, 32)
  }

  lemma ReadWritten(q: Residue, n: nat)
    requires n == 32
    ensures Value(BigEndian(q, n)) == q && ReadResidue([2] + BigEndian(q, n)) == Some(q)
  {
    OrderIs();
    BigEndianReads(q, n);
    assert ([2] + BigEndian(q, n))[1..] == BigEndian(q, n);
  }

  function AddResidues(x: Residue, y: Residue): Residue {
    (x + y) % ORDER
  }

  function PointResidue(a: nat): Residue {
    a % ORDER
  }

  /** Numbers modulo 2^256 in the place of points, and hashes that are all zero. */
  function Residues(): Primitives<Residue> {
    Primitives((key: seq<Byte>, data: seq<Byte>) => Zeros(64), (data: seq<Byte>) => Zeros(20), ORDER,
               PointResidue, 0, AddResidues, WriteResidue, ReadResidue)
  }

  lemma ResiduesLawful()
    ensures Lawful(Residues())
  {
    OrderIs();
    forall q: Residue ensures ReadResidue(WriteResidue(q)) == Some(q) {
      ReadWritten(q, 32);
    }
    forall a: nat, b: nat | a < ORDER && b < ORDER
      ensures AddResidues(PointResidue(a), PointResidue(b)) == PointResidue((a + b) % ORDER)
    {
      assert PointResidue(a) == a && PointResidue(b) == b;
    }
  }

  /** The private key 1. */
  function KeyOne(): Key {
    Key(MAIN_PRIVATE, 0, 0, Zeros(32), [0] + BigEndian(1, 32), [2] + BigEndian(1, 32), Zeros(20), Zeros(20))
  }

  /** One step with a lawful choice: both ways succeed, and the versions differ. */
  lemma StripDiffers()
    ensures Lawful(Residues()) && Consistent(Residues(), KeyOne()) && Private(KeyOne())
    ensures var c, d := DerivedPath(Residues(), KeyOne(), [0], 0),
                        DerivedPath(Residues(), Strip(KeyOne()), [0], KEY_PUBLIC);
      c.Some? && d.Some? && Strip(c.value).version == MAIN_PRIVATE && d.value.version == MAIN_PUBLIC
  {
    var p, k := Residues(), KeyOne();
    ResiduesLawful();
    KeyOneChild();
    OneStep(p, k, 0, 0);
    StripCommutes(p, k, [0], 0);
    OneStep(p, Strip(k), 0, KEY_PUBLIC);
  }

  lemma KeyOneChild()
    ensures Consistent(Residues(), KeyOne()) && Private(KeyOne())
    ensures var c := Derived(Residues(), KeyOne(), 0, 0); c.Some? && c.value.version == MAIN_PRIVATE
  {
    OrderIs();
    BigEndianReads(1, 32);
    assert KeyOne().privKey[1..] == BigEndian(1, 32);
    ZeroTweak(Residues(), KeyOne().privKey[1..]);
  }

  lemma OneStep<Point>(p: Primitives<Point>, k: Key, i: Uint32, flags: bv32)
    ensures DerivedPath(p, k, [i], flags) == Derived(p, k, i, flags)
  {
    assert [i][..0] == [];
  }

  /** A tweak of zero changes nothing. */
  lemma ZeroTweak(p: Primitives<Residue>, k: Bytes32)
    requires p == Residues() && 0 < Value(k)
    ensures TweakPrivate(p, k, Zeros(64)[..32]) == Some(k)
  {
    ResidueFits(k);
    ZerosValue(Zeros(64)[..32], |Zeros(64)[..32]|);
    BigEndianWrites(k);
    assert (Value(k) + 0) % ORDER == Value(k);
  }

  lemma {:induction false} ZerosValue(s: seq<Byte>, n: nat)
    requires n <= |s| && forall i :: 0 <= i < |s| ==> s[i] == 0
    ensures Digits(s, n, 0x100) == 0
  {
    if n > 0 {
      ZerosValue(s, n - 1);
    }
  }

  // ---- a path with most hashes skipped ----

  function StepFlags(j: nat, total: nat, flags: bv32): bv32 {
    if j + 2 >= total then flags else flags | SKIP_HASH
  }

  /** What the code derives of a path of `total` steps that begins with `path`. */
  function Shortcut<Point(==)>(p: Primitives<Point>, k: Key, path: seq<Uint32>, total: nat, flags: bv32): Option<Key> {
    if path == [] then Some(k) else
      var n := |path| - 1;
      Step(p, Shortcut(p, k, path[..n], total, flags), path[n], StepFlags(n, total, flags))
  }

  predicate SameButHashes(a: Key, b: Key) {
    a == b.(parent160 := a.parent160, hash160 := a.hash160)
  }

  /** A key's hashes reach only its child's record of its parent. */
  lemma HashesDoNotMatter<Point>(p: Primitives<Point>, a: Key, b: Key, i: Uint32, flags: bv32, skip: bool)
    requires SameButHashes(a, b)
    ensures var c := Derived(p, a, i, if skip then flags | SKIP_HASH else flags);
      var d := Derived(p, b, i, flags);
      && (c.None? <==> d.None?)
      && (c.Some? ==> SameButHashes(c.value, d.value))
      && (c.Some? && !skip ==> c.value.hash160 == d.value.hash160)
      && (c.Some? && !skip && a.hash160 == b.hash160 ==> c == d)
  {
    assert (flags | SKIP_HASH) & !ALL_FLAGS == flags & !ALL_FLAGS;
    assert (flags | SKIP_HASH) & KEY_PUBLIC == flags & KEY_PUBLIC;
    assert Data(a, i) == Data(b, i) && ChildKeys(p, a, p.hmac(a.chainCode, Data(a, i))[..32])
                                    == ChildKeys(p, b, p.hmac(b.chainCode, Data(b, i))[..32]);
  }

  lemma {:induction false} ShortcutSame<Point>(p: Primitives<Point>, k: Key, path: seq<Uint32>, total: nat, flags: bv32)
    requires |path| <= total
    ensures var c := Shortcut(p, k, path, total, flags);
      var d := DerivedPath(p, k, path, flags);
      && (c.None? <==> d.None?)
      && (c.Some? ==> SameButHashes(c.value, d.value))
      && (c.Some? && (path == [] || |path| + 1 >= total) ==> c.value.hash160 == d.value.hash160)
      && (|path| == total ==> c == d)
  {
    if path != [] {
      var n := |path| - 1;
      ShortcutSame(p, k, path[..n], total, flags);
      var a, b := Shortcut(p, k, path[..n], total, flags), DerivedPath(p, k, path[..n], flags);
      if a.Some? {
        var skip := n + 2 < total;
        HashesDoNotMatter(p, a.value, b.value, path[n], flags, skip);
        assert StepFlags(n, total, flags) == if skip then flags | SKIP_HASH else flags;
      }
    }
  }

  /** Skipping the hashes of all but the last two steps does not show in the result. */
  lemma ShortcutIsDerived<Point>(p: Primitives<Point>, k: Key, path: seq<Uint32>, flags: bv32)
    ensures Shortcut(p, k, path, |path|, flags) == DerivedPath(p, k, path, flags)
  {
    ShortcutSame(p, k, path, |path|, flags);
  }

  // ---- the serialized form ----

  const SERIALIZED_LENGTH: nat := 78

  /** key_is_valid. */
  predicate Valid(k: Key) {
    && (k.version in {MAIN_PRIVATE, TEST_PRIVATE} || (!Private(k) && k.version in {MAIN_PUBLIC, TEST_PUBLIC}))
    && k.chainCode != Zeros(32) && k.pubKey[0] in {2, 3} && k.pubKey[1..] != Zeros(32)
    && k.privKey[0] in {0, 1} && (Private(k) ==> k.privKey[1..] != Zeros(32))
    && (k.depth == 0 ==> Private(k) && k.parent160 == Zeros(20))
  }

  /** The layout of section "Serialization format" of BIP-32: version, depth, fingerprint, number, chain code, key. */
  function Layout(version: Uint32, depth: Byte, fingerprint: seq<Byte>, childNum: Uint32, chainCode: Bytes32, key: Bytes33)
    : (b: seq<Byte>)
    requires |fingerprint| == 4
    ensures |b| == SERIALIZED_LENGTH
  {
    BigEndian(version, 4) + [depth] + fingerprint + BigEndian(childNum, 4) + chainCode + key
  }

  function Serialized(k: Key, flags: bv32): (b: Option<seq<Byte>>)
    ensures b.Some? ==> |b.value| == SERIALIZED_LENGTH
  {
    var public := flags & KEY_PUBLIC != 0;
    if flags & !KEY_PUBLIC != 0 || (!public && !Private(k)) || !Valid(k) then None else
      Some(Layout(if public then PublicVersion(k.version) else k.version, k.depth, k.parent160[..4], k.childNum, k.chainCode,
                  if public then k.pubKey else k.privKey))
  }

  function Fingerprint(parent160: Hash160): Hash160 {
    parent160[..4] + Zeros(16)
  }

  function Unserialized<Point>(p: Primitives<Point>, b: seq<Byte>): Option<Key> {
    if |b| != SERIALIZED_LENGTH then None else
      var version := Value(b[..4]);
      var parent160: Hash160 := b[5..9] + Zeros(16);
      var key: Bytes33 := b[45..];
      if version !in {MAIN_PRIVATE, TEST_PRIVATE, MAIN_PUBLIC, TEST_PUBLIC} then None
      else if key[0] == 0 then
        var pub := PublicKey(p, key[1..]);
        if version in {MAIN_PUBLIC, TEST_PUBLIC} || pub.None? then None else
          ReadBound(b[9..13]);
          Some(Key(version, b[4], Value(b[9..13]), b[13..45], key, pub.value, parent160, p.hash160(pub.value)))
      else if version in {MAIN_PRIVATE, TEST_PRIVATE} then None
      else
        ReadBound(b[9..13]);
        Some(Key(version, b[4], Value(b[9..13]), b[13..45], Stripped(), key, parent160, p.hash160(key)))
  }

  lemma ReadBound(s: seq<Byte>)
    requires |s| == 4
    ensures 0 <= Value(s) < 0x1_0000_0000
  {
    DigitsBound(s, 4, 0x100);
    assert Pow(0x100, 4) == 0x1_0000_0000;
  }

  lemma LayoutParts(version: Uint32, depth: Byte, fingerprint: seq<Byte>, childNum: Uint32, chainCode: Bytes32, key: Bytes33)
    requires |fingerprint| == 4
    ensures var b := Layout(version, depth, fingerprint, childNum, chainCode, key);
      && Value(b[..4]) == version && b[4] == depth && b[5..9] == fingerprint && Value(b[9..13]) == childNum
      && b[13..45] == chainCode && b[45..] == key
  {
    var n: nat := 4;
    assert Pow(0x100, n) == 0x1_0000_0000;
    BigEndianReads(version, n);
    BigEndianReads(childNum, n);
    var b := Layout(version, depth, fingerprint, childNum, chainCode, key);
    assert b[..4] == BigEndian(version, 4) && b[9..13] == BigEndian(childNum, 4);
  }

  /** When a key is written: valid versions, a chain code, a public key of the right form, and no child of nothing. */
  lemma SerializedExactly(k: Key, flags: bv32)
    ensures Serialized(k, flags).Some? <==>
      && flags & !1 == 0 && (flags & 1 != 0 || k.privKey[0] == 0)
      && (k.version in {0x0488ADE4, 0x04358394} || (k.privKey[0] != 0 && k.version in {0x0488B21E, 0x043587CF}))
      && k.chainCode != Zeros(32) && k.pubKey[0] in {2, 3} && k.pubKey[1..] != Zeros(32)
      && (k.privKey[0] == 1 || (k.privKey[0] == 0 && k.privKey[1..] != Zeros(32)))
      && (k.depth == 0 ==> k.privKey[0] == 0 && k.parent160 == Zeros(20))
  {
  }

  /** What is written is read back: all but most of the parent's hash, and without the private key if it was left out. */
  lemma UnserializeSerialized<Point>(p: Primitives<Point>, k: Key, flags: bv32)
    requires Consistent(p, k) && Serialized(k, flags).Some?
    ensures Unserialized(p, Serialized(k, flags).value)
         == Some((if flags & KEY_PUBLIC != 0 then Neutered(k) else k)
                 .(parent160 := Fingerprint(k.parent160), hash160 := p.hash160(k.pubKey)))
  {
    var public := flags & KEY_PUBLIC != 0;
    LayoutParts(if public then PublicVersion(k.version) else k.version, k.depth, k.parent160[..4], k.childNum, k.chainCode,
                if public then k.pubKey else k.privKey);
  }

  /** What is read is written again byte for byte, exactly when it passes for a valid key. */
  lemma SerializeUnserialized<Point>(p: Primitives<Point>, b: seq<Byte>)
    requires Unserialized(p, b).Some?
    ensures var k := Unserialized(p, b).value;
      Serialized(k, if Private(k) then 0 else KEY_PUBLIC) == Some(b) <==> Valid(k)
  {
    BigEndianWrites(b[..4]);
    BigEndianWrites(b[9..13]);
    assert b == b[..4] + [b[4]] + b[5..9] + b[9..13] + b[13..45] + b[45..];
  }
}
