/** bip32.c: an extended key is a record that the operations below fill in, step by step. */
module ExtKey {
  import opened Numerals
  import opened Wrappers
  import opened Bip32

  datatype Status = Ok | Invalid | Error

  class ExtKey {
    var version: Uint32
    var depth: Byte
    var childNum: Uint32
    var chainCode: Bytes32
    var privKey: Bytes33
    var pubKey: Bytes33
    var parent160: Hash160
    var hash160: Hash160

    function Value(): Key
      reads this
    {
      Key(version, depth, childNum, chainCode, privKey, pubKey, parent160, hash160)
    }

    constructor ()
    {
    }

    /** memcpy of the whole record. */
    method Copy(from: ExtKey)
      modifies this
      ensures Value() == old(from.Value())
    {
      version, depth, childNum, chainCode := from.version, from.depth, from.childNum, from.chainCode;
      privKey, pubKey, parent160, hash160 := from.privKey, from.pubKey, from.parent160, from.hash160;
    }

    method Clear()
      modifies this
      ensures Value() == Cleared()
    {
      version, depth, childNum, chainCode := 0, 0, 0, Zeros(32);
      privKey, pubKey, parent160, hash160 := Zeros(33), Zeros(33), Zeros(20), Zeros(20);
    }

    method WipeKeyFail() returns (status: Status)
      modifies this
      ensures status == Invalid && Value() == Cleared()
    {
      Clear();
      status := Invalid;
    }

    method StripPrivateKey()
      modifies this`privKey
      ensures privKey == Stripped()
    {
      privKey := [1] + Zeros(32);
    }

    /** privkey_tweak_add, and the public key of the result. */
    method TweakPrivateKey<Point>(p: Primitives<Point>, parent: Bytes33, t: Bytes32) returns (ok: bool)
      requires parent[0] == 0
      modifies this`privKey, this`pubKey
      ensures var s := TweakPrivate(p, parent[1..], t);
        var q := if s.None? then None else PublicKey(p, s.value);
        (ok <==> q.Some?) && (ok ==> privKey == [0] + s.value && pubKey == q.value)
    {
      privKey := parent;
      var s := TweakPrivate(p, privKey[1..], t);
      if s.None? {
        return false;
      }
      privKey := [privKey[0]] + s.value;
      assert privKey[1..] == s.value;
      var q := PublicKey(p, privKey[1..]);
      if q.None? {
        return false;
      }
      pubKey := q.value;
      ok := true;
    }

    /** The private key's place serves for the HMAC's input until the key is filled in. */
    method DeriveKeys<Point(==)>(p: Primitives<Point>, parent: ExtKey, childNum: Uint32) returns (ok: bool)
      requires parent != this
      modifies this`childNum, this`chainCode, this`privKey, this`pubKey
      ensures var k := parent.Value();
        var h := p.hmac(k.chainCode, Data(k, childNum));
        var keys := ChildKeys(p, k, h[..32]);
        && (ok <==> keys.Some?)
        && (ok ==> chainCode == h[32..] && pubKey == keys.value.1 && (Private(k) ==> privKey == keys.value.0))
    {
      ghost var k := parent.Value();
      privKey := if childNum >= HARDENED then parent.privKey else parent.pubKey;
      this.childNum := childNum;
      var h := p.hmac(parent.chainCode, privKey + BigEndian(childNum, 4));
      assert h == p.hmac(k.chainCode, Data(k, childNum));
      chainCode := h[32..];
      if parent.privKey[0] == 0 {
        ok := TweakPrivateKey(p, parent.privKey, h[..32]);
      } else {
        var q := TweakPublic(p, parent.pubKey, h[..32]);
        if q.None? {
          return false;
        }
        pubKey := q.value;
        ok := true;
      }
    }

    method Finish<Point(==)>(p: Primitives<Point>, parent: ExtKey, childNum: Uint32, flags: bv32)
      requires parent != this && parent.depth < MAX_DEPTH
      modifies this
      ensures var k, public, skip := parent.Value(), flags & KEY_PUBLIC != 0, flags & SKIP_HASH != 0;
        Value() == Key(ChildVersion(k.version, public), k.depth + 1, childNum, old(chainCode),
                       if public then Stripped() else old(privKey), old(pubKey),
                       if skip then Zeros(20) else k.hash160, if skip then Zeros(20) else p.hash160(old(pubKey)))
    {
      if flags & KEY_PUBLIC == 0 {
        version := if parent.version == MAIN_PRIVATE || parent.version == MAIN_PUBLIC then MAIN_PRIVATE else TEST_PRIVATE;
      } else {
        version := if parent.version == MAIN_PRIVATE || parent.version == MAIN_PUBLIC then MAIN_PUBLIC else TEST_PUBLIC;
        StripPrivateKey();
      }
      depth := parent.depth + 1;
      this.childNum := childNum;
      if flags & SKIP_HASH != 0 {
        parent160, hash160 := Zeros(20), Zeros(20);
      } else {
        parent160 := parent.hash160;
        hash160 := p.hash160(pubKey);
      }
    }

    /** bip32_key_from_parent. */
    method FromParent<Point(==)>(p: Primitives<Point>, parent: ExtKey, childNum: Uint32, flags: bv32)
      returns (status: Status)
      requires parent != this
      modifies this
      ensures var d := Derived(p, parent.Value(), childNum, flags);
        && (status == Ok <==> d.Some?)
        && Value() == if status == Ok then d.value else if flags & !ALL_FLAGS != 0 then old(Value()) else Cleared()
    {
      var weArePrivate := parent.privKey[0] == 0;
      var derivePrivate := flags & KEY_PUBLIC == 0;
      if flags & !ALL_FLAGS != 0 {
        return Invalid;
      }
      if !weArePrivate && (derivePrivate || childNum >= HARDENED) {
        status := WipeKeyFail();
        return;
      }
      if parent.depth == MAX_DEPTH {
        status := WipeKeyFail();
        return;
      }
      var ok := MakeChild(p, parent, childNum, flags);
      if !ok {
        status := WipeKeyFail();
        return;
      }
      status := Ok;
    }

    /** The child, where it can be derived at all. */
    method MakeChild<Point(==)>(p: Primitives<Point>, parent: ExtKey, childNum: Uint32, flags: bv32) returns (ok: bool)
      requires parent != this && flags & !ALL_FLAGS == 0 && parent.depth < MAX_DEPTH
      requires parent.privKey[0] == 0 || (flags & KEY_PUBLIC != 0 && childNum < HARDENED)
      modifies this
      ensures ok <==> Derived(p, parent.Value(), childNum, flags).Some?
      ensures ok ==> Value() == Derived(p, parent.Value(), childNum, flags).value
    {
      ok := DeriveKeys(p, parent, childNum);
      if ok {
        Finish(p, parent, childNum, flags);
      }
    }

    /** The same, seen as step n of a path from k. */
    method FromParentOnPath<Point(==)>(p: Primitives<Point>, parent: ExtKey, childNum: Uint32, derivationFlags: bv32,
                                       ghost k: Key, ghost path: seq<Uint32>, ghost n: nat, ghost flags: bv32)
      returns (status: Status)
      requires parent != this && n < |path| && childNum == path[n] && derivationFlags == StepFlags(n, |path|, flags)
      requires Shortcut(p, k, path[..n], |path|, flags) == Some(parent.Value())
      modifies this
      ensures Shortcut(p, k, path[..n + 1], |path|, flags) == if status == Ok then Some(Value()) else None
    {
      ShortcutStep(p, k, path, n, flags);
      status := FromParent(p, parent, childNum, derivationFlags);
    }

    /** bip32_key_from_seed. */
    method FromSeed<Point>(p: Primitives<Point>, seed: seq<Byte>, version: Uint32, flags: bv32) returns (status: Status)
      modifies this
      ensures var k := Master(p, seed, version, flags);
        && (status == Ok <==> k.Some?)
        && Value() == if status == Ok then k.value else if status == Invalid then old(Value())
                      else Cleared().(version := version)
    {
      if |seed| !in {16, 32, 64} || version !in {MAIN_PRIVATE, TEST_PRIVATE} || flags & !SKIP_HASH != 0 {
        return Invalid;
      }
      Clear();
      this.version := version;
      var h := p.hmac(SEED, seed);
      if !(0 < Numerals.Value(h[..32]) < p.order) {
        return Error;
      }
      privKey := [0] + h[..32];
      assert privKey[1..] == h[..32];
      pubKey := PublicKey(p, privKey[1..]).value;
      chainCode := h[32..];
      depth, childNum := 0, 0;
      if flags & SKIP_HASH == 0 {
        hash160 := p.hash160(pubKey);
      }
      status := Ok;
    }

    /** bip32_key_serialize, into a buffer that must have the exact length. */
    method Serialize(flags: bv32, out: array<Byte>) returns (status: Status)
      modifies out
      ensures status == Ok <==> Serialized(Value(), flags).Some? && out.Length == SERIALIZED_LENGTH
      ensures out[..] == if status == Ok then Serialized(Value(), flags).value else old(out[..])
    {
      var public := flags & KEY_PUBLIC != 0;
      if flags & !KEY_PUBLIC != 0 || (!public && privKey[0] != 0) || !Valid(Value()) || out.Length != SERIALIZED_LENGTH {
        return Invalid;
      }
      var version := version;
      if public {
        if version == MAIN_PRIVATE {
          version := MAIN_PUBLIC;
        } else if version == TEST_PRIVATE {
          version := TEST_PUBLIC;
        }
      }
      WriteLayout(out, version, depth, parent160[..4], childNum, chainCode, if public then pubKey else privKey);
      status := Ok;
    }

    /** bip32_key_unserialize. */
    method Unserialize<Point>(p: Primitives<Point>, bytes: seq<Byte>) returns (status: Status)
      modifies this
      ensures var k := Unserialized(p, bytes);
        && (status == Ok <==> k.Some?)
        && Value() == if status == Ok then k.value else if |bytes| != SERIALIZED_LENGTH then old(Value()) else Cleared()
    {
      if |bytes| != SERIALIZED_LENGTH {
        return Invalid;
      }
      Clear();
      ReadBound(bytes[..4]);
      version := Numerals.Value(bytes[..4]);
      if version !in {MAIN_PRIVATE, TEST_PRIVATE, MAIN_PUBLIC, TEST_PUBLIC} {
        status := WipeKeyFail();
        return;
      }
      depth := bytes[4];
      parent160 := bytes[5..9] + parent160[4..];
      ReadBound(bytes[9..13]);
      childNum := Numerals.Value(bytes[9..13]);
      chainCode := bytes[13..45];
      var ok := ReadKey(p, bytes[45..]);
      if !ok {
        status := WipeKeyFail();
        return;
      }
      hash160 := p.hash160(pubKey);
      status := Ok;
    }

    /** The key at the end, of the kind that the version says. */
    method ReadKey<Point>(p: Primitives<Point>, key: Bytes33) returns (ok: bool)
      modifies this`privKey, this`pubKey
      ensures ok <==>
        if key[0] == 0 then version !in {MAIN_PUBLIC, TEST_PUBLIC} && PublicKey(p, key[1..]).Some?
        else version !in {MAIN_PRIVATE, TEST_PRIVATE}
      ensures ok ==> privKey == (if key[0] == 0 then key else Stripped())
      ensures ok ==> pubKey == (if key[0] == 0 then PublicKey(p, key[1..]).value else key)
    {
      if key[0] == 0 {
        if version == MAIN_PUBLIC || version == TEST_PUBLIC {
          return false;
        }
        privKey := key;
        var q := PublicKey(p, privKey[1..]);
        if q.None? {
          return false;
        }
        pubKey := q.value;
      } else {
        if version == MAIN_PRIVATE || version == TEST_PRIVATE {
          return false;
        }
        pubKey := key;
        StripPrivateKey();
      }
      ok := true;
    }

    /**
     bip32_key_from_parent_path. The starting key may be the one to be filled in, which is left as it was on failure.
     */
    method FromParentPath<Point(==)>(p: Primitives<Point>, parent: ExtKey, path: seq<Uint32>, flags: bv32)
      returns (status: Status)
      modifies this
      ensures var d := DerivedPath(p, old(parent.Value()), path, flags);
        && (status == Ok <==> path != [] && d.Some?)
        && Value() == if status == Ok then d.value else old(Value())
    {
      if path == [] {
        return Invalid;
      }
      if flags & !ALL_FLAGS != 0 {
        UndefinedFlags(p, parent.Value(), path, flags);
        return Invalid;
      }
      var key: ExtKey;
      status, key := Walk(p, parent, path, flags);
      ShortcutIsDerived(p, parent.Value(), path, flags);
      if status == Ok {
        Copy(key);
      }
    }
  }

  // ---- the serialized form ----

  method CopyOut(dest: array<Byte>, at: nat, src: seq<Byte>) returns (next: nat)
    requires at + |src| <= dest.Length
    modifies dest
    ensures next == at + |src| && dest[..next] == old(dest[..at]) + src
  {
    for n := 0 to |src|
      invariant dest[..at + n] == old(dest[..at]) + src[..n]
    {
      dest[at + n] := src[n];
    }
    next := at + |src|;
  }

  method WriteLayout(out: array<Byte>, version: Uint32, depth: Byte, fingerprint: seq<Byte>, childNum: Uint32,
                     chainCode: Bytes32, key: Bytes33)
    requires out.Length == SERIALIZED_LENGTH && |fingerprint| == 4
    modifies out
    ensures out[..] == Layout(version, depth, fingerprint, childNum, chainCode, key)
  {
    var at := CopyOut(out, 0, BigEndian(version, 4));
    assert out[..at] == BigEndian(version, 4);
    at := CopyOut(out, at, [depth]);
    at := CopyOut(out, at, fingerprint);
    at := CopyOut(out, at, BigEndian(childNum, 4));
    at := CopyOut(out, at, chainCode);
    at := CopyOut(out, at, key);
    assert out[..at] == out[..];
  }

  /** Two slots in turn, with hashes computed for the last two steps only. */
  method Walk<Point(==)>(p: Primitives<Point>, parent: ExtKey, path: seq<Uint32>, flags: bv32)
    returns (status: Status, key: ExtKey)
    requires path != []
    ensures var c := Shortcut(p, parent.Value(), path, |path|, flags);
      (status == Ok <==> c.Some?) && (status == Ok ==> key.Value() == c.value)
  {
    var derivationFlags := flags | SKIP_HASH;
    var derived := new ExtKey();
    var free := new ExtKey();
    ghost var k, v, slots := parent.Value(), parent.Value(), {derived, free};
    status, key := Ok, parent;
    for i := 0 to |path|
      invariant {derived, free} == slots && derived != free && parent !in slots
      invariant key != derived && status == Ok && parent.Value() == k
      invariant key.Value() == v && Shortcut(p, k, path[..i], |path|, flags) == Some(v)
      invariant derivationFlags == if 0 < i then StepFlags(i - 1, |path|, flags) else flags | SKIP_HASH
      modifies slots
    {
      if i + 2 >= |path| {
        derivationFlags := flags;
      }
      status := derived.FromParentOnPath(p, key, path[i], derivationFlags, k, path, i, flags);
      if status != Ok {
        ShortcutFails(p, k, path, i + 1, flags);
        return;
      }
      key, v := derived, derived.Value();
      derived, free := free, derived;
    }
    assert path[..|path|] == path;
  }

  lemma ShortcutStep<Point>(p: Primitives<Point>, k: Key, path: seq<Uint32>, i: nat, flags: bv32)
    requires i < |path|
    ensures Shortcut(p, k, path[..i + 1], |path|, flags)
         == Step(p, Shortcut(p, k, path[..i], |path|, flags), path[i], StepFlags(i, |path|, flags))
  {
    assert path[..i + 1][..i] == path[..i];
  }

  lemma {:induction false} ShortcutFails<Point>(p: Primitives<Point>, k: Key, path: seq<Uint32>, n: nat, flags: bv32)
    requires n <= |path| && Shortcut(p, k, path[..n], |path|, flags).None?
    ensures Shortcut(p, k, path, |path|, flags).None?
    decreases |path| - n
  {
    if n < |path| {
      assert path[..n + 1][..n] == path[..n];
      ShortcutFails(p, k, path, n + 1, flags);
    } else {
      assert path[..n] == path;
    }
  }

  lemma UndefinedFlags<Point>(p: Primitives<Point>, k: Key, path: seq<Uint32>, flags: bv32)
    requires path != [] && flags & !ALL_FLAGS != 0
    ensures DerivedPath(p, k, path, flags).None?
  {
  }
}
