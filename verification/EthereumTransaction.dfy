/** An Ethereum transaction: its RLP serialisation, with and without a signature, and its checks. */
module EthereumTransaction {
  import opened Numerals
  import opened Rlp
  import opened Wrappers

  const SIGNATURE_BYTES: nat := 65
  const UINT32: int := 0x1_0000_0000

  /** A number whose bytes can be counted in 64 bits. */
  predicate Sized(x: int) {
    0 <= x ==> |Numeral(x, 0x100)| < SIZE_LIMIT
  }

  class DataStream {
    var data: Bytes

    constructor ()
      ensures data == []
    {
      data := [];
    }

    method WriteData(bytes: Bytes)
      modifies this
      ensures data == old(data) + bytes
    {
      data := data + bytes;
    }

    /** The last `size` bytes of a number in big-endian form; no more than it has. */
    method WriteFixed(value: nat, size: nat)
      requires size == |Numeral(value, 0x100)|
      modifies this
      ensures data == old(data) + Numeral(value, 0x100)
    {
      var bytes := Numeral(value, 0x100);
      var offset := |bytes| - size;
      assert bytes[offset..] == bytes;
      WriteData(bytes[offset..]);
    }

    /** A header for `length` bytes that do not fit a short one. */
    method WriteLongHeader(base: nat, length: nat)
      requires 0 < length < SIZE_LIMIT && base <= 0xf7
      modifies this
      ensures data == old(data) + LongHeader(base, length)
    {
      ghost var d := data;
      LengthBytes(length);
      var lengthSize := |Numeral(length, 0x100)|;
      WriteData([base + lengthSize]);
      WriteFixed(length, lengthSize);
      assert data == d + ([base + lengthSize] + Numeral(length, 0x100));
    }

    /** write_int; a negative number cannot be written. */
    method WriteInt(value: int) returns (ok: bool)
      requires Sized(value)
      modifies this
      ensures ok <==> 0 <= value
      ensures ok ==> data == old(data) + WrittenInt(value)
    {
      ghost var d := data;
      ok := true;
      if value == 0 {
        WriteData([0x80]);
      } else if value < 0x80 {
        if value < 0 {
          return false;
        }
        WriteData([value]);
      } else {
        var len := |Numeral(value, 0x100)|;
        if len < 0x80 {
          WriteData([len + 0x80]);
        } else {
          WriteLongHeader(0xb7, len);
        }
        WriteFixed(value, len);
        assert data == d + WrittenInt(value);
      }
    }

    method WriteString(bytes: Bytes)
      requires |bytes| < SIZE_LIMIT
      modifies this
      ensures data == old(data) + EncodeString(bytes)
    {
      ghost var d := data;
      if |bytes| == 1 && bytes[0] < 0x80 {
        WriteData([bytes[0]]);
      } else {
        if |bytes| < 56 {
          WriteData([|bytes| + 0x80]);
        } else {
          WriteLongHeader(0xb7, |bytes|);
        }
        WriteData(bytes);
      }
      assert data == d + EncodeString(bytes);
    }

    method WriteList(payload: Bytes)
      requires |payload| < SIZE_LIMIT
      modifies this
      ensures data == old(data) + EncodeList(payload)
    {
      ghost var d := data;
      if |payload| < 56 {
        WriteData([|payload| + 0xc0]);
      } else {
        WriteLongHeader(0xf7, |payload|);
      }
      WriteData(payload);
      assert data == d + EncodeList(payload);
    }
  }

  // ---- the fields ----

  datatype Fields = Fields(nonce: int, gasPrice: int, gasLimit: int, address: Bytes, amount: int, payload: Bytes)

  /** What is added behind the fields: nothing, the chain (EIP-155), or the signature. */
  datatype Tail = Plain | ChainId(id: nat) | Signature(v: nat, r: Bytes, s: Bytes)

  /** An entry of the list. */
  datatype Entry = Number(x: int) | Text(bytes: Bytes)

  function Entries(f: Fields, tail: Tail): seq<Entry> {
    [Number(f.nonce), Number(f.gasPrice), Number(f.gasLimit), Text(f.address), Number(f.amount), Text(f.payload)]
    + match tail
      case Plain => []
      case ChainId(id) => [Number(id), Number(0), Number(0)]
      case Signature(v, r, s) => [Number(v), Text(r), Text(s)]
  }

  predicate EntrySized(e: Entry) {
    if e.Number? then Sized(e.x) else |e.bytes| < SIZE_LIMIT
  }

  predicate AllSized(es: seq<Entry>) {
    forall i :: 0 <= i < |es| ==> EntrySized(es[i])
  }

  /** Entries that can be written: no number is negative. */
  predicate AllWritable(es: seq<Entry>) {
    forall i :: 0 <= i < |es| ==> es[i].Number? ==> 0 <= es[i].x
  }

  function EntryBytes(e: Entry): Bytes
    requires EntrySized(e) && (e.Number? ==> 0 <= e.x)
  {
    if e.Number? then WrittenInt(e.x) else EncodeString(e.bytes)
  }

  /** The contents of the list that is written. */
  function Payload(es: seq<Entry>): Bytes
    requires AllSized(es) && AllWritable(es)
  {
    if es == [] then [] else Payload(es[..|es| - 1]) + EntryBytes(es[|es| - 1])
  }

  /** The string a decoder is meant to find for an entry. */
  function Item(e: Entry): Bytes
    requires e.Number? ==> 0 <= e.x
  {
    if e.Number? then Shortest(e.x, 0x100) else e.bytes
  }

  function Items(es: seq<Entry>): seq<Bytes>
    requires AllWritable(es)
  {
    seq(|es|, i requires 0 <= i < |es| => Item(es[i]))
  }

  /** Every number has the standard's header. */
  predicate AllWellHeaded(es: seq<Entry>) {
    AllWritable(es) && forall i :: 0 <= i < |es| ==> es[i].Number? ==> WellHeaded(es[i].x)
  }

  predicate ItemsSized(items: seq<Bytes>) {
    forall i :: 0 <= i < |items| ==> |items[i]| < SIZE_LIMIT
  }

  lemma EntryIsStandard(e: Entry)
    requires EntrySized(e) && (e.Number? ==> 0 <= e.x && WellHeaded(e.x))
    ensures EntryBytes(e) == EncodeString(Item(e)) && |Item(e)| < SIZE_LIMIT
  {
    if e.Number? {
      WrittenIsStandard(e.x);
    }
  }

  /** Then the contents are the standard encoding of those strings. */
  lemma {:induction false} PayloadIsStandard(es: seq<Entry>)
    requires AllSized(es) && AllWellHeaded(es)
    ensures ItemsSized(Items(es)) && Payload(es) == Joined(Items(es))
  {
    if es != [] {
      var init, e := es[..|es| - 1], es[|es| - 1];
      PayloadIsStandard(init);
      EntryIsStandard(e);
      ItemsSnoc(es, init, e);
      JoinedSnoc(Items(init), Item(e));
      assert Payload(es) == Payload(init) + EntryBytes(e);
    }
  }

  lemma ItemsSnoc(es: seq<Entry>, init: seq<Entry>, e: Entry)
    requires AllWritable(es) && es != [] && init == es[..|es| - 1] && e == es[|es| - 1]
    ensures AllWritable(init) && (e.Number? ==> 0 <= e.x) && Items(es) == Items(init) + [Item(e)]
  {
    assert es == init + [e];
  }

  // ---- what a decoder finds ----

  lemma ItemsDecode(f: Fields, tail: Tail)
    requires AllSized(Entries(f, tail)) && AllWellHeaded(Entries(f, tail)) && |Payload(Entries(f, tail))| < SIZE_LIMIT
    ensures DecodeList(EncodeList(Payload(Entries(f, tail)))) == Some(Items(Entries(f, tail)))
  {
    PayloadIsStandard(Entries(f, tail));
    ListRoundTrip(Items(Entries(f, tail)));
  }

  predicate NonNegative(f: Fields) {
    0 <= f.nonce && 0 <= f.gasPrice && 0 <= f.gasLimit && 0 <= f.amount
  }

  /** The strings of the list, in the order of the Yellow Paper: numbers are big-endian without leading zeros. */
  function Listed(f: Fields, tail: Tail): seq<Bytes>
    requires NonNegative(f)
  {
    [Shortest(f.nonce, 0x100), Shortest(f.gasPrice, 0x100), Shortest(f.gasLimit, 0x100), f.address,
     Shortest(f.amount, 0x100), f.payload]
    + match tail
      case Plain => []
      case ChainId(id) => [Shortest(id, 0x100), [], []]
      case Signature(v, r, s) => [Shortest(v, 0x100), r, s]
  }

  lemma ItemsAreListed(f: Fields, tail: Tail)
    requires AllWritable(Entries(f, tail))
    ensures NonNegative(f) && Items(Entries(f, tail)) == Listed(f, tail)
  {
    var es := Entries(f, tail);
    assert es[0].x == f.nonce && es[1].x == f.gasPrice && es[2].x == f.gasLimit && es[4].x == f.amount;
  }

  /** A decoder recovers every field of a serialised transaction, in its place. */
  lemma TransactionDecodes(f: Fields, tail: Tail)
    requires AllSized(Entries(f, tail)) && AllWellHeaded(Entries(f, tail)) && |Payload(Entries(f, tail))| < SIZE_LIMIT
    ensures 0 <= f.nonce && 0 <= f.gasPrice && 0 <= f.gasLimit && 0 <= f.amount
    ensures DecodeList(EncodeList(Payload(Entries(f, tail)))) == Some(
      [Shortest(f.nonce, 0x100), Shortest(f.gasPrice, 0x100), Shortest(f.gasLimit, 0x100), f.address,
       Shortest(f.amount, 0x100), f.payload]
      + match tail
        case Plain => []
        case ChainId(id) => [Shortest(id, 0x100), [], []]
        case Signature(v, r, s) => [Shortest(v, 0x100), r, s])
  {
    ItemsDecode(f, tail);
    ItemsAreListed(f, tail);
  }

  lemma DecodesListed(f: Fields, tail: Tail)
    requires AllSized(Entries(f, tail)) && AllWritable(Entries(f, tail)) && |Payload(Entries(f, tail))| < SIZE_LIMIT
    ensures NonNegative(f)
    ensures AllWellHeaded(Entries(f, tail)) ==> DecodeList(EncodeList(Payload(Entries(f, tail)))) == Some(Listed(f, tail))
  {
    ItemsAreListed(f, tail);
    if AllWellHeaded(Entries(f, tail)) {
      ItemsDecode(f, tail);
    }
  }

  lemma ShortestInjective(x: nat, y: nat)
    requires Shortest(x, 0x100) == Shortest(y, 0x100)
    ensures x == y
  {
    ShortestDenotes(x, 0x100);
    ShortestDenotes(y, 0x100);
  }

  /**
   Equal serialisations have equal nonce, gas price, gas limit, address, amount and payload,
   and are of the same chain or carry the same signature.
   */
  lemma SerialisationInjective(f: Fields, g: Fields, a: Tail, b: Tail)
    requires TailSized(a) && TailSized(b)
    requires AllSized(Entries(f, a)) && AllWellHeaded(Entries(f, a)) && |Payload(Entries(f, a))| < SIZE_LIMIT
    requires AllSized(Entries(g, b)) && AllWellHeaded(Entries(g, b)) && |Payload(Entries(g, b))| < SIZE_LIMIT
    requires EncodeList(Payload(Entries(f, a))) == EncodeList(Payload(Entries(g, b)))
    ensures f == g && a == b
  {
    ItemsDecode(f, a);
    ItemsDecode(g, b);
    var es, fs := Entries(f, a), Entries(g, b);
    assert |es| == |Items(es)| == |Items(fs)| == |fs|;
    SameFields(f, g, a, b);
    SameTails(f, g, a, b);
  }

  lemma SameFields(f: Fields, g: Fields, a: Tail, b: Tail)
    requires AllWritable(Entries(f, a)) && AllWritable(Entries(g, b)) && Items(Entries(f, a)) == Items(Entries(g, b))
    requires |Entries(f, a)| == |Entries(g, b)|
    ensures f == g
  {
    var es, fs := Entries(f, a), Entries(g, b);
    SameItems(es, fs, 0);
    SameItems(es, fs, 1);
    SameItems(es, fs, 2);
    SameItems(es, fs, 3);
    SameItems(es, fs, 4);
    SameItems(es, fs, 5);
  }

  lemma SameTails(f: Fields, g: Fields, a: Tail, b: Tail)
    requires AllWritable(Entries(f, a)) && AllWritable(Entries(g, b)) && Items(Entries(f, a)) == Items(Entries(g, b))
    requires |Entries(f, a)| == |Entries(g, b)| && TailSized(a) && TailSized(b)
    ensures a == b
  {
    var es, fs := Entries(f, a), Entries(g, b);
    if !a.Plain? {
      SameItems(es, fs, 6);
      assert Item(es[7]) == Items(es)[7] == Items(fs)[7] == Item(fs[7]);
      assert Item(es[8]) == Items(es)[8] == Items(fs)[8] == Item(fs[8]);
    }
  }

  lemma SameItems(es: seq<Entry>, fs: seq<Entry>, i: nat)
    requires AllWritable(es) && AllWritable(fs) && Items(es) == Items(fs) && i < |es|
    requires |es| == |fs| && es[i].Number? == fs[i].Number?
    ensures es[i] == fs[i]
  {
    assert Items(es)[i] == Items(fs)[i];
    if es[i].Number? {
      ShortestInjective(es[i].x, fs[i].x);
    }
  }

  // ---- the transaction ----

  datatype Status = Ok | NoSource | NoDestination | InsufficientFunds | InvalidSignature | NegativeNumber

  /** All lengths stay within 64 bits, whatever the tail. */
  ghost predicate FitsAnyTail(fields: Fields) {
    forall tail: Tail :: TailSized(tail) ==>
      AllSized(Entries(fields, tail))
      && (AllWritable(Entries(fields, tail)) ==> |Payload(Entries(fields, tail))| < SIZE_LIMIT)
  }

  class EthereumTransaction {
    const signer: Bytes -> Bytes   // the account's private key at work
    const chainId: nat
    var fields: Fields
    var sourceAmount: Option<int>
    var hasDestination: bool
    var totalFee: int
    var signature: Option<Bytes>   // r, s and the recovery id

    constructor (signer: Bytes -> Bytes, chainId: nat, fields: Fields, sourceAmount: Option<int>, hasDestination: bool)
      ensures this.signer == signer && this.chainId == chainId && this.fields == fields
      ensures this.sourceAmount == sourceAmount && this.hasDestination == hasDestination && signature == None
    {
      this.signer, this.chainId, this.fields := signer, chainId, fields;
      this.sourceAmount, this.hasDestination := sourceAmount, hasDestination;
      totalFee, signature := 0, None;
    }

    /** r and s as they are, and the recovery id folded into v as EIP-155 has it. */
    function SignatureTail(sig: Bytes): Tail
      requires |sig| == SIGNATURE_BYTES
    {
      Signature((chainId * 2 + 35 + sig[64]) % UINT32, sig[..32], sig[32..64])
    }

    method WriteEntry(list: DataStream, e: Entry, ghost es: seq<Entry>) returns (ok: bool)
      requires AllSized(es) && AllWritable(es) && EntrySized(e) && list.data == Payload(es)
      modifies list
      ensures ok <==> (e.Number? ==> 0 <= e.x)
      ensures ok ==> list.data == Payload(es + [e])
    {
      match e {
        case Number(x) =>
          ok := list.WriteInt(x);
        case Text(bytes) =>
          list.WriteString(bytes);
          ok := true;
      }
      assert (es + [e])[..|es|] == es;
    }

    /** All entries, in order; stops at the first that cannot be written. */
    method WriteEntries(list: DataStream, entries: seq<Entry>) returns (ok: bool)
      requires AllSized(entries) && list.data == []
      modifies list
      ensures ok <==> AllWritable(entries)
      ensures ok ==> list.data == Payload(entries)
    {
      var i := 0;
      while i < |entries|
        invariant i <= |entries| && AllWritable(entries[..i]) && list.data == Payload(entries[..i])
      {
        NextEntry(entries, i);
        ok := WriteEntry(list, entries[i], entries[..i]);
        if !ok {
          return;
        }
        i := i + 1;
      }
      assert entries[..i] == entries;
      ok := true;
    }

    lemma NextEntry(entries: seq<Entry>, i: nat)
      requires i < |entries| && AllSized(entries) && AllWritable(entries[..i])
      ensures AllSized(entries[..i]) && EntrySized(entries[i]) && entries[..i + 1] == entries[..i] + [entries[i]]
      ensures var fits := entries[i].Number? ==> 0 <= entries[i].x;
        (fits ==> AllWritable(entries[..i + 1])) && (!fits ==> !AllWritable(entries))
    {
    }

    /** The list of all entries. */
    method SerializeTo(stream: DataStream, tail: Tail) returns (ok: bool)
      requires AllSized(Entries(fields, tail))
      requires AllWritable(Entries(fields, tail)) ==> |Payload(Entries(fields, tail))| < SIZE_LIMIT
      modifies stream
      ensures ok <==> AllWritable(Entries(fields, tail))
      ensures ok ==> stream.data == old(stream.data) + EncodeList(Payload(Entries(fields, tail)))
      ensures ok ==> NonNegative(fields) && (AllWellHeaded(Entries(fields, tail)) ==>
        DecodeList(stream.data[|old(stream.data)|..]) == Some(Listed(fields, tail)))
    {
      var list := new DataStream();
      ok := WriteEntries(list, Entries(fields, tail));
      if ok {
        ghost var d := stream.data;
        DecodesListed(fields, tail);
        stream.WriteList(list.data);
        assert stream.data[|d|..] == EncodeList(Payload(Entries(fields, tail)));
      }
    }

    /** What the signature is over: with the chain when there is one. */
    function UnsignedTail(): Tail {
      if chainId > 0 then ChainId(chainId) else Plain
    }

    ghost predicate Valid()
      reads this
    {
      chainId < UINT32 && FitsAnyTail(fields)
    }

    /** Checks source, destination and funds, and fixes the fee. */
    method Update() returns (status: Status)
      modifies this
      ensures fields == old(fields) && sourceAmount == old(sourceAmount) && hasDestination == old(hasDestination)
      ensures signature == old(signature)
      ensures status == if sourceAmount.None? then NoSource else if !hasDestination then NoDestination
                        else if sourceAmount.value - fields.amount < fields.gasLimit * fields.gasPrice then InsufficientFunds
                        else Ok
      ensures sourceAmount.Some? && hasDestination ==> totalFee == fields.gasLimit * fields.gasPrice
    {
      if sourceAmount.None? {
        return NoSource;
      }
      if !hasDestination {
        return NoDestination;
      }
      var diff := sourceAmount.value - fields.amount;
      totalFee := fields.gasLimit * fields.gasPrice;
      diff := diff - totalFee;
      status := if diff < 0 then InsufficientFunds else Ok;
    }

    /** The bytes that are signed. */
    ghost function Unsigned(): Bytes
      reads this
      requires Valid() && AllWritable(Entries(fields, Plain))
    {
      EntriesWritable(fields, UnsignedTail());
      EncodeList(Payload(Entries(fields, UnsignedTail())))
    }

    /** Signs what is serialised without a signature. */
    method Sign() returns (status: Status)
      requires Valid()
      modifies this`signature
      ensures !AllWritable(Entries(fields, Plain)) ==> status == NegativeNumber
      ensures AllWritable(Entries(fields, Plain)) ==>
        && status == (if |signer(Unsigned())| == SIGNATURE_BYTES then Ok else InvalidSignature)
        && (status == Ok ==> signature == Some(signer(Unsigned())))
    {
      EntriesWritable(fields, UnsignedTail());
      var stream := new DataStream();
      var ok := SerializeTo(stream, UnsignedTail());
      if !ok {
        return NegativeNumber;
      }
      var data := signer(stream.data);
      assert stream.data == EncodeList(Payload(Entries(fields, UnsignedTail())));
      if |data| != SIGNATURE_BYTES {
        return InvalidSignature;
      }
      signature := Some(data);
      status := Ok;
    }

    /** Checked, signed, and written with the signature. */
    method Serialize() returns (status: Status, bytes: Bytes)
      requires Valid()
      modifies this
      ensures fields == old(fields)
      ensures status == Ok ==> AllWritable(Entries(fields, Plain)) && Valid() && |signer(Unsigned())| == SIGNATURE_BYTES
      ensures status == Ok ==>
        var tail := SignatureTail(signer(Unsigned()));
        && AllSized(Entries(fields, tail)) && AllWritable(Entries(fields, tail))
        && |Payload(Entries(fields, tail))| < SIZE_LIMIT
        && bytes == EncodeList(Payload(Entries(fields, tail)))
        && NonNegative(fields)
        && (AllWellHeaded(Entries(fields, tail)) ==> DecodeList(bytes) == Some(Listed(fields, tail)))
      ensures status == Ok ==> sourceAmount.Some? && fields.amount + totalFee <= sourceAmount.value
    {
      bytes := [];
      status := Update();
      if status == Ok {
        status := Sign();
      }
      if status == Ok {
        bytes := WriteSigned(SignatureTail(signature.value));
      }
    }

    /** The serialisation with the signature. */
    method WriteSigned(tail: Tail) returns (bytes: Bytes)
      requires Valid() && TailSized(tail) && tail.Signature? && AllWritable(Entries(fields, Plain))
      ensures AllSized(Entries(fields, tail)) && AllWritable(Entries(fields, tail))
      ensures |Payload(Entries(fields, tail))| < SIZE_LIMIT && bytes == EncodeList(Payload(Entries(fields, tail)))
      ensures NonNegative(fields)
      ensures AllWellHeaded(Entries(fields, tail)) ==> DecodeList(bytes) == Some(Listed(fields, tail))
    {
      EntriesWritable(fields, tail);
      DecodesListed(fields, tail);
      var stream := new DataStream();
      var ok := SerializeTo(stream, tail);
      bytes := stream.data;
    }

    /** Amount and fee. */
    function Spent(): int
      reads this
    {
      (if hasDestination then fields.amount else 0) + totalFee
    }

    method TotalSpent() returns (total: int)
      ensures total == Spent()
    {
      var fee := totalFee;
      total := if hasDestination then fields.amount else 0;
      total := total + fee;
    }

    /** The last three strings: the recovery id and the chain as EIP-155 has them, and the halves of the signature. */
    lemma TailsAre(sig: Bytes)
      requires |sig| == 65
      ensures SignatureTail(sig) == Signature((sig[64] + 35 + 2 * chainId) % 0x1_0000_0000, sig[..32], sig[32..64])
      ensures UnsignedTail() == if chainId == 0 then Plain else ChainId(chainId)
    {
    }

    /** What is spent after an update is what the source must cover; it lacks the funds exactly when it does not. */
    method UpdateThenTotalSpent() returns (status: Status, total: int)
      modifies this
      ensures sourceAmount == old(sourceAmount) && hasDestination == old(hasDestination)
      ensures sourceAmount.Some? && hasDestination ==>
        && total == old(fields.amount) + old(fields.gasLimit) * old(fields.gasPrice)
        && (status == InsufficientFunds <==> total > sourceAmount.value)
      ensures status == Ok ==> sourceAmount.Some? && hasDestination && total <= sourceAmount.value
    {
      status := Update();
      total := TotalSpent();
    }
  }

  /** The numbers of a tail are never negative. */
  lemma EntriesWritable(f: Fields, tail: Tail)
    ensures AllWritable(Entries(f, tail)) <==> AllWritable(Entries(f, Plain))
  {
    var es, ps := Entries(f, tail), Entries(f, Plain);
    assert es[..6] == ps;
    if AllWritable(es) {
      forall i | 0 <= i < |ps| && ps[i].Number? ensures 0 <= ps[i].x {
        assert es[i] == ps[i];
      }
    }
    if AllWritable(ps) {
      forall i | 0 <= i < |es| && es[i].Number? ensures 0 <= es[i].x {
        assert i < 6 ==> es[i] == ps[i];
      }
    }
  }

  /** The tails a transaction may get: small numbers, and halves of a signature. */
  predicate TailSized(tail: Tail) {
    match tail
    case Plain => true
    case ChainId(id) => id < UINT32
    case Signature(v, r, s) => v < UINT32 && |r| == 32 && |s| == 32
  }
}
