/**
 A reader of Bitcoin's wire form, and what it finds in what is written: integers are little-endian, lengths are
 compact sizes, and the hash of the transaction spent is back to front.
 */
module BitcoinWire {
  import opened Arith
  import opened Powers
  import opened Numerals
  import opened Wrappers
  import opened BitcoinStream
  import opened BitcoinModel

  datatype WireInput = WireInput(hash: Bytes, index: int, script: Bytes, sequence: int)
  datatype WireOutput = WireOutput(amount: int, script: Bytes)
  datatype WireTx = WireTx(version: int, inputs: seq<WireInput>, outputs: seq<WireOutput>, lockTime: int)

  /** What was read, and the bytes that follow. */
  datatype Read<T> = Read(got: T, rest: Bytes)

  // ---- reading ----

  function TakeBytes(s: Bytes, n: nat): Option<Read<Bytes>> {
    if |s| < n then None else Some(Read(s[..n], s[n..]))
  }

  function TakeInt(s: Bytes, n: nat): Option<Read<int>> {
    if |s| < n then None else Some(Read(Reversed(s, n, 0x100), s[n..]))
  }

  /** A compact size: one byte below 253, or a marker and two, four or eight bytes. */
  function TakeSize(s: Bytes): Option<Read<int>> {
    if s == [] then None
    else if s[0] < 253 then Some(Read(s[0], s[1..]))
    else TakeInt(s[1..], if s[0] == 253 then 2 else if s[0] == 254 then 4 else 8)
  }

  function TakeScript(s: Bytes): Option<Read<Bytes>> {
    match TakeSize(s)
    case None => None
    case Some(n) => if n.got < 0 then None else TakeBytes(n.rest, n.got)
  }

  function TakeInput(s: Bytes): Option<Read<WireInput>> {
    if |s| < 36 then None else
      match TakeScript(s[36..])
      case None => None
      case Some(script) =>
        match TakeInt(script.rest, 4)
        case None => None
        case Some(sequence) =>
          var hash := seq(32, i requires 0 <= i < 32 => s[31 - i]);
          Some(Read(WireInput(hash, Reversed(s[32..], 4, 0x100), script.got, sequence.got), sequence.rest))
  }

  function TakeOutput(s: Bytes): Option<Read<WireOutput>> {
    match TakeInt(s, 8)
    case None => None
    case Some(amount) =>
      match TakeScript(amount.rest)
      case None => None
      case Some(script) => Some(Read(WireOutput(amount.got, script.got), script.rest))
  }

  function TakeInputs(s: Bytes, n: nat): Option<Read<seq<WireInput>>> {
    if n == 0 then Some(Read([], s)) else
      match TakeInput(s)
      case None => None
      case Some(input) =>
        match TakeInputs(input.rest, n - 1)
        case None => None
        case Some(more) => Some(Read([input.got] + more.got, more.rest))
  }

  function TakeOutputs(s: Bytes, n: nat): Option<Read<seq<WireOutput>>> {
    if n == 0 then Some(Read([], s)) else
      match TakeOutput(s)
      case None => None
      case Some(output) =>
        match TakeOutputs(output.rest, n - 1)
        case None => None
        case Some(more) => Some(Read([output.got] + more.got, more.rest))
  }

  function TakeInputList(s: Bytes): Option<Read<seq<WireInput>>> {
    match TakeSize(s)
    case None => None
    case Some(n) => if n.got < 0 then None else TakeInputs(n.rest, n.got)
  }

  function TakeOutputList(s: Bytes): Option<Read<seq<WireOutput>>> {
    match TakeSize(s)
    case None => None
    case Some(n) => if n.got < 0 then None else TakeOutputs(n.rest, n.got)
  }

  /** A transaction: version, inputs, outputs and lock time. */
  function TakeTx(s: Bytes): Option<Read<WireTx>> {
    match TakeInt(s, 4)
    case None => None
    case Some(version) =>
      match TakeInputList(version.rest)
      case None => None
      case Some(inputs) =>
        match TakeOutputList(inputs.rest)
        case None => None
        case Some(outputs) =>
          match TakeInt(outputs.rest, 4)
          case None => None
          case Some(lockTime) => Some(Read(WireTx(version.got, inputs.got, outputs.got, lockTime.got), lockTime.rest))
  }

  // ---- integers and lengths ----

  lemma PowersOfBytes()
    ensures Pow(0x100, 2) == 0x1_0000 && Pow(0x100, 4) == 0x1_0000_0000 && Pow(0x100, 8) == UINT64
  {
    Pow2Constants();
    PowOfPow2(8, 2);
    PowOfPow2(8, 4);
    PowOfPow2(8, 8);
  }

  lemma IntRead(x: int, n: nat, rest: Bytes)
    ensures 0 < Pow(0x100, n) && TakeInt(LittleEndian(x, n) + rest, n) == Some(Read(x % Pow(0x100, n), rest))
  {
    var s := LittleEndian(x, n);
    LittleEndianReads(x, n);
    ReversedAgree(s + rest, s, n, 0x100);
    assert (s + rest)[n..] == rest;
  }

  lemma Modulo(x: int, m: int)
    requires 0 <= x < m
    ensures x % m == x
  {
  }

  /** A length is read back, and written in as few bytes as its form allows. */
  lemma SizeRead(n: int, rest: Bytes)
    requires 0 <= n < UINT64
    ensures TakeSize(CompactSize(n) + rest) == Some(Read(n, rest))
    ensures |CompactSize(n)| == if n < 253 then 1 else if n < 0x1_0000 then 3 else if n < 0x1_0000_0000 then 5 else 9
  {
    var s := CompactSize(n) + rest;
    if n < 253 {
      assert s[1..] == rest;
    } else {
      var k := if n < 0x1_0000 then 2 else if n < 0x1_0000_0000 then 4 else 8;
      PowersOfBytes();
      Modulo(n, Pow(0x100, k));
      IntRead(n, k, rest);
      assert s[1..] == LittleEndian(n, k) + rest;
    }
  }

  lemma ScriptRead(script: Bytes, rest: Bytes)
    requires |script| < UINT64
    ensures TakeScript(CompactBytes(script) + rest) == Some(Read(script, rest))
  {
    SizeRead(|script|, script + rest);
    assert CompactBytes(script) + rest == CompactSize(|script|) + (script + rest);
    assert (script + rest)[..|script|] == script && (script + rest)[|script|..] == rest;
  }

  // ---- inputs and outputs ----

  function Script(i: Input): Bytes {
    if i.script.Some? then i.script.value else []
  }

  /** What a reader finds of an input. */
  function InputSeen(i: Input): WireInput {
    WireInput(i.hash, i.index % 0x1_0000_0000, Script(i), i.sequence % 0x1_0000_0000)
  }

  function OutputSeen(o: Output): WireOutput {
    WireOutput(o.amount % UINT64, o.script)
  }

  predicate InputFits(i: Input) {
    |i.hash| == 32 && |Script(i)| < UINT64
  }

  lemma {:induction false} BackwardsAt(s: Bytes, i: nat)
    requires i < |s|
    ensures Backwards(s)[i] == s[|s| - 1 - i]
  {
    if i < |s| - 1 {
      BackwardsAt(s[1..], i);
    }
  }

  lemma HashRead(hash: Bytes, rest: Bytes)
    requires |hash| == 32
    ensures var s := Backwards(hash) + rest; seq(32, i requires 0 <= i < 32 => s[31 - i]) == hash
  {
    forall i | 0 <= i < 32 ensures (Backwards(hash) + rest)[31 - i] == hash[i] {
      BackwardsAt(hash, 31 - i);
    }
  }

  lemma InputRead(i: Input, rest: Bytes)
    requires InputFits(i)
    ensures TakeInput(InputBytes(i) + rest) == Some(Read(InputSeen(i), rest))
  {
    var tail := LittleEndian(i.sequence, 4) + rest;
    var body := LittleEndian(i.index, 4) + (CompactBytes(Script(i)) + tail);
    var s := InputBytes(i) + rest;
    assert s == Backwards(i.hash) + body;
    PowersOfBytes();
    HashRead(i.hash, body);
    IntRead(i.index, 4, CompactBytes(Script(i)) + tail);
    assert s[32..] == body && s[36..] == CompactBytes(Script(i)) + tail;
    ScriptRead(Script(i), tail);
    IntRead(i.sequence, 4, rest);
  }

  lemma OutputRead(o: Output, rest: Bytes)
    requires |o.script| < UINT64
    ensures TakeOutput(OutputBytes(o) + rest) == Some(Read(OutputSeen(o), rest))
  {
    var tail := CompactBytes(o.script) + rest;
    assert OutputBytes(o) + rest == LittleEndian(o.amount, 8) + tail;
    PowersOfBytes();
    IntRead(o.amount, 8, tail);
    ScriptRead(o.script, rest);
  }

  lemma {:induction false} InputsCons(inputs: seq<Input>)
    requires inputs != []
    ensures InputsBytes(inputs) == InputBytes(inputs[0]) + InputsBytes(inputs[1..])
    decreases |inputs|
  {
    var n := |inputs| - 1;
    if n > 0 {
      InputsCons(inputs[..n]);
      assert inputs[..n][1..] == inputs[1..][..n - 1];
      Concat2(InputBytes(inputs[0]), InputsBytes(inputs[1..][..n - 1]), InputBytes(inputs[n]));
    } else {
      assert inputs[..0] == [] && inputs[1..] == [];
    }
  }

  lemma {:induction false} OutputsCons(outputs: seq<Output>)
    requires outputs != []
    ensures OutputsBytes(outputs) == OutputBytes(outputs[0]) + OutputsBytes(outputs[1..])
    decreases |outputs|
  {
    var n := |outputs| - 1;
    if n > 0 {
      OutputsCons(outputs[..n]);
      assert outputs[..n][1..] == outputs[1..][..n - 1];
      Concat2(OutputBytes(outputs[0]), OutputsBytes(outputs[1..][..n - 1]), OutputBytes(outputs[n]));
    } else {
      assert outputs[..0] == [] && outputs[1..] == [];
    }
  }

  predicate InputsFit(inputs: seq<Input>) {
    |inputs| < UINT64 && forall i :: 0 <= i < |inputs| ==> InputFits(inputs[i])
  }

  predicate OutputsFit(outputs: seq<Output>) {
    |outputs| < UINT64 && forall i :: 0 <= i < |outputs| ==> |outputs[i].script| < UINT64
  }

  function InputsSeen(inputs: seq<Input>): seq<WireInput> {
    seq(|inputs|, i requires 0 <= i < |inputs| => InputSeen(inputs[i]))
  }

  function OutputsSeen(outputs: seq<Output>): seq<WireOutput> {
    seq(|outputs|, i requires 0 <= i < |outputs| => OutputSeen(outputs[i]))
  }

  lemma InputsStep(s: Bytes, n: nat, input: Read<WireInput>, more: Read<seq<WireInput>>)
    requires 0 < n && TakeInput(s) == Some(input) && TakeInputs(input.rest, n - 1) == Some(more)
    ensures TakeInputs(s, n) == Some(Read([input.got] + more.got, more.rest))
  {}

  lemma {:induction false} InputsRead(inputs: seq<Input>, rest: Bytes)
    requires InputsFit(inputs)
    ensures TakeInputs(InputsBytes(inputs) + rest, |inputs|) == Some(Read(InputsSeen(inputs), rest))
    decreases |inputs|
  {
    if inputs == [] {
      assert InputsBytes(inputs) + rest == rest && InputsSeen(inputs) == [];
    } else {
      var after := InputsBytes(inputs[1..]) + rest;
      InputsCons(inputs);
      Concat2(InputBytes(inputs[0]), InputsBytes(inputs[1..]), rest);
      InputRead(inputs[0], after);
      InputsRead(inputs[1..], rest);
      InputsSeenCons(inputs);
      InputsStep(InputsBytes(inputs) + rest, |inputs|, Read(InputSeen(inputs[0]), after),
                 Read(InputsSeen(inputs[1..]), rest));
    }
  }

  lemma InputsSeenCons(inputs: seq<Input>)
    requires inputs != []
    ensures InputsSeen(inputs) == [InputSeen(inputs[0])] + InputsSeen(inputs[1..])
  {}

  lemma OutputsStep(s: Bytes, n: nat, output: Read<WireOutput>, more: Read<seq<WireOutput>>)
    requires 0 < n && TakeOutput(s) == Some(output) && TakeOutputs(output.rest, n - 1) == Some(more)
    ensures TakeOutputs(s, n) == Some(Read([output.got] + more.got, more.rest))
  {}

  lemma {:induction false} OutputsRead(outputs: seq<Output>, rest: Bytes)
    requires OutputsFit(outputs)
    ensures TakeOutputs(OutputsBytes(outputs) + rest, |outputs|) == Some(Read(OutputsSeen(outputs), rest))
    decreases |outputs|
  {
    if outputs == [] {
      assert OutputsBytes(outputs) + rest == rest && OutputsSeen(outputs) == [];
    } else {
      var after := OutputsBytes(outputs[1..]) + rest;
      OutputsCons(outputs);
      Concat2(OutputBytes(outputs[0]), OutputsBytes(outputs[1..]), rest);
      OutputRead(outputs[0], after);
      OutputsRead(outputs[1..], rest);
      OutputsSeenCons(outputs);
      OutputsStep(OutputsBytes(outputs) + rest, |outputs|, Read(OutputSeen(outputs[0]), after),
                  Read(OutputsSeen(outputs[1..]), rest));
    }
  }

  lemma OutputsSeenCons(outputs: seq<Output>)
    requires outputs != []
    ensures OutputsSeen(outputs) == [OutputSeen(outputs[0])] + OutputsSeen(outputs[1..])
  {}

  // ---- transactions ----

  /** A reader finds version, inputs, outputs and lock time where they were written, and nothing else. */
  lemma TxRead(version: int, inputs: seq<Input>, outputs: seq<Output>, lockTime: int, rest: Bytes)
    requires InputsFit(inputs) && OutputsFit(outputs)
    ensures TakeTx(TxBytes(version, inputs, outputs, lockTime) + rest)
         == Some(Read(WireTx(version % 0x1_0000_0000, InputsSeen(inputs), OutputsSeen(outputs),
                             lockTime % 0x1_0000_0000), rest))
  {
    var end := LittleEndian(lockTime, 4) + rest;
    var middle := CompactSize(|outputs|) + (OutputsBytes(outputs) + end);
    var start := CompactSize(|inputs|) + (InputsBytes(inputs) + middle);
    PowersOfBytes();
    TxInParts(version, inputs, outputs, lockTime, rest, end, middle, start);
    IntRead(version, 4, start);
    SizeRead(|inputs|, InputsBytes(inputs) + middle);
    InputsRead(inputs, middle);
    SizeRead(|outputs|, OutputsBytes(outputs) + end);
    OutputsRead(outputs, end);
    IntRead(lockTime, 4, rest);
  }

  lemma TxInParts(version: int, inputs: seq<Input>, outputs: seq<Output>, lockTime: int, rest: Bytes,
                  end: Bytes, middle: Bytes, start: Bytes)
    requires end == LittleEndian(lockTime, 4) + rest
    requires middle == CompactSize(|outputs|) + (OutputsBytes(outputs) + end)
    requires start == CompactSize(|inputs|) + (InputsBytes(inputs) + middle)
    ensures TxBytes(version, inputs, outputs, lockTime) + rest == LittleEndian(version, 4) + start
  {
    var head := LittleEndian(version, 4) + (CompactSize(|inputs|) + InputsBytes(inputs));
    var outs := CompactSize(|outputs|) + OutputsBytes(outputs);
    Concat2(head + outs, LittleEndian(lockTime, 4), rest);
    Concat2(head, outs, end);
    Concat2(CompactSize(|outputs|), OutputsBytes(outputs), end);
    Concat2(LittleEndian(version, 4), CompactSize(|inputs|) + InputsBytes(inputs), middle);
    Concat2(CompactSize(|inputs|), InputsBytes(inputs), middle);
  }

  /** The lengths fit their 64 bits, and hashes are of 32 bytes. */
  predicate Fits(t: Tx, use: DestinationsToUse) {
    && |t.cores| < UINT64 && OutputsFit(Outs(t, use))
    && forall i :: 0 <= i < |t.cores| ==>
         |t.cores[i].hash| == 32 && |t.cores[i].pubScript| < UINT64 && |ScriptFor(t, i)| < UINT64
  }

  lemma OutputsSeenAt(outputs: seq<Output>)
    ensures |OutputsSeen(outputs)| == |outputs|
    ensures forall i :: 0 <= i < |outputs| ==>
      OutputsSeen(outputs)[i] == WireOutput(outputs[i].amount % 0x1_0000_0000_0000_0000, outputs[i].script)
  {}

  lemma InputsSeenAt(inputs: seq<Input>)
    ensures |InputsSeen(inputs)| == |inputs|
    ensures forall i :: 0 <= i < |inputs| ==>
      InputsSeen(inputs)[i] == WireInput(inputs[i].hash, inputs[i].index % 0x1_0000_0000, Script(inputs[i]),
                                         inputs[i].sequence % 0x1_0000_0000)
  {}

  lemma OneInBytes()
    ensures LittleEndian(1, 4) == [1, 0, 0, 0]
  {
    NoBytes(0);
    NoBytes(1);
    NoBytes(2);
  }

  lemma {:induction false} NoBytes(k: nat)
    ensures ByteOf(0, k) == 0 && ByteOf(1, k + 1) == 0
    decreases k
  {
    if k > 0 {
      NoBytes(k - 1);
    }
  }

  /** Everything that the signed bytes say, place by place. */
  lemma SignedRead(t: Tx, use: DestinationsToUse, rest: Bytes) returns (w: WireTx)
    requires Fits(t, use)
    ensures TakeTx(SignedBytes(t, use) + rest) == Some(Read(w, rest))
    ensures w.version == t.version % 0x1_0000_0000 && w.lockTime == t.lockTime % 0x1_0000_0000
    ensures |w.inputs| == |t.cores| && |w.outputs| == |Outs(t, use)|
    ensures forall i :: 0 <= i < |t.cores| ==>
      w.inputs[i] == WireInput(t.cores[i].hash, t.cores[i].index % 0x1_0000_0000, ScriptFor(t, i),
                               t.cores[i].sequence % 0x1_0000_0000)
    ensures forall i :: 0 <= i < |Outs(t, use)| ==>
      w.outputs[i] == WireOutput(Outs(t, use)[i].amount % 0x1_0000_0000_0000_0000, Outs(t, use)[i].script)
  {
    var inputs, outputs := SignedInputs(t), Outs(t, use);
    InputsSeenAt(inputs);
    OutputsSeenAt(outputs);
    TxRead(t.version, inputs, outputs, t.lockTime, rest);
    w := WireTx(t.version % 0x1_0000_0000, InputsSeen(inputs), OutputsSeen(outputs), t.lockTime % 0x1_0000_0000);
  }

  /** What is signed for input i: the same with the script of the output spent for input i, no other scripts, and 1. */
  lemma PreimageRead(t: Tx, i: nat) returns (w: WireTx)
    requires Fits(t, PositiveOnly) && i < |t.cores|
    ensures TakeTx(Preimage(t, i)) == Some(Read(w, [1, 0, 0, 0]))
    ensures w.version == t.version % 0x1_0000_0000 && w.lockTime == t.lockTime % 0x1_0000_0000
    ensures |w.inputs| == |t.cores| && |w.outputs| == |Outs(t, PositiveOnly)|
    ensures forall j :: 0 <= j < |t.cores| ==>
      w.inputs[j] == WireInput(t.cores[j].hash, t.cores[j].index % 0x1_0000_0000,
                               if j == i then t.cores[j].pubScript else [], t.cores[j].sequence % 0x1_0000_0000)
    ensures forall j :: 0 <= j < |Outs(t, PositiveOnly)| ==>
      w.outputs[j] == WireOutput(Outs(t, PositiveOnly)[j].amount % 0x1_0000_0000_0000_0000,
                                 Outs(t, PositiveOnly)[j].script)
  {
    var inputs, outputs := PreimageInputs(t.cores, i), Outs(t, PositiveOnly);
    var one: Bytes := [1, 0, 0, 0];
    OneInBytes();
    InputsSeenAt(inputs);
    OutputsSeenAt(outputs);
    TxRead(t.version, inputs, outputs, t.lockTime, one);
    w := WireTx(t.version % 0x1_0000_0000, InputsSeen(inputs), OutputsSeen(outputs), t.lockTime % 0x1_0000_0000);
  }

  /** The script that unlocks input i: the signature of its preimage with a byte 1, the public key, and no more. */
  lemma ScriptForRead(t: Tx, i: nat)
    requires i < |t.cores|
    requires var c := t.cores[i];
      |t.signer.sign(c.key, Preimage(t, i))| + 1 < UINT64 && |t.signer.publicKey(c.key)| < UINT64
    ensures var c := t.cores[i];
      var signature := TakeScript(ScriptFor(t, i));
      && signature.Some? && signature.value.got == t.signer.sign(c.key, Preimage(t, i)) + [1]
      && TakeScript(signature.value.rest) == Some(Read(t.signer.publicKey(c.key), []))
  {
    var signature, publicKey := t.signer.sign(t.cores[i].key, Preimage(t, i)), t.signer.publicKey(t.cores[i].key);
    PushedParts(signature, publicKey);
    ScriptRead(signature + [1], CompactBytes(publicKey));
    ScriptRead(publicKey, []);
    assert CompactBytes(publicKey) + [] == CompactBytes(publicKey);
  }

  lemma PushedParts(signature: Bytes, publicKey: Bytes)
    ensures CompactSize(|signature| + 1) + signature + LittleEndian(1, 1) + CompactBytes(publicKey)
         == CompactBytes(signature + [1]) + CompactBytes(publicKey)
  {
    SingleByte(1);
    assert CompactSize(|signature| + 1) + signature + [1] == CompactBytes(signature + [1]);
  }

  // ---- which outputs are written ----

  /** In front the message, then the destinations that are kept, in their order: all of them if all are. */
  lemma {:induction false} AllPicked(message: seq<Output>, dests: seq<Dest>, use: DestinationsToUse)
    requires forall i :: 0 <= i < |dests| ==>
      dests[i].amount > 0 || (use == WithNonpositiveChange && dests[i].isChange)
    ensures Picked(message, dests, use)
         == message + seq(|dests|, i requires 0 <= i < |dests| => Output(dests[i].amount, dests[i].script))
  {
    if dests != [] {
      AllPicked(message, dests[..|dests| - 1], use);
    }
  }

  /** A destination without a positive amount is left out, unless it is the change and that is to be written. */
  lemma {:induction false} NotPicked(message: seq<Output>, a: seq<Dest>, d: Dest, b: seq<Dest>, use: DestinationsToUse)
    requires d.amount <= 0 && !(use == WithNonpositiveChange && d.isChange)
    ensures Picked(message, a + [d] + b, use) == Picked(message, a + b, use)
    decreases |b|
  {
    var s := a + [d] + b;
    if b == [] {
      assert s[..|s| - 1] == a == a + b;
    } else {
      var n := |b| - 1;
      NotPicked(message, a, d, b[..n], use);
      assert s[..|s| - 1] == a + [d] + b[..n] && (a + b)[..|a + b| - 1] == a + b[..n];
    }
  }
}
