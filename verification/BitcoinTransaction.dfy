/**
 A Bitcoin transaction as the wallet holds it: sources and destinations are objects that
 signing and balancing update in place.
 */
module BitcoinTransaction {
  import opened Arith
  import opened Numerals
  import opened BitcoinStream
  import opened BitcoinModel
  import opened FeeFixpoint
  import opened Wrappers

  const SEQUENCE_FINAL: int := 0xffff_ffff
  const SEQUENCE_REPLACEABLE: int := SEQUENCE_FINAL - 2

  class Source {
    const hash: Bytes
    const index: int
    const key: nat
    const amount: int
    var sequence: int
    var pubScript: Option<Bytes>   // script of the output that is spent
    var script: Option<Bytes>      // script that unlocks it, once signed

    constructor (hash: Bytes, index: int, key: nat, amount: int, pubScript: Bytes)
      ensures this.hash == hash && this.index == index && this.key == key && this.amount == amount
      ensures this.pubScript == Some(pubScript) && script == None && sequence == SEQUENCE_FINAL
    {
      this.hash, this.index, this.key, this.amount := hash, index, key, amount;
      this.pubScript, script, sequence := Some(pubScript), None, SEQUENCE_FINAL;
    }

    function AsInput(): Input
      reads this
    {
      Input(hash, index, script, sequence)
    }

    function AsCore(): Core
      reads this
    {
      Core(hash, index, sequence, if pubScript.Some? then pubScript.value else [], key, amount)
    }
  }

  class Destination {
    const isChange: bool
    const script: Bytes
    var amount: int

    constructor (amount: int, isChange: bool, script: Bytes)
      ensures this.amount == amount && this.isChange == isChange && this.script == script
    {
      this.amount, this.isChange, this.script := amount, isChange, script;
    }

    function AsDest(): Dest
      reads this
    {
      Dest(amount, isChange, script)
    }
  }

  function InputsOf(ss: seq<Source>): (r: seq<Input>)
    reads ss
    ensures |r| == |ss| && forall i :: 0 <= i < |ss| ==> r[i] == ss[i].AsInput()
  {
    if ss == [] then [] else InputsOf(ss[..|ss| - 1]) + [ss[|ss| - 1].AsInput()]
  }

  function CoresOf(ss: seq<Source>): (r: seq<Core>)
    reads ss
    ensures |r| == |ss| && forall i :: 0 <= i < |ss| ==> r[i] == ss[i].AsCore()
  {
    if ss == [] then [] else CoresOf(ss[..|ss| - 1]) + [ss[|ss| - 1].AsCore()]
  }

  function DestsOf(ds: seq<Destination>): (r: seq<Dest>)
    reads ds
    ensures |r| == |ds| && forall i :: 0 <= i < |ds| ==> r[i] == ds[i].AsDest()
  {
    if ds == [] then [] else DestsOf(ds[..|ds| - 1]) + [ds[|ds| - 1].AsDest()]
  }

  method WriteInput(stream: Stream, s: Source)
    requires stream.Valid()
    modifies stream
    ensures stream.Valid() && stream.written == old(stream.written) + InputBytes(s.AsInput())
  {
    ghost var w := stream.written;
    stream.WriteReversed(s.hash);
    stream.WriteInt(s.index, 4);
    if s.script.Some? {
      stream.WriteCompactBytes(s.script.value);
    } else {
      stream.WriteCompactBytes([]);
    }
    stream.WriteInt(s.sequence, 4);
    Concat4(w, Backwards(s.hash), LittleEndian(s.index, 4),
            CompactBytes(if s.script.Some? then s.script.value else []), LittleEndian(s.sequence, 4));
  }

  /** Fails when the amount is negative or does not fit. */
  method WriteOutput(stream: Stream, o: Output) returns (ok: bool)
    requires stream.Valid()
    modifies stream
    ensures stream.Valid() && (ok <==> 0 <= o.amount < UINT64)
    ensures ok ==> stream.written == old(stream.written) + OutputBytes(o)
  {
    ok := 0 <= o.amount < UINT64;
    if ok {
      ghost var w := stream.written;
      stream.WriteInt(o.amount, 8);
      stream.WriteCompactBytes(o.script);
      Concat2(w, LittleEndian(o.amount, 8), CompactBytes(o.script));
    }
  }

  lemma OneMoreInput(inputs: seq<Input>, i: nat, w: Bytes)
    requires i < |inputs|
    ensures w + InputsBytes(inputs[..i]) + InputBytes(inputs[i]) == w + InputsBytes(inputs[..i + 1])
  {
    assert inputs[..i + 1][..i] == inputs[..i];
    Concat2(w, InputsBytes(inputs[..i]), InputBytes(inputs[i]));
  }

  lemma OneMoreOutput(outs: seq<Output>, i: nat, w: Bytes)
    requires i < |outs|
    ensures w + OutputsBytes(outs[..i]) + OutputBytes(outs[i]) == w + OutputsBytes(outs[..i + 1])
  {
    assert outs[..i + 1][..i] == outs[..i];
    Concat2(w, OutputsBytes(outs[..i]), OutputBytes(outs[i]));
  }

  method WriteAllInputs(stream: Stream, sources: seq<Source>, ghost inputs: seq<Input>)
    requires stream.Valid() && inputs == InputsOf(sources)
    modifies stream
    ensures stream.Valid() && stream.written == old(stream.written) + InputsBytes(inputs)
  {
    ghost var w := stream.written;
    var i := 0;
    while i < |sources|
      invariant i <= |sources| && stream.Valid() && stream.written == w + InputsBytes(inputs[..i])
    {
      WriteInput(stream, sources[i]);
      OneMoreInput(inputs, i, w);
      i := i + 1;
    }
    assert inputs[..i] == inputs;
  }

  method WriteAllOutputs(stream: Stream, outs: seq<Output>) returns (ok: bool)
    requires stream.Valid()
    modifies stream
    ensures stream.Valid() && (ok <==> Writable(outs))
    ensures ok ==> stream.written == old(stream.written) + OutputsBytes(outs)
  {
    ghost var w := stream.written;
    var i := 0;
    while i < |outs|
      invariant i <= |outs| && stream.Valid() && stream.written == w + OutputsBytes(outs[..i])
      invariant forall k :: 0 <= k < i ==> 0 <= outs[k].amount < UINT64
    {
      ok := WriteOutput(stream, outs[i]);
      if !ok {
        return;
      }
      OneMoreOutput(outs, i, w);
      i := i + 1;
    }
    assert outs[..i] == outs;
    ok := true;
  }

  function HeadBytes(version: int, inputs: seq<Input>): Bytes {
    LittleEndian(version, 4) + (CompactSize(|inputs|) + InputsBytes(inputs))
  }

  function TailBytes(outputs: seq<Output>, lockTime: int): Bytes {
    CompactSize(|outputs|) + OutputsBytes(outputs) + LittleEndian(lockTime, 4)
  }

  lemma TxParts(w: Bytes, version: int, inputs: seq<Input>, outputs: seq<Output>, lockTime: int)
    ensures w + HeadBytes(version, inputs) + TailBytes(outputs, lockTime) == w + TxBytes(version, inputs, outputs, lockTime)
  {
    var h := HeadBytes(version, inputs);
    Concat2(w, h, TailBytes(outputs, lockTime));
    Concat2(h, CompactSize(|outputs|) + OutputsBytes(outputs), LittleEndian(lockTime, 4));
  }

  class BitcoinTransaction {
    const signer: Signer
    const mainnet: bool
    const perByte: int
    const version: int
    const lockTime: int
    const byFeeReplaceable: bool
    const message: seq<Output>
    const sources: seq<Source>
    const destinations: seq<Destination>

    constructor (signer: Signer, mainnet: bool, perByte: int, version: int, lockTime: int, byFeeReplaceable: bool,
                 message: seq<Output>, sources: seq<Source>, destinations: seq<Destination>)
      ensures this.signer == signer && this.mainnet == mainnet && this.perByte == perByte && this.version == version
      ensures this.lockTime == lockTime && this.byFeeReplaceable == byFeeReplaceable && this.message == message
      ensures this.sources == sources && this.destinations == destinations
    {
      this.signer, this.mainnet, this.perByte, this.version := signer, mainnet, perByte, version;
      this.lockTime, this.byFeeReplaceable, this.message := lockTime, byFeeReplaceable, message;
      this.sources, this.destinations := sources, destinations;
    }

    /** No object twice, no negative price, a message that pays nothing. */
    ghost predicate Wellformed() {
      && ShortSignatures(signer) && 0 <= perByte && DistinctSources() && DistinctDestinations()
      && (forall i :: 0 <= i < |message| ==> message[i].amount == 0)
    }

    ghost predicate DistinctSources() {
      forall i, j :: 0 <= i < j < |sources| ==> sources[i] != sources[j]
    }

    ghost predicate DistinctDestinations() {
      forall i, j :: 0 <= i < j < |destinations| ==> destinations[i] != destinations[j]
    }

    ghost predicate ScriptsKnown()
      reads sources
    {
      forall i :: 0 <= i < |sources| ==> sources[i].pubScript.Some?
    }

    /** Amounts as the setters accept them; only the change may be anything. */
    ghost predicate AmountsSet()
      reads destinations
    {
      forall i :: 0 <= i < |destinations| ==> destinations[i].isChange || 0 <= destinations[i].amount
    }

    ghost predicate Valid()
      reads sources, destinations
    {
      Wellformed() && ScriptsKnown() && AmountsSet()
    }

    /** The transaction as a value; scripts that unlock are not part of it. */
    ghost function State(): Tx
      reads sources, destinations
    {
      Tx(signer, version, CoresOf(sources), message, DestsOf(destinations), lockTime)
    }

    /** The outputs as a value; signing does not touch them. */
    ghost function Outputs(use: DestinationsToUse): seq<Output>
      reads destinations
    {
      Picked(message, DestsOf(destinations), use)
    }

    /** Message first, then the destinations that are kept. */
    method NonZeroDestinations(use: DestinationsToUse) returns (result: seq<Output>)
      ensures result == Outputs(use)
    {
      result := message;
      ghost var ds := DestsOf(destinations);
      var i := 0;
      while i < |destinations|
        invariant i <= |destinations| && result == Picked(message, ds[..i], use)
      {
        var d := destinations[i];
        assert ds[..i + 1][..i] == ds[..i] && ds[..i + 1][i] == d.AsDest();
        if d.amount > 0 || (use == WithNonpositiveChange && d.isChange) {
          result := result + [Output(d.amount, d.script)];
        }
        i := i + 1;
      }
      assert ds[..i] == ds;
    }

    /** The whole transaction, as far as all amounts can be written. */
    method SerializeTo(stream: Stream, use: DestinationsToUse, ghost inputs: seq<Input>, ghost outputs: seq<Output>)
      returns (ok: bool)
      requires stream.Valid() && inputs == InputsOf(sources) && outputs == Outputs(use)
      modifies stream
      ensures stream.Valid() && (ok <==> Writable(outputs))
      ensures ok ==> stream.written == old(stream.written) + TxBytes(version, inputs, outputs, lockTime)
    {
      ghost var w := stream.written;
      WriteHead(stream, inputs);
      var outs := NonZeroDestinations(use);
      assert outs == outputs;
      ok := WriteTail(stream, outs);
      TxParts(w, version, inputs, outs, lockTime);
    }

    /** Version and inputs. */
    method WriteHead(stream: Stream, ghost inputs: seq<Input>)
      requires stream.Valid() && inputs == InputsOf(sources)
      modifies stream
      ensures stream.Valid() && stream.written == old(stream.written) + HeadBytes(version, inputs)
    {
      ghost var w := stream.written;
      stream.WriteInt(version, 4);
      WriteInputs(stream, inputs);
      Concat2(w, LittleEndian(version, 4), CompactSize(|inputs|) + InputsBytes(inputs));
    }

    /** Outputs and lock time. */
    method WriteTail(stream: Stream, outs: seq<Output>) returns (ok: bool)
      requires stream.Valid()
      modifies stream
      ensures stream.Valid() && (ok <==> Writable(outs))
      ensures ok ==> stream.written == old(stream.written) + TailBytes(outs, lockTime)
    {
      ghost var w := stream.written;
      ok := WriteOutputs(stream, outs);
      if ok {
        stream.WriteInt(lockTime, 4);
        Concat2(w, CompactSize(|outs|) + OutputsBytes(outs), LittleEndian(lockTime, 4));
      }
    }

    method WriteInputs(stream: Stream, ghost inputs: seq<Input>)
      requires stream.Valid() && inputs == InputsOf(sources)
      modifies stream
      ensures stream.Valid()
      ensures stream.written == old(stream.written) + (CompactSize(|inputs|) + InputsBytes(inputs))
    {
      ghost var w := stream.written;
      stream.WriteCompactSize(|sources|);
      WriteAllInputs(stream, sources, inputs);
      Concat2(w, CompactSize(|inputs|), InputsBytes(inputs));
    }

    method WriteOutputs(stream: Stream, outs: seq<Output>) returns (ok: bool)
      requires stream.Valid()
      modifies stream
      ensures stream.Valid() && (ok <==> Writable(outs))
      ensures ok ==> stream.written == old(stream.written) + (CompactSize(|outs|) + OutputsBytes(outs))
    {
      ghost var w := stream.written;
      stream.WriteCompactSize(|outs|);
      ok := WriteAllOutputs(stream, outs);
      Concat2(w, CompactSize(|outs|), OutputsBytes(outs));
    }

    // ---- signing ----

    /** Source by source, everything but the script that unlocks. */
    ghost predicate Has(cores: seq<Core>)
      reads sources
    {
      && |cores| == |sources|
      && forall k :: 0 <= k < |sources| ==> sources[k].pubScript.Some? && sources[k].AsCore() == cores[k]
    }

    lemma HasCores(cores: seq<Core>)
      requires Has(cores)
      ensures CoresOf(sources) == cores
    {}

    ghost predicate Unsigned()
      reads sources
    {
      forall k :: 0 <= k < |sources| ==> sources[k].script == None
    }

    method ClearScripts(ghost cores: seq<Core>)
      requires Has(cores)
      modifies sources
      ensures Has(cores) && Unsigned()
    {
      for k := 0 to |sources|
        invariant Has(cores)
        invariant forall j :: 0 <= j < k ==> sources[j].script == None
      {
        sources[k].script := None;
      }
    }

    /** What is signed: the inputs as they stand, the positive outputs, and the signature version. */
    method WritePreimage(ghost inputs: seq<Input>, ghost outputs: seq<Output>) returns (ok: bool, preimage: Bytes)
      requires inputs == InputsOf(sources) && outputs == Outputs(PositiveOnly)
      ensures ok <==> Writable(outputs)
      ensures ok ==> preimage == TxBytes(version, inputs, outputs, lockTime) + LittleEndian(1, 4)
    {
      var stream := new Stream(false);
      ok := SerializeTo(stream, PositiveOnly, inputs, outputs);
      preimage := [];
      if ok {
        assert stream.written == TxBytes(version, inputs, outputs, lockTime);
        stream.WriteInt(1, 4);  // signature version
        preimage := stream.data;
      }
    }

    /** Signature with its hash type, and public key. */
    method WriteSigScript(key: nat, preimage: Bytes) returns (sigScript: Bytes)
      ensures sigScript == SigScript(signer, key, preimage)
    {
      var signature := signer.sign(key, preimage);
      var stream := new Stream(false);
      stream.WriteCompactSize(|signature| + 1);
      stream.WriteData(signature);
      stream.WriteInt(1, 1);  // hash-code type
      stream.WriteCompactBytes(signer.publicKey(key));
      sigScript := stream.data;
      Concat4([], CompactSize(|signature| + 1), signature, LittleEndian(1, 1), CompactBytes(signer.publicKey(key)));
    }

    /** The script of source i is in place of the one that unlocks; the others have none. */
    ghost predicate InPlace(i: nat, cores: seq<Core>)
      reads sources
    {
      && |cores| == |sources|
      && forall k :: 0 <= k < |sources| ==>
        && sources[k].hash == cores[k].hash && sources[k].index == cores[k].index && sources[k].key == cores[k].key
        && sources[k].amount == cores[k].amount && sources[k].sequence == cores[k].sequence
        && sources[k].script == (if k == i then Some(cores[k].pubScript) else None)
        && sources[k].pubScript == (if k == i then None else Some(cores[k].pubScript))
    }

    lemma InPlaceInputs(i: nat, cores: seq<Core>)
      requires InPlace(i, cores)
      ensures InputsOf(sources) == PreimageInputs(cores, i)
    {}

    method SwapIn(i: nat, ghost cores: seq<Core>)
      requires i < |sources| && Has(cores) && DistinctSources() && Unsigned()
      modifies sources[i]
      ensures InPlace(i, cores)
    {
      var s := sources[i];
      s.script, s.pubScript := s.pubScript, s.script;
    }

    method SwapOut(i: nat, ghost cores: seq<Core>)
      requires i < |sources| && InPlace(i, cores) && DistinctSources()
      modifies sources[i]
      ensures Has(cores) && Unsigned()
    {
      var s := sources[i];
      s.script, s.pubScript := s.pubScript, s.script;
    }

    /** The script for source i; with ok false an amount could not be written and the scripts stay swapped. */
    method SignInput(i: nat, ghost t: Tx) returns (ok: bool, sigScript: Bytes)
      requires i < |sources| && t == State() && Has(t.cores) && DistinctSources() && Unsigned()
      modifies sources[i]
      ensures ok <==> Writable(Outs(t, PositiveOnly))
      ensures ok ==> Has(t.cores) && Unsigned() && sigScript == ScriptFor(t, i)
      ensures !ok ==> InPlace(i, t.cores)
    {
      SwapIn(i, t.cores);
      ok, sigScript := SignInPlace(i, t);
      if ok {
        SwapOut(i, t.cores);
      }
    }

    method SignInPlace(i: nat, ghost t: Tx) returns (ok: bool, sigScript: Bytes)
      requires i < |sources| && InPlace(i, t.cores) && Outs(t, PositiveOnly) == Outputs(PositiveOnly)
      requires t.signer == signer && t.version == version && t.lockTime == lockTime
      ensures InPlace(i, t.cores)
      ensures ok <==> Writable(Outs(t, PositiveOnly))
      ensures ok ==> sigScript == ScriptFor(t, i)
    {
      InPlaceInputs(i, t.cores);
      var preimage;
      ok, preimage := WritePreimage(PreimageInputs(t.cores, i), Outs(t, PositiveOnly));
      sigScript := [];
      if ok {
        sigScript := WriteSigScript(sources[i].key, preimage);
      }
    }

    /** Every source carries the script that its signature of t makes. */
    ghost predicate SignedFor(t: Tx)
      reads sources
    {
      |t.cores| == |sources| && forall i :: 0 <= i < |sources| ==> sources[i].script == Some(ScriptFor(t, i))
    }

    lemma SignedAsInputs(t: Tx)
      requires t.cores == CoresOf(sources) && SignedFor(t)
      ensures InputsOf(sources) == SignedInputs(t)
    {}

    /** What has been computed for the first n sources. */
    ghost predicate Computed(t: Tx, scripts: map<Source, Bytes>, n: nat) {
      |t.cores| == |sources| && n <= |sources| &&
      forall i :: 0 <= i < n ==> sources[i] in scripts && scripts[sources[i]] == ScriptFor(t, i)
    }

    lemma ComputeNext(t: Tx, scripts: map<Source, Bytes>, n: nat, script: Bytes)
      requires Computed(t, scripts, n) && n < |sources| && DistinctSources() && script == ScriptFor(t, n)
      ensures Computed(t, scripts[sources[n] := script], n + 1)
    {}

    /** One script more. */
    method ComputeScript(i: nat, ghost t: Tx, scripts0: map<Source, Bytes>) returns (ok: bool, scripts: map<Source, Bytes>)
      requires i < |sources| && t == State() && Has(t.cores) && DistinctSources() && Unsigned() && Computed(t, scripts0, i)
      modifies sources
      ensures ok <==> Writable(Outs(t, PositiveOnly))
      ensures ok ==> t == State() && Has(t.cores) && Unsigned() && Computed(t, scripts, i + 1)
      ensures !ok ==> InPlace(i, t.cores)
    {
      var sigScript;
      ok, sigScript := SignInput(i, t);
      scripts := scripts0[sources[i] := sigScript];
      if ok {
        StateKept(t);
        ComputeNext(t, scripts0, i, sigScript);
      }
    }

    /** Scripts for all sources, whatever was there before. */
    method ComputeScripts(ghost t: Tx) returns (ok: bool, scripts: map<Source, Bytes>)
      requires t == State() && Has(t.cores) && DistinctSources() && Unsigned()
      modifies sources
      ensures ok <==> sources == [] || Writable(Outs(t, PositiveOnly))
      ensures ok ==> Has(t.cores) && Computed(t, scripts, |sources|) && t == State()
      ensures !ok ==> InPlace(0, t.cores)
    {
      scripts := map[];
      var i := 0;
      while i < |sources|
        invariant i <= |sources| && t == State() && Has(t.cores) && Unsigned()
        invariant i > 0 ==> Writable(Outs(t, PositiveOnly))
        invariant Computed(t, scripts, i)
      {
        ok, scripts := ComputeScript(i, t, scripts);
        if !ok {
          return;
        }
        i := i + 1;
      }
      ok := true;
    }

    lemma StoredScripts(t: Tx, scripts: map<Source, Bytes>)
      requires Computed(t, scripts, |sources|)
      requires forall k :: 0 <= k < |sources| ==> sources[k].script == Some(scripts[sources[k]])
      ensures SignedFor(t)
    {}

    method StoreScripts(scripts: map<Source, Bytes>, ghost cores: seq<Core>)
      requires Has(cores) && DistinctSources() && forall k :: 0 <= k < |sources| ==> sources[k] in scripts
      modifies sources
      ensures Has(cores) && forall k :: 0 <= k < |sources| ==> sources[k].script == Some(scripts[sources[k]])
    {
      for k := 0 to |sources|
        invariant Has(cores)
        invariant forall j :: 0 <= j < k ==> sources[j].script == Some(scripts[sources[j]])
      {
        sources[k].script := Some(scripts[sources[k]]);
      }
    }

    /** Nothing but scripts that unlock has changed. */
    lemma StateKept(t: Tx)
      requires Has(t.cores) && DestsOf(destinations) == t.dests && t.signer == signer && t.version == version
      requires t.message == message && t.lockTime == lockTime
      ensures State() == t
    {
      HasCores(t.cores);
    }

    method StoreComputed(ghost t: Tx, scripts: map<Source, Bytes>)
      requires t == State() && Has(t.cores) && DistinctSources() && Computed(t, scripts, |sources|)
      modifies sources
      ensures Has(t.cores) && SignedFor(t) && State() == t
    {
      StoreScripts(scripts, t.cores);
      StoredScripts(t, scripts);
      StateKept(t);
    }

    /** Signs every source; old signatures play no part, and the scripts they sign for are as before. */
    method Sign(ghost t: Tx) returns (ok: bool)
      requires Valid() && t == State()
      modifies sources
      ensures ok <==> sources == [] || Writable(Outs(t, PositiveOnly))
      ensures ok ==> Valid() && SignedFor(t) && State() == t
      ensures !ok ==> InPlace(0, t.cores)
    {
      ClearScripts(t.cores);
      StateKept(t);
      var scripts;
      ok, scripts := ComputeScripts(t);
      if ok {
        StoreComputed(t, scripts);
        assert ScriptsKnown();
      }
    }

    // ---- size and serialisation ----

    /** How many bytes the signed transaction has; it is signed for that. */
    method SerializedSize(use: DestinationsToUse, ghost t: Tx) returns (ok: bool, size: nat)
      requires Valid() && t == State()
      modifies sources
      ensures ok <==> (sources == [] || Writable(Outs(t, PositiveOnly))) && Writable(Outs(t, use))
      ensures ok ==> size == |SignedBytes(t, use)|
      ensures ok ==> Valid() && SignedFor(t) && State() == t
      ensures !Writable(Outs(t, PositiveOnly)) ==> InPlace(0, t.cores)
    {
      ok := Sign(t);
      size := 0;
      if ok {
        ok, size := CountBytes(use, t);
      }
    }

    method CountBytes(use: DestinationsToUse, ghost t: Tx) returns (ok: bool, size: nat)
      requires State() == t && Valid() && SignedFor(t)
      ensures State() == t && Valid() && SignedFor(t)
      ensures ok <==> Writable(Outs(t, use))
      ensures ok ==> size == |SignedBytes(t, use)|
    {
      SignedAsInputs(t);
      ok, size := Count(use, SignedInputs(t), Outs(t, use));
    }

    method Count(use: DestinationsToUse, ghost inputs: seq<Input>, ghost outputs: seq<Output>)
      returns (ok: bool, size: nat)
      requires inputs == InputsOf(sources) && outputs == Outputs(use)
      ensures ok <==> Writable(outputs)
      ensures ok ==> size == |TxBytes(version, inputs, outputs, lockTime)|
    {
      var counter := new Stream(true);
      ok := SerializeTo(counter, use, inputs, outputs);
      size := counter.count;
    }

    // ---- checks ----

    method CalculateDiff(ghost t: Tx) returns (diff: int)
      requires t == State()
      ensures diff == Diff(t)
    {
      var available := 0;
      for i := 0 to |sources|
        invariant available == Inflow(t.cores[..i])
      {
        assert t.cores[..i + 1][..i] == t.cores[..i];
        available := available + sources[i].amount;
      }
      var spent := 0;
      for i := 0 to |destinations|
        invariant spent == Total(t.dests[..i])
      {
        assert t.dests[..i + 1][..i] == t.dests[..i];
        spent := spent + destinations[i].amount;
      }
      assert t.cores[..|sources|] == t.cores && t.dests[..|destinations|] == t.dests;
      diff := available - spent;
    }

    /** What leaves the wallet: everything but the change, and the fee. */
    method TotalSpent() returns (total: int)
      ensures total == Inflow(CoresOf(sources)) - ChangeTotal(DestsOf(destinations))
    {
      ghost var ds := DestsOf(destinations);
      total := 0;
      for i := 0 to |destinations|
        invariant total == Total(ds[..i]) - ChangeTotal(ds[..i])
      {
        assert ds[..i + 1][..i] == ds[..i];
        if !destinations[i].isChange {
          total := total + destinations[i].amount;
        }
      }
      assert ds[..|destinations|] == ds;
      var fee := CalculateDiff(State());
      total := total + fee;
    }

    method Verify(ghost t: Tx) returns (status: Status)
      requires Valid() && t == State()
      ensures status == Verified(t, mainnet)
    {
      if sources == [] {
        return NoSources;
      }
      if destinations == [] {
        return NoDestinations;
      }
      var diff := CalculateDiff(t);
      if diff < 0 {
        return InsufficientFunds;
      }
      var fit := CheckKeys(t.cores);
      if !fit {
        return InvalidPrivateKey;
      }
      var dust := CheckDust(t.dests);
      status := if dust then DustOutput else Ok;
    }

    method CheckKeys(ghost cores: seq<Core>) returns (fit: bool)
      requires cores == CoresOf(sources) && ScriptsKnown()
      ensures fit <==> forall i :: 0 <= i < |cores| ==> signer.owns(cores[i].key, cores[i].pubScript)
    {
      for i := 0 to |sources|
        invariant forall k :: 0 <= k < i ==> signer.owns(cores[k].key, cores[k].pubScript)
      {
        if !signer.owns(sources[i].key, sources[i].pubScript.value) {
          assert !signer.owns(cores[i].key, cores[i].pubScript);
          return false;
        }
      }
      fit := true;
    }

    /** Dust is looked for on the main network only. */
    method CheckDust(ghost dests: seq<Dest>) returns (dust: bool)
      requires dests == DestsOf(destinations)
      ensures dust <==> mainnet && AnyDust(dests)
    {
      dust := false;
      if mainnet {
        dust := FindDust(dests);
      }
    }

    method FindDust(ghost dests: seq<Dest>) returns (dust: bool)
      requires dests == DestsOf(destinations)
      ensures dust <==> AnyDust(dests)
    {
      for i := 0 to |destinations|
        invariant forall k :: 0 <= k < i ==> dests[k].isChange || dests[k].amount >= DUST_LIMIT
      {
        if !destinations[i].isChange && destinations[i].amount < DUST_LIMIT {
          assert !dests[i].isChange && dests[i].amount < DUST_LIMIT;
          return true;
        }
      }
      dust := false;
    }

    // ---- balancing ----

    /** Stopped while u was being signed: the first source has its scripts exchanged, no other one that unlocks. */
    ghost predicate Halted(u: Tx)
      reads sources, destinations
    {
      InPlace(0, u.cores) && DestsOf(destinations) == u.dests
    }

    /** The change in destination k, provided all else is as in v, which has no change there. */
    ghost function Held(v: Tx, k: nat): Option<int>
      reads sources, destinations
    {
      if Valid() && k < |destinations| && destinations[k].isChange && |v.dests| == |destinations|
         && v.dests[k].amount == 0 && State() == WithChange(v, k, destinations[k].amount) then
        Some(destinations[k].amount)
      else
        None
    }

    method SetChange(k: nat, x: int, ghost v: Tx)
      requires k < |destinations| && Held(v, k).Some?
      modifies destinations[k]
      ensures Held(v, k) == Some(x)
    {
      ChangeAgain(v, k, destinations[k].amount, x);
      SetAmount(k, x, WithChange(v, k, destinations[k].amount));
    }

    lemma ChangeAgain(v: Tx, k: nat, x: int, y: int)
      requires k < |v.dests|
      ensures WithChange(WithChange(v, k, x), k, y) == WithChange(v, k, y)
    {}

    method SetAmount(k: nat, x: int, ghost t: Tx)
      requires Valid() && k < |destinations| && destinations[k].isChange && t == State()
      modifies destinations[k]
      ensures Valid() && destinations[k].amount == x && State() == WithChange(t, k, x)
    {
      destinations[k].amount := x;
      assert CoresOf(sources) == t.cores;
      assert DestsOf(destinations) == WithChange(t, k, x).dests;
    }

    /** The fee of a signed transaction. */
    method CurrentFee(ghost t: Tx) returns (current: int)
      requires Valid() && t == State() && SignedFor(t)
      ensures Valid() && t == State() && SignedFor(t) && current == Diff(t)
    {
      current := CalculateDiff(t);
    }

    /** The size of the signed transaction, the fee it takes, and the fee there is. */
    method MeasureFee(use: DestinationsToUse, ghost t: Tx) returns (ok: bool, expected: int, current: int, ghost size: nat)
      requires Valid() && t == State()
      modifies sources
      ensures ok ==> Valid() && State() == t && SignedFor(t)
      ensures ok ==> size == |SignedBytes(t, use)| && expected == perByte * size && current == Diff(t)
      ensures ok <==> Writable(Outs(t, use)) && (sources == [] || Writable(Outs(t, PositiveOnly)))
      ensures !Writable(Outs(t, PositiveOnly)) ==> Halted(t)
    {
      var txSize;
      ok, txSize := SerializedSize(use, t);
      size := txSize;
      expected, current := 0, 0;
      if ok {
        expected := txSize * perByte;
        current := CurrentFee(t);
      }
    }

    /** Shortage by shortage, the change gives up what the fee lacks. */
    method SettleFee(k: nat, ghost v: Tx, ghost x0: int, ghost prev0: nat) returns (ok: bool)
      requires k < |destinations| && ShortSignatures(v.signer) && Held(v, k) == Some(x0)
      requires x0 == Diff(v) - perByte * prev0
      modifies sources, destinations[k]
      ensures ok <==> Writable(Outs(WithChange(v, k, x0), PositiveOnly))
      ensures ok ==> Held(v, k) == Some(RestsAt(v, k, perByte, prev0))
      ensures !ok ==> Halted(WithChange(v, k, x0))
    {
      ghost var prev, x, size := prev0, x0, 0;
      var expected, current;
      ok, expected, current, size := MeasureChange(k, v, x);
      if !ok {
        return;
      }
      while expected > current
        invariant Held(v, k) == Some(x) && Writable(Outs(WithChange(v, k, x), PositiveOnly))
        invariant x == Diff(v) - perByte * prev && size == SizeWith(v, k, x)
        invariant expected == perByte * size && current == Diff(v) - x
        invariant RestsAt(v, k, perByte, prev) == RestsAt(v, k, perByte, prev0)
        decreases SizeBound(v) - prev
      {
        RestsOrGrows(v, k, perByte, prev, x, size);
        prev := size;
        expected, current, x, size := StepFee(k, expected, current, v, x, prev);
      }
      RestsOrGrows(v, k, perByte, prev, x, size);
    }

    /** One shortage: the fee now pays for `prev` bytes, and only a longer transaction needs more. */
    method StepFee(k: nat, expected0: int, current0: int, ghost v: Tx, ghost x0: int, ghost prev: nat)
      returns (expected: int, current: int, ghost x: int, ghost size: nat)
      requires k < |destinations| && ShortSignatures(v.signer) && Held(v, k) == Some(x0)
      requires expected0 == perByte * prev && current0 == Diff(v) - x0 && expected0 > current0
      requires Writable(Outs(WithChange(v, k, x0), PositiveOnly))
      modifies sources, destinations[k]
      ensures Held(v, k) == Some(x) && x == Diff(v) - perByte * prev && x < x0
      ensures Writable(Outs(WithChange(v, k, x), PositiveOnly))
      ensures size == SizeWith(v, k, x) && expected == perByte * size && current == Diff(v) - x
      ensures expected > current ==> prev < size <= SizeBound(v)
    {
      x := Lower(k, current0 - expected0, v, x0);
      var ok;
      ok, expected, current, size := MeasureChange(k, v, x);
      RestsOrGrows(v, k, perByte, prev, x, size);
    }

    method Lower(k: nat, loss: int, ghost v: Tx, ghost x0: int) returns (ghost x: int)
      requires k < |destinations| && Held(v, k) == Some(x0) && loss < 0
      requires Writable(Outs(WithChange(v, k, x0), PositiveOnly))
      modifies destinations[k]
      ensures x == x0 + loss && Held(v, k) == Some(x) && Writable(Outs(WithChange(v, k, x), PositiveOnly))
    {
      x := x0 + loss;
      SetChange(k, destinations[k].amount + loss, v);
      LowerWritable(v, k, x0, x);
    }

    /** The fee with the change as it stands. */
    method MeasureChange(k: nat, ghost v: Tx, ghost x: int)
      returns (ok: bool, expected: int, current: int, ghost size: nat)
      requires k < |destinations| && Held(v, k) == Some(x)
      modifies sources
      ensures ok <==> Writable(Outs(WithChange(v, k, x), PositiveOnly))
      ensures ok ==> Held(v, k) == Some(x)
      ensures ok ==> size == SizeWith(v, k, x) && expected == perByte * size && current == Diff(v) - x
      ensures !ok ==> Halted(WithChange(v, k, x))
    {
      ok, expected, current, size := MeasureFee(PositiveOnly, WithChange(v, k, x));
      DiffWith(v, k, x);
    }

    /** The fee when the change output is written with nothing in it. */
    method MeasureFirst(k: nat, ghost v: Tx) returns (ok: bool, remainder: int, ghost first: nat)
      requires k < |destinations| && Held(v, k).Some?
      modifies sources, destinations[k]
      ensures ok <==> Writable(Outs(v, WithNonpositiveChange))
      ensures ok ==> Held(v, k) == Some(0)
      ensures ok ==> first == |SignedBytes(v, WithNonpositiveChange)|
      ensures ok ==> remainder == Diff(v) - perByte * first == Remainder(v, perByte)
      ensures !ok && Sole(v.dests, k) ==> Halted(v)
    {
      SetChange(k, 0, v);
      assert WithChange(v, k, 0) == v;
      WritableUses(v, k);
      var expected, current;
      ok, expected, current, first := MeasureFee(WithNonpositiveChange, v);
      remainder := current - expected;
    }

    /** The change takes what the fee leaves, and is dropped when it turns out to be dust. */
    method AddChange(k: nat, remainder: int, ghost v: Tx, ghost first: nat) returns (ok: bool)
      requires k < |destinations| && ShortSignatures(v.signer) && Held(v, k) == Some(0)
      requires remainder == Diff(v) - perByte * first
      modifies sources, destinations[k]
      ensures ok <==> Writable(Outs(WithChange(v, k, remainder), PositiveOnly))
      ensures ok ==> Held(v, k) == Some(NoDust(RestsAt(v, k, perByte, first)))
      ensures !ok ==> Halted(WithChange(v, k, remainder))
    {
      SetChange(k, destinations[k].amount + remainder, v);
      ok := SettleFee(k, v, remainder, first);
      if ok {
        DropDust(k, v);
      }
    }

    method DropDust(k: nat, ghost v: Tx)
      requires k < |destinations| && Held(v, k).Some?
      modifies destinations[k]
      ensures Held(v, k) == Some(NoDust(old(Held(v, k)).value))
    {
      if destinations[k].amount < DUST_LIMIT {
        SetChange(k, 0, v);
      }
    }

    /** The change starts from nothing, and gets what the fee leaves unless that is dust. */
    method Balance(k: nat, ghost v: Tx) returns (ok: bool)
      requires k < |destinations| && ShortSignatures(v.signer) && Held(v, k).Some?
      modifies sources, destinations[k]
      ensures ok <==> Room(v, perByte)
      ensures ok ==> Held(v, k) == Some(SettledChange(v, k, perByte))
      ensures ok ==> FairChange(v, k, Held(v, k).value, perByte)
      ensures !ok && Sole(v.dests, k) ==> Halted(FirstMeasured(v, k, perByte))
    {
      var remainder;
      ghost var first;
      SettledIsFair(v, k, perByte);
      ok, remainder, first := MeasureFirst(k, v);
      if ok {
        FirstDecides(v, k, perByte, remainder);
        SettledChangeIs(v, k, perByte, first);
        if remainder >= DUST_LIMIT {
          ok := AddChange(k, remainder, v, first);
        }
      }
    }

    method MarkSequences(sequence: int, ghost cores: seq<Core>)
      requires Has(cores) && DistinctSources()
      modifies sources
      ensures Has(SequencedCores(cores, sequence))
    {
      for k := 0 to |sources|
        invariant ScriptsKnown()
        invariant forall j :: 0 <= j < |sources| ==>
          sources[j].AsCore() == if j < k then cores[j].(sequence := sequence) else cores[j]
      {
        sources[k].sequence := sequence;
      }
    }

    method SetSequences(ghost t: Tx)
      requires Valid() && t == State()
      modifies sources
      ensures Valid() && State() == Sequenced(t, SequenceNumber())
    {
      MarkSequences(SequenceNumber(), t.cores);
      StateKept(Sequenced(t, SequenceNumber()));
    }

    /** The number of change destinations, and the last one. */
    method FindChange(ghost ds: seq<Dest>) returns (count: nat, k: nat)
      requires ds == DestsOf(destinations)
      ensures count == ChangeCount(ds) && (count > 0 ==> k == ChangeIndex(ds))
    {
      count, k := 0, 0;
      for i := 0 to |destinations|
        invariant count == ChangeCount(ds[..i]) && (count > 0 ==> k == ChangeIndex(ds[..i]))
      {
        assert ds[..i + 1][..i] == ds[..i];
        if destinations[i].isChange {
          k := i;
          count := count + 1;
        }
      }
      assert ds[..|destinations|] == ds;
    }

    /** Fee and outputs as the balanced transaction has them. */
    method CheckOutcome(ghost t: Tx) returns (status: Status)
      requires Valid() && t == State()
      modifies sources
      ensures status != AmountTooBig ==> Valid() && State() == t && SignedFor(t) && status == Outcome(t, perByte)
      ensures status == AmountTooBig <==> !Writable(Outs(t, PositiveOnly))
      ensures status == AmountTooBig ==> Halted(t)
    {
      var ok, expected, current;
      ghost var size;
      ok, expected, current, size := MeasureFee(PositiveOnly, t);
      status := AmountTooBig;
      if ok {
        status := Decide(t, expected, current);
      }
    }

    method Decide(ghost t: Tx, expected: int, current: int) returns (status: Status)
      requires t == State()
      requires expected == perByte * |SignedBytes(t, PositiveOnly)| && current == Diff(t)
      ensures status == Outcome(t, perByte) && status != AmountTooBig
    {
      var none := NothingWritten(t);
      status := if current < expected then FeeTooLow else if none then NothingToPay else Ok;
    }

    method NothingWritten(ghost t: Tx) returns (none: bool)
      requires t == State()
      ensures none == (Outs(t, PositiveOnly) == [])
    {
      var outs := NonZeroDestinations(PositiveOnly);
      none := |outs| == 0;
    }

    /** The change destination, if there is one, is balanced. */
    method BalanceAny(ghost t: Tx) returns (status: Status)
      requires Valid() && t == State()
      modifies sources, destinations
      ensures ChangeCount(t.dests) > 1 <==> status == TooManyChangeDestinations
      ensures status == TooManyChangeDestinations ==> State() == t
      ensures status == Ok || status == AmountTooBig || status == TooManyChangeDestinations
      ensures status == Ok ==> Valid() && State() == Balanced(t, perByte)
      ensures status == AmountTooBig <==> Blocked(t, perByte).Some?
      ensures status == AmountTooBig ==> Halted(Blocked(t, perByte).value)
    {
      var count, k := FindChange(t.dests);
      if count > 1 {
        return TooManyChangeDestinations;
      }
      var ok := BalanceFound(count, k, t);
      status := if ok then Ok else AmountTooBig;
    }

    method BalanceFound(count: nat, k: nat, ghost t: Tx) returns (ok: bool)
      requires Valid() && t == State() && count == ChangeCount(t.dests) <= 1 && (count > 0 ==> k == ChangeIndex(t.dests))
      modifies sources, destinations
      ensures ok ==> Valid() && State() == Balanced(t, perByte)
      ensures ok <==> Blocked(t, perByte).None?
      ensures !ok ==> Halted(Blocked(t, perByte).value)
    {
      ok := true;
      if count == 1 {
        ok := BalanceOne(k, t);
      }
    }

    method BalanceOne(k: nat, ghost t: Tx) returns (ok: bool)
      requires Valid() && t == State() && ChangeCount(t.dests) == 1 && k == ChangeIndex(t.dests)
      modifies sources, destinations
      ensures ok <==> Room(WithChange(t, k, 0), perByte)
      ensures ok ==> Valid() && State() == Balanced(t, perByte)
      ensures !ok ==> Halted(FirstMeasured(WithChange(t, k, 0), k, perByte))
    {
      HeldItself(t, k);
      SoleChange(t, k);
      ok := Balance(k, WithChange(t, k, 0));
      if ok {
        HeldBalanced(t, k);
      }
    }

    /** The transaction is the one without its change, and that change. */
    lemma HeldItself(t: Tx, k: nat)
      requires Valid() && t == State() && k < |t.dests| && t.dests[k].isChange
      ensures Held(WithChange(t, k, 0), k) == Some(t.dests[k].amount)
    {
      assert destinations[k].AsDest() == t.dests[k];
      ChangeTwice(t, k, t.dests[k].amount);
    }

    lemma HeldBalanced(t: Tx, k: nat)
      requires ShortSignatures(t.signer) && ChangeCount(t.dests) > 0 && k == ChangeIndex(t.dests)
      requires Held(WithChange(t, k, 0), k) == Some(FinalChange(t, k, perByte))
      ensures Valid() && State() == Balanced(t, perByte)
    {
      ChangeTwice(t, k, FinalChange(t, k, perByte));
    }

    /**
     Makes the transaction ready: checks it, marks the inputs, settles change and fee, signs it.
     An amount beyond 64 bits stops it; which amounts do, and what is left then, is said exactly.
     */
    method Update(ghost t: Tx) returns (status: Status)
      requires Valid() && t == State()
      modifies sources, destinations
      ensures Verified(t, mainnet) != Ok ==> status == Verified(t, mainnet) && State() == t
      ensures Verified(t, mainnet) == Ok && ChangeCount(t.dests) > 1 ==>
        status == TooManyChangeDestinations && State() == Sequenced(t, SequenceNumber())
      ensures Verified(t, mainnet) == Ok && ChangeCount(t.dests) <= 1 && status != AmountTooBig ==>
        var u := Balanced(Sequenced(t, SequenceNumber()), perByte);
        Valid() && State() == u && SignedFor(u) && Writable(Outs(u, PositiveOnly)) && status == Outcome(u, perByte)
      ensures status == Ok && ChangeCount(t.dests) > 0 ==>
        && (exists n: nat :: LeavesChange(Sequenced(t, SequenceNumber()), State(), perByte, n))
        && Diff(State()) <= perByte * SizeBound(State()) + 545
      ensures status == AmountTooBig <==> Stops(t)
      ensures status == AmountTooBig ==> Halted(Stopped(Sequenced(t, SequenceNumber()), perByte))
    {
      status := Verify(t);
      if status != Ok {
        return;
      }
      SetSequences(t);
      ghost var s := Sequenced(t, SequenceNumber());
      if ChangeCount(s.dests) > 0 {
        ghost var n := BalancedLeaves(s, perByte);
        FeeBounded(s, perByte);
      }
      status := Settle(s);
    }

    /** The checked transaction, with its sequence numbers set. */
    method Settle(ghost s: Tx) returns (status: Status)
      requires Valid() && s == State()
      modifies sources, destinations
      ensures ChangeCount(s.dests) > 1 ==> status == TooManyChangeDestinations && State() == s
      ensures ChangeCount(s.dests) <= 1 && status != AmountTooBig ==>
        var u := Balanced(s, perByte);
        Valid() && State() == u && SignedFor(u) && Writable(Outs(u, PositiveOnly)) && status == Outcome(u, perByte)
      ensures status == AmountTooBig <==> ChangeCount(s.dests) <= 1 && TooBig(s, perByte)
      ensures status == AmountTooBig ==> Halted(Stopped(s, perByte))
    {
      StopsWhere(s);
      StoppedIs(s);
      status := BalanceAny(s);
      if status == Ok {
        status := CheckOutcome(State());
      }
    }

    /** A transaction that passes the checks at the start and has an amount beyond 64 bits. */
    ghost predicate Stops(t: Tx) {
      && Verified(t, mainnet) == Ok && ChangeCount(t.dests) <= 1
      && TooBig(Sequenced(t, SequenceNumber()), perByte)
    }

    lemma StopsWhere(s: Tx)
      requires Wellformed() && Settable(s) && ShortSignatures(s.signer)
      ensures ChangeCount(s.dests) == 0 ==> (TooBig(s, perByte) <==> !Writable(Outs(Balanced(s, perByte), PositiveOnly)))
      ensures ChangeCount(s.dests) == 1 ==>
        && (TooBig(s, perByte) <==> Blocked(s, perByte).Some?)
        && (!TooBig(s, perByte) ==> Writable(Outs(Balanced(s, perByte), PositiveOnly)))
    {
      if ChangeCount(s.dests) == 0 {
        TooBigWithoutChange(s, perByte);
      } else if ChangeCount(s.dests) == 1 {
        TooBigWithChange(s, perByte);
        if !TooBig(s, perByte) {
          BalancedWritable(s, perByte);
        }
      }
    }

    lemma StoppedIs(s: Tx)
      requires Settable(s) && ShortSignatures(s.signer)
      ensures ChangeCount(s.dests) == 0 ==> Stopped(s, perByte) == s == Balanced(s, perByte)
      ensures Blocked(s, perByte).Some? ==> Stopped(s, perByte) == Blocked(s, perByte).value
    {
      if ChangeCount(s.dests) == 1 {
        FirstWritable(s);
      }
    }

    function SequenceNumber(): int {
      if byFeeReplaceable then SEQUENCE_REPLACEABLE else SEQUENCE_FINAL
    }

    /** A transaction can be replaced when a sequence number is below 0xfffffffe (BIP-125). */
    lemma SequenceNumberIs()
      ensures SequenceNumber() == if byFeeReplaceable then 0xffff_fffd else 0xffff_ffff
    {
    }

    /** The signed bytes of an updated transaction: as many as its fee was checked for. */
    method Serialize(ghost t: Tx) returns (status: Status, data: Bytes)
      requires Valid() && t == State()
      modifies sources, destinations
      ensures status == Ok ==>
        var u := Balanced(Sequenced(t, SequenceNumber()), perByte);
        State() == u && data == SignedBytes(u, PositiveOnly) && perByte * |data| <= Diff(u)
    {
      status := Update(t);
      data := [];
      if status == Ok {
        data := WriteSigned(State());
      }
    }

    method WriteSigned(ghost u: Tx) returns (data: Bytes)
      requires Valid() && u == State() && Writable(Outs(u, PositiveOnly))
      modifies sources
      ensures State() == u && data == SignedBytes(u, PositiveOnly)
    {
      var signed := Sign(u);
      SignedAsInputs(u);
      data := WriteData(SignedInputs(u), Outs(u, PositiveOnly));
    }

    method WriteData(ghost inputs: seq<Input>, ghost outputs: seq<Output>) returns (data: Bytes)
      requires inputs == InputsOf(sources) && outputs == Outputs(PositiveOnly) && Writable(outputs)
      ensures data == TxBytes(version, inputs, outputs, lockTime)
    {
      var stream := new Stream(false);
      var ok := SerializeTo(stream, PositiveOnly, inputs, outputs);
      data := stream.data;
    }

    /** Updating once more after a success succeeds and changes nothing. */
    method UpdateTwice(ghost t: Tx) returns (first: Status, second: Status)
      requires Valid() && t == State()
      modifies sources, destinations
      ensures first == Ok ==> second == Ok && State() == Balanced(Sequenced(t, SequenceNumber()), perByte)
    {
      first := Update(t);
      second := first;
      if first == Ok {
        second := UpdateAgain(t, State());
      }
    }

    method UpdateAgain(ghost t: Tx, ghost u: Tx) returns (status: Status)
      requires Valid() && u == State() && t.signer == signer
      requires Verified(t, mainnet) == Ok && ChangeCount(t.dests) <= 1 && !Stops(t)
      requires u == Balanced(Sequenced(t, SequenceNumber()), perByte) && Outcome(u, perByte) == Ok
      modifies sources, destinations
      ensures status == Ok && State() == u
    {
      SettledForGood(t, SequenceNumber(), perByte, mainnet);
      status := Update(u);
    }
  }
}
