/**
 Bitcoin transactions as values: their wire form, what is signed, and the change that
 settles the fee. Signatures are an unknown function of key and message with results of
 at most 72 bytes.
 */
module BitcoinModel {
  import opened Arith
  import opened Numerals
  import opened BitcoinStream
  import opened FeeFixpoint
  import opened Wrappers

  const MAX_SIGNATURE: nat := 72
  const DUST_LIMIT: int := 182 * 3

  datatype Input = Input(hash: Bytes, index: int, script: Option<Bytes>, sequence: int)
  datatype Output = Output(amount: int, script: Bytes)

  /** An input before it is signed: `pubScript` is the script of the output it spends. */
  datatype Core = Core(hash: Bytes, index: int, sequence: int, pubScript: Bytes, key: nat, amount: int)

  datatype Dest = Dest(amount: int, isChange: bool, script: Bytes)

  /** The signing primitives: signature, public key, and whether a key may spend a script. */
  datatype Signer = Signer(sign: (nat, Bytes) -> Bytes, publicKey: nat -> Bytes, owns: (nat, Bytes) -> bool)

  datatype Tx = Tx(signer: Signer, version: int, cores: seq<Core>, message: seq<Output>, dests: seq<Dest>, lockTime: int)

  /** Whether a change output counts even when it is not positive. */
  datatype DestinationsToUse = PositiveOnly | WithNonpositiveChange

  ghost predicate ShortSignatures(signer: Signer) {
    forall key: nat, message: Bytes :: |signer.sign(key, message)| <= MAX_SIGNATURE
  }

  // ---- the wire form ----

  function InputBytes(i: Input): Bytes {
    Backwards(i.hash) + LittleEndian(i.index, 4)
    + CompactBytes(if i.script.Some? then i.script.value else []) + LittleEndian(i.sequence, 4)
  }

  function OutputBytes(o: Output): Bytes {
    LittleEndian(o.amount, 8) + CompactBytes(o.script)
  }

  function InputsBytes(inputs: seq<Input>): Bytes {
    if inputs == [] then [] else InputsBytes(inputs[..|inputs| - 1]) + InputBytes(inputs[|inputs| - 1])
  }

  function OutputsBytes(outputs: seq<Output>): Bytes {
    if outputs == [] then [] else OutputsBytes(outputs[..|outputs| - 1]) + OutputBytes(outputs[|outputs| - 1])
  }

  function TxBytes(version: int, inputs: seq<Input>, outputs: seq<Output>, lockTime: int): Bytes {
    LittleEndian(version, 4) + (CompactSize(|inputs|) + InputsBytes(inputs))
    + (CompactSize(|outputs|) + OutputsBytes(outputs)) + LittleEndian(lockTime, 4)
  }

  /** A destination is written when its amount is positive, or when it is the change and change is wanted. */
  predicate Kept(d: Dest, use: DestinationsToUse) {
    d.amount > 0 || (use == WithNonpositiveChange && d.isChange)
  }

  function Picked(message: seq<Output>, dests: seq<Dest>, use: DestinationsToUse): seq<Output> {
    if dests == [] then message
    else
      var d := dests[|dests| - 1];
      Picked(message, dests[..|dests| - 1], use) + if Kept(d, use) then [Output(d.amount, d.script)] else []
  }

  function Outs(t: Tx, use: DestinationsToUse): seq<Output> {
    Picked(t.message, t.dests, use)
  }

  // ---- signing ----

  /** What is signed for input i: the transaction with only the script of input i filled in. */
  function PreimageInputs(cores: seq<Core>, i: nat): seq<Input> {
    seq(|cores|, k requires 0 <= k < |cores| =>
      Input(cores[k].hash, cores[k].index, if k == i then Some(cores[k].pubScript) else None, cores[k].sequence))
  }

  function Preimage(t: Tx, i: nat): Bytes {
    TxBytes(t.version, PreimageInputs(t.cores, i), Outs(t, PositiveOnly), t.lockTime) + LittleEndian(1, 4)
  }

  /** The script that unlocks an input: signature with its hash type, and public key. */
  function SigScript(signer: Signer, key: nat, preimage: Bytes): Bytes {
    var signature, publicKey := signer.sign(key, preimage), signer.publicKey(key);
    CompactSize(|signature| + 1) + signature + LittleEndian(1, 1) + CompactBytes(publicKey)
  }

  function ScriptFor(t: Tx, i: nat): Bytes
    requires i < |t.cores|
  {
    SigScript(t.signer, t.cores[i].key, Preimage(t, i))
  }

  function SignedInputs(t: Tx): seq<Input> {
    seq(|t.cores|, i requires 0 <= i < |t.cores| =>
      Input(t.cores[i].hash, t.cores[i].index, Some(ScriptFor(t, i)), t.cores[i].sequence))
  }

  /** The signed transaction; the signatures always cover the positive outputs only. */
  function SignedBytes(t: Tx, use: DestinationsToUse): Bytes {
    TxBytes(t.version, SignedInputs(t), Outs(t, use), t.lockTime)
  }

  // ---- the size is bounded, whatever the amounts ----

  function InputBound(signer: Signer, c: Core): nat {
    |c.hash| + 4 + 9 + (9 + MAX_SIGNATURE + 1 + 9 + |signer.publicKey(c.key)|) + 4
  }

  function InputsBound(signer: Signer, cores: seq<Core>): nat {
    if cores == [] then 0 else InputsBound(signer, cores[..|cores| - 1]) + InputBound(signer, cores[|cores| - 1])
  }

  function DestsBound(dests: seq<Dest>): nat {
    if dests == [] then 0 else DestsBound(dests[..|dests| - 1]) + 17 + |dests[|dests| - 1].script|
  }

  function SizeBound(t: Tx): nat {
    4 + 9 + InputsBound(t.signer, t.cores) + 9 + |OutputsBytes(t.message)| + DestsBound(t.dests) + 4
  }

  lemma {:induction false} InputsWithin(t: Tx, inputs: seq<Input>, n: nat)
    requires ShortSignatures(t.signer) && n <= |t.cores| && inputs == SignedInputs(t)[..n]
    ensures |InputsBytes(inputs)| <= InputsBound(t.signer, t.cores[..n])
    decreases n
  {
    if n > 0 {
      assert inputs[..n - 1] == SignedInputs(t)[..n - 1] && t.cores[..n][..n - 1] == t.cores[..n - 1];
      InputsWithin(t, inputs[..n - 1], n - 1);
      assert |ScriptFor(t, n - 1)| <= 9 + MAX_SIGNATURE + 1 + 9 + |t.signer.publicKey(t.cores[n - 1].key)|;
    }
  }

  lemma {:induction false} OutputsWithin(message: seq<Output>, dests: seq<Dest>, use: DestinationsToUse)
    ensures |OutputsBytes(Picked(message, dests, use))| <= |OutputsBytes(message)| + DestsBound(dests)
  {
    if dests != [] {
      var d := dests[|dests| - 1];
      var o := Picked(message, dests[..|dests| - 1], use);
      OutputsWithin(message, dests[..|dests| - 1], use);
      if Kept(d, use) {
        assert (o + [Output(d.amount, d.script)])[..|o|] == o;
      } else {
        assert o + [] == o;
      }
    }
  }

  lemma SizeWithin(t: Tx, use: DestinationsToUse)
    requires ShortSignatures(t.signer)
    ensures |SignedBytes(t, use)| <= SizeBound(t)
  {
    assert SignedInputs(t)[..|t.cores|] == SignedInputs(t) && t.cores[..|t.cores|] == t.cores;
    InputsWithin(t, SignedInputs(t), |t.cores|);
    OutputsWithin(t.message, t.dests, use);
  }

  // ---- amounts ----

  function Inflow(cores: seq<Core>): int {
    if cores == [] then 0 else Inflow(cores[..|cores| - 1]) + cores[|cores| - 1].amount
  }

  function Total(dests: seq<Dest>): int {
    if dests == [] then 0 else Total(dests[..|dests| - 1]) + dests[|dests| - 1].amount
  }

  function ChangeTotal(dests: seq<Dest>): int {
    if dests == [] then 0
    else ChangeTotal(dests[..|dests| - 1]) + if dests[|dests| - 1].isChange then dests[|dests| - 1].amount else 0
  }

  function Paid(outputs: seq<Output>): int {
    if outputs == [] then 0 else Paid(outputs[..|outputs| - 1]) + outputs[|outputs| - 1].amount
  }

  /** What the inputs hold beyond what the destinations receive: the fee. */
  function Diff(t: Tx): int {
    Inflow(t.cores) - Total(t.dests)
  }

  predicate NonNegative(dests: seq<Dest>) {
    forall i :: 0 <= i < |dests| ==> 0 <= dests[i].amount
  }

  /** Conservation: what goes in is what the written outputs pay plus the fee. */
  lemma {:induction false} PickedPays(message: seq<Output>, dests: seq<Dest>)
    requires NonNegative(dests)
    ensures Paid(Picked(message, dests, PositiveOnly)) == Paid(message) + Total(dests)
  {
    if dests != [] {
      var d := dests[|dests| - 1];
      var o := Picked(message, dests[..|dests| - 1], PositiveOnly);
      PickedPays(message, dests[..|dests| - 1]);
      if Kept(d, PositiveOnly) {
        assert (o + [Output(d.amount, d.script)])[..|o|] == o;
      } else {
        assert o + [] == o;
      }
    }
  }

  lemma Conservation(t: Tx)
    requires NonNegative(t.dests) && Paid(t.message) == 0
    ensures Inflow(t.cores) == Paid(Outs(t, PositiveOnly)) + Diff(t)
  {
    PickedPays(t.message, t.dests);
  }

  // ---- checks before balancing ----

  datatype Status = Ok | NoSources | NoDestinations | InsufficientFunds | InvalidPrivateKey | DustOutput
                  | TooManyChangeDestinations | FeeTooLow | NothingToPay | AmountTooBig

  predicate KeysFit(t: Tx) {
    forall i :: 0 <= i < |t.cores| ==> t.signer.owns(t.cores[i].key, t.cores[i].pubScript)
  }

  predicate AnyDust(dests: seq<Dest>) {
    exists i :: 0 <= i < |dests| && !dests[i].isChange && dests[i].amount < DUST_LIMIT
  }

  function Verified(t: Tx, mainnet: bool): Status {
    if t.cores == [] then NoSources
    else if t.dests == [] then NoDestinations
    else if Diff(t) < 0 then InsufficientFunds
    else if !KeysFit(t) then InvalidPrivateKey
    else if mainnet && AnyDust(t.dests) then DustOutput
    else Ok
  }

  /** What passes the checks: funds for what is paid, keys that fit, and on the main net no payment below 546. */
  lemma VerifiedExactly(t: Tx, mainnet: bool)
    ensures Verified(t, mainnet) == Ok <==>
      && |t.cores| > 0 && |t.dests| > 0 && Total(t.dests) <= Inflow(t.cores)
      && (forall i :: 0 <= i < |t.cores| ==> t.signer.owns(t.cores[i].key, t.cores[i].pubScript))
      && (mainnet ==> forall i :: 0 <= i < |t.dests| ==> t.dests[i].isChange || 546 <= t.dests[i].amount)
    ensures Verified(t, mainnet) == InsufficientFunds <==>
      |t.cores| > 0 && |t.dests| > 0 && Inflow(t.cores) < Total(t.dests)
  {
  }

  // ---- the change ----

  function WithChange(t: Tx, k: nat, x: int): Tx
    requires k < |t.dests|
  {
    t.(dests := t.dests[k := t.dests[k].(amount := x)])
  }

  lemma ChangeTwice(t: Tx, k: nat, x: int)
    requires k < |t.dests|
    ensures WithChange(WithChange(t, k, 0), k, x) == WithChange(t, k, x)
    ensures x == t.dests[k].amount ==> WithChange(t, k, x) == t
  {}

  lemma {:induction false} TotalWith(dests: seq<Dest>, k: nat, x: int)
    requires k < |dests|
    ensures Total(dests[k := dests[k].(amount := x)]) == Total(dests) - dests[k].amount + x
  {
    var s := dests[k := dests[k].(amount := x)];
    var n := |dests| - 1;
    if k < n {
      assert s[..n] == dests[..n][k := dests[k].(amount := x)];
      TotalWith(dests[..n], k, x);
    } else {
      assert s[..n] == dests[..n];
    }
  }

  lemma {:induction false} BoundWith(dests: seq<Dest>, k: nat, x: int)
    requires k < |dests|
    ensures DestsBound(dests[k := dests[k].(amount := x)]) == DestsBound(dests)
  {
    var s := dests[k := dests[k].(amount := x)];
    var n := |dests| - 1;
    if k < n {
      assert s[..n] == dests[..n][k := dests[k].(amount := x)];
      BoundWith(dests[..n], k, x);
    } else {
      assert s[..n] == dests[..n];
    }
  }

  /** The change takes from the fee what it gains. */
  lemma DiffWith(t: Tx, k: nat, x: int)
    requires k < |t.dests|
    ensures Diff(WithChange(t, k, x)) == Diff(WithChange(t, k, 0)) - x
    ensures Diff(WithChange(t, k, x)) == Diff(t) + t.dests[k].amount - x
  {
    TotalWith(t.dests, k, x);
    TotalWith(t.dests, k, 0);
  }

  function SizeWith(t: Tx, k: nat, x: int): nat
    requires k < |t.dests|
  {
    |SignedBytes(WithChange(t, k, x), PositiveOnly)|
  }

  lemma SizeWithWithin(t: Tx, k: nat, x: int)
    requires k < |t.dests| && ShortSignatures(t.signer)
    ensures SizeWith(t, k, x) <= SizeBound(t)
  {
    SizeWithin(WithChange(t, k, x), PositiveOnly);
    BoundWith(t.dests, k, x);
  }

  /** How the change determines the size of the signed transaction. */
  ghost function SizeOf(t: Tx, k: nat): int -> nat
    requires k < |t.dests|
  {
    x => SizeWith(t, k, x)
  }

  lemma SizeBounded(t: Tx, k: nat)
    requires k < |t.dests| && ShortSignatures(t.signer)
    ensures Bounded(SizeOf(t, k), SizeBound(t))
  {
    forall x ensures SizeOf(t, k)(x) <= SizeBound(t) {
      SizeWithWithin(t, k, x);
    }
  }

  /** Where the change comes to rest when the fee pays for n bytes. */
  ghost function RestsAt(v: Tx, k: nat, perByte: int, n: nat): int
    requires k < |v.dests| && ShortSignatures(v.signer)
  {
    SizeBounded(v, k);
    Settled(SizeOf(v, k), SizeBound(v), perByte, Diff(v), n)
  }

  /** A change that leaves a fee for prev bytes rests unless the transaction is longer; then its length counts. */
  lemma RestsOrGrows(v: Tx, k: nat, perByte: int, prev: nat, x: int, size: nat)
    requires k < |v.dests| && ShortSignatures(v.signer) && 0 <= perByte
    requires x == Diff(v) - perByte * prev && size == SizeWith(v, k, x)
    ensures perByte * size > Diff(v) - x ==>
      prev < size <= SizeBound(v) && RestsAt(v, k, perByte, prev) == RestsAt(v, k, perByte, size)
    ensures perByte * size <= Diff(v) - x ==> RestsAt(v, k, perByte, prev) == x
  {
    SizeBounded(v, k);
    SettledStep(SizeOf(v, k), SizeBound(v), perByte, Diff(v), prev, x, size);
  }

  /** A change that would be dust is dropped. */
  function NoDust(x: int): int {
    if x < DUST_LIMIT then 0 else x
  }

  /** The change of a transaction that has none yet, when the fee is settled. */
  ghost function SettledChange(v: Tx, k: nat, perByte: int): int
    requires k < |v.dests| && ShortSignatures(v.signer)
  {
    SizeBounded(v, k);
    Final(SizeOf(v, k), SizeBound(v), perByte, Diff(v), |SignedBytes(v, WithNonpositiveChange)|, DUST_LIMIT)
  }

  lemma SettledChangeIs(v: Tx, k: nat, perByte: int, first: nat)
    requires k < |v.dests| && ShortSignatures(v.signer) && first == |SignedBytes(v, WithNonpositiveChange)|
    ensures SettledChange(v, k, perByte)
         == if Remainder(v, perByte) < DUST_LIMIT then 0 else NoDust(RestsAt(v, k, perByte, first))
  {
    SizeBounded(v, k);
  }

  /** The change there was before is taken out first. */
  ghost function FinalChange(t: Tx, k: nat, perByte: int): int
    requires k < |t.dests| && ShortSignatures(t.signer)
  {
    SettledChange(WithChange(t, k, 0), k, perByte)
  }

  lemma FinalChangeFresh(t: Tx, k: nat, perByte: int, x: int)
    requires k < |t.dests| && ShortSignatures(t.signer)
    ensures FinalChange(WithChange(t, k, x), k, perByte) == FinalChange(t, k, perByte)
  {
    assert WithChange(WithChange(t, k, x), k, 0) == WithChange(t, k, 0);
  }

  // ---- amounts that can be written ----

  const UINT64: int := 0x1_0000_0000_0000_0000

  /** Every amount fits the 64 bits it is written in. */
  predicate Writable(outputs: seq<Output>) {
    forall i :: 0 <= i < |outputs| ==> 0 <= outputs[i].amount < UINT64
  }

  /** What it takes of a destination: a change that is always written must not be negative. */
  predicate Fits64(d: Dest, use: DestinationsToUse) {
    d.amount < UINT64 && (use == WithNonpositiveChange && d.isChange ==> 0 <= d.amount)
  }

  lemma {:induction false} PickedWritable(message: seq<Output>, dests: seq<Dest>, use: DestinationsToUse)
    ensures Writable(Picked(message, dests, use)) <==>
            Writable(message) && forall i :: 0 <= i < |dests| ==> Fits64(dests[i], use)
  {
    if dests != [] {
      var n := |dests| - 1;
      var o, d := Picked(message, dests[..n], use), dests[n];
      PickedWritable(message, dests[..n], use);
      if Kept(d, use) {
        WritableSnoc(o, Output(d.amount, d.script));
      } else {
        assert o + [] == o;
      }
      assert (forall i :: 0 <= i < |dests| ==> Fits64(dests[i], use)) <==>
             (forall i :: 0 <= i < n ==> Fits64(dests[..n][i], use)) && Fits64(d, use);
    }
  }

  lemma WritableSnoc(outputs: seq<Output>, o: Output)
    ensures Writable(outputs + [o]) <==> Writable(outputs) && 0 <= o.amount < UINT64
  {
    if Writable(outputs + [o]) {
      assert (outputs + [o])[|outputs|] == o;
      forall i | 0 <= i < |outputs| ensures 0 <= outputs[i].amount < UINT64 {
        assert (outputs + [o])[i] == outputs[i];
      }
    }
  }

  /** No other destination than k is a change. */
  predicate Sole(dests: seq<Dest>, k: nat) {
    forall i :: 0 <= i < |dests| && dests[i].isChange ==> i == k
  }

  /** More is written when the change always is; but an empty change, if it is the only one, always can be. */
  lemma WritableUses(v: Tx, k: nat)
    ensures Writable(Outs(v, WithNonpositiveChange)) ==> Writable(Outs(v, PositiveOnly))
    ensures Sole(v.dests, k) && k < |v.dests| && v.dests[k].amount == 0 && Writable(Outs(v, PositiveOnly)) ==>
      Writable(Outs(v, WithNonpositiveChange))
  {
    PickedWritable(v.message, v.dests, WithNonpositiveChange);
    PickedWritable(v.message, v.dests, PositiveOnly);
    if Writable(Outs(v, WithNonpositiveChange)) {
      forall i | 0 <= i < |v.dests| ensures Fits64(v.dests[i], PositiveOnly) {
        assert Fits64(v.dests[i], WithNonpositiveChange);
      }
    }
    if Sole(v.dests, k) && k < |v.dests| && v.dests[k].amount == 0 && Writable(Outs(v, PositiveOnly)) {
      forall i | 0 <= i < |v.dests| ensures Fits64(v.dests[i], WithNonpositiveChange) {
        assert Fits64(v.dests[i], PositiveOnly);
      }
    }
  }

  /** With all else writable, a change can be written exactly when it is below 2^64. */
  lemma ChangeWritable(v: Tx, k: nat, x: int)
    requires k < |v.dests| && Writable(Outs(v, WithNonpositiveChange))
    ensures Writable(Outs(WithChange(v, k, x), PositiveOnly)) <==> x < UINT64
  {
    var t := WithChange(v, k, x);
    PickedWritable(v.message, v.dests, WithNonpositiveChange);
    PickedWritable(t.message, t.dests, PositiveOnly);
    forall i | 0 <= i < |t.dests| && i != k ensures Fits64(t.dests[i], PositiveOnly) {
      assert Fits64(v.dests[i], WithNonpositiveChange);
    }
    assert x < UINT64 <==> Fits64(t.dests[k], PositiveOnly);
  }

  /** A lower change can be written if a higher one can. */
  lemma LowerWritable(v: Tx, k: nat, x: int, y: int)
    requires k < |v.dests| && y <= x && Writable(Outs(WithChange(v, k, x), PositiveOnly))
    ensures Writable(Outs(WithChange(v, k, y), PositiveOnly))
  {
    var t, u := WithChange(v, k, x), WithChange(v, k, y);
    PickedWritable(t.message, t.dests, PositiveOnly);
    PickedWritable(u.message, u.dests, PositiveOnly);
    forall i | 0 <= i < |u.dests| ensures Fits64(u.dests[i], PositiveOnly) {
      assert Fits64(t.dests[i], PositiveOnly);
    }
  }

  lemma {:induction false} AmountBelowTotal(dests: seq<Dest>, i: nat)
    requires NonNegative(dests) && i < |dests|
    ensures 0 <= dests[i].amount <= Total(dests)
  {
    var n := |dests| - 1;
    if i < n {
      AmountBelowTotal(dests[..n], i);
    } else if n > 0 {
      AmountBelowTotal(dests[..n], 0);
    }
  }

  // ---- a whole update ----

  function ChangeCount(dests: seq<Dest>): nat {
    if dests == [] then 0 else ChangeCount(dests[..|dests| - 1]) + if dests[|dests| - 1].isChange then 1 else 0
  }

  /** The last change destination. */
  function ChangeIndex(dests: seq<Dest>): (k: nat)
    requires ChangeCount(dests) > 0
    ensures k < |dests| && dests[k].isChange
  {
    if dests[|dests| - 1].isChange then |dests| - 1 else ChangeIndex(dests[..|dests| - 1])
  }

  function SequencedCores(cores: seq<Core>, sequence: int): seq<Core> {
    seq(|cores|, i requires 0 <= i < |cores| => cores[i].(sequence := sequence))
  }

  function Sequenced(t: Tx, sequence: int): Tx {
    t.(cores := SequencedCores(t.cores, sequence))
  }

  lemma SequencedIs(t: Tx, sequence: int, i: nat)
    requires i < |t.cores|
    ensures |Sequenced(t, sequence).cores| == |t.cores|
    ensures var c := t.cores[i];
      Sequenced(t, sequence).cores[i] == Core(c.hash, c.index, sequence, c.pubScript, c.key, c.amount)
  {
  }

  /** With the change that settles the fee, if there is a change destination. */
  ghost function Balanced(t: Tx, perByte: int): Tx
    requires ShortSignatures(t.signer)
  {
    if ChangeCount(t.dests) == 0 then t
    else WithChange(t, ChangeIndex(t.dests), FinalChange(t, ChangeIndex(t.dests), perByte))
  }

  /** What is checked of the balanced transaction. */
  function Outcome(t: Tx, perByte: int): Status {
    if Diff(t) < perByte * |SignedBytes(t, PositiveOnly)| then FeeTooLow
    else if Outs(t, PositiveOnly) == [] then NothingToPay
    else Ok
  }

  /** What passes: a fee that pays for every byte signed, and something to pay. */
  lemma OutcomeExactly(t: Tx, perByte: int)
    ensures Outcome(t, perByte) == Ok <==>
      perByte * |SignedBytes(t, PositiveOnly)| <= Inflow(t.cores) - Total(t.dests) && |Outs(t, PositiveOnly)| > 0
    ensures Outcome(t, perByte) == FeeTooLow <==>
      Inflow(t.cores) - Total(t.dests) < perByte * |SignedBytes(t, PositiveOnly)|
  {
  }

  // ---- amounts that stop an update ----

  /** What the fee for the transaction with an empty change leaves for the change. */
  function Remainder(v: Tx, perByte: int): int {
    Diff(v) - perByte * |SignedBytes(v, WithNonpositiveChange)|
  }

  /** The transaction without its change can be measured, and with all that is left over as well. */
  predicate Room(v: Tx, perByte: int) {
    Writable(Outs(v, WithNonpositiveChange)) && Remainder(v, perByte) < UINT64
  }

  /** What is measured when nothing fits: the empty change if that cannot be, and all that is left over otherwise. */
  function FirstMeasured(v: Tx, k: nat, perByte: int): Tx
    requires k < |v.dests|
  {
    if Writable(Outs(v, WithNonpositiveChange)) then WithChange(v, k, Remainder(v, perByte)) else v
  }

  /** The transaction that the balancing of its change stops at. */
  function Blocked(t: Tx, perByte: int): Option<Tx> {
    if ChangeCount(t.dests) != 1 then None else
      var k := ChangeIndex(t.dests);
      var v := WithChange(t, k, 0);
      if Room(v, perByte) then None else Some(FirstMeasured(v, k, perByte))
  }

  /** What the first measurement decides. */
  lemma FirstDecides(v: Tx, k: nat, perByte: int, remainder: int)
    requires k < |v.dests| && Writable(Outs(v, WithNonpositiveChange)) && remainder == Remainder(v, perByte)
    ensures FirstMeasured(v, k, perByte) == WithChange(v, k, remainder)
    ensures Room(v, perByte) == Writable(Outs(WithChange(v, k, remainder), PositiveOnly)) == (remainder < UINT64)
  {
    ChangeWritable(v, k, remainder);
  }

  predicate AnyTooBig(dests: seq<Dest>) {
    exists i :: 0 <= i < |dests| && !dests[i].isChange && dests[i].amount >= UINT64
  }

  /** An amount to be paid, or what is left for the change, does not fit 64 bits. */
  predicate TooBig(t: Tx, perByte: int) {
    || AnyTooBig(t.dests)
    || (ChangeCount(t.dests) > 0 && Remainder(WithChange(t, ChangeIndex(t.dests), 0), perByte) >= UINT64)
  }

  /** The transaction that an update stops at, when an amount is too big: only the amount of its change differs. */
  function Stopped(t: Tx, perByte: int): Tx {
    if ChangeCount(t.dests) == 0 then t
    else
      var k := ChangeIndex(t.dests);
      WithChange(t, k, if AnyTooBig(t.dests) then 0 else Remainder(WithChange(t, k, 0), perByte))
  }

  /** Amounts as the setters accept them, and a message that pays nothing. */
  predicate Settable(t: Tx) {
    && (forall i :: 0 <= i < |t.message| ==> t.message[i].amount == 0)
    && (forall i :: 0 <= i < |t.dests| ==> t.dests[i].isChange || 0 <= t.dests[i].amount)
  }

  lemma TooBigWithoutChange(t: Tx, perByte: int)
    requires Settable(t) && ChangeCount(t.dests) == 0
    ensures TooBig(t, perByte) <==> !Writable(Outs(t, PositiveOnly))
  {
    PickedWritable(t.message, t.dests, PositiveOnly);
    forall i | 0 <= i < |t.dests|
      ensures Fits64(t.dests[i], PositiveOnly) <==> t.dests[i].isChange || t.dests[i].amount < UINT64
    {
      if t.dests[i].isChange {
        OnlyChange(t.dests, i);
      }
    }
  }

  lemma SoleChange(t: Tx, k: nat)
    requires ChangeCount(t.dests) == 1 && k == ChangeIndex(t.dests)
    ensures Sole(WithChange(t, k, 0).dests, k)
  {
    forall i | 0 <= i < |t.dests| && t.dests[i].isChange ensures i == k {
      OnlyChange(t.dests, i);
    }
  }

  /** Without its only change, a transaction can be written unless another amount is too big. */
  lemma FirstWritable(t: Tx)
    requires Settable(t) && ChangeCount(t.dests) == 1
    ensures Writable(Outs(WithChange(t, ChangeIndex(t.dests), 0), WithNonpositiveChange)) <==> !AnyTooBig(t.dests)
  {
    var v := WithChange(t, ChangeIndex(t.dests), 0);
    PickedWritable(v.message, v.dests, WithNonpositiveChange);
    forall i | 0 <= i < |t.dests|
      ensures Fits64(v.dests[i], WithNonpositiveChange) <==> t.dests[i].isChange || t.dests[i].amount < UINT64
    {
      if t.dests[i].isChange {
        OnlyChange(t.dests, i);
      }
    }
  }

  lemma TooBigWithChange(t: Tx, perByte: int)
    requires Settable(t) && ChangeCount(t.dests) == 1
    ensures TooBig(t, perByte) <==> !Room(WithChange(t, ChangeIndex(t.dests), 0), perByte)
  {
    FirstWritable(t);
  }

  lemma {:induction false} SequencedInflow(cores: seq<Core>, sequence: int)
    ensures Inflow(SequencedCores(cores, sequence)) == Inflow(cores)
  {
    if cores != [] {
      var n := |cores| - 1;
      SequencedInflow(cores[..n], sequence);
      assert SequencedCores(cores, sequence)[..n] == SequencedCores(cores[..n], sequence);
    }
  }

  /** Money the inputs cover, and less than 64 bits of it, never stops an update. */
  lemma SpendableIsNotTooBig(t: Tx, sequence: int, perByte: int)
    requires 0 <= perByte && NonNegative(t.dests) && 0 <= Diff(t) && Inflow(t.cores) < UINT64
    ensures !TooBig(Sequenced(t, sequence), perByte)
  {
    SequencedInflow(t.cores, sequence);
    forall i | 0 <= i < |t.dests| ensures t.dests[i].amount < UINT64 {
      AmountBelowTotal(t.dests, i);
    }
    if ChangeCount(t.dests) > 0 {
      var k := ChangeIndex(t.dests);
      var v := WithChange(Sequenced(t, sequence), k, 0);
      AmountBelowTotal(v.dests, k);
      MulNonNeg(perByte, |SignedBytes(v, WithNonpositiveChange)|);
    }
  }

  /** One input of 2^65 and one change, with hashes, keys, signatures and scripts of the usual lengths. */
  function LargeTx(): Tx {
    Tx(Signer((key: nat, message: Bytes) => seq(71, i => 0), (key: nat) => seq(33, i => 0),
              (key: nat, script: Bytes) => true),
       1, [Core(seq(32, i => 0), 0, 0, seq(25, i => 0), 0, 2 * UINT64)], [], [Dest(0, true, seq(25, i => 0))], 0)
  }

  /** It passes every check before balancing, and what is left for its change does not fit. */
  lemma LargeTxIsTooBig(sequence: int, mainnet: bool)
    ensures ShortSignatures(LargeTx().signer) && Settable(LargeTx())
    ensures Verified(LargeTx(), mainnet) == Ok && ChangeCount(LargeTx().dests) == 1
    ensures TooBig(Sequenced(LargeTx(), sequence), 1)
  {
    var t := LargeTx();
    OneInput(t, t.cores[0], t.dests[0]);
    OneInput(Sequenced(t, sequence), t.cores[0].(sequence := sequence), t.dests[0]);
  }

  lemma OneInput(t: Tx, core: Core, dest: Dest)
    requires ShortSignatures(t.signer) && t.cores == [core] && t.dests == [dest] && t.message == []
    requires dest.amount == 0 && dest.isChange && core.amount == 2 * UINT64
    requires |core.hash| + |t.signer.publicKey(core.key)| + |dest.script| < 500
    ensures Diff(t) == 2 * UINT64 && ChangeCount(t.dests) == 1 && TooBig(t, 1)
  {
    OneCore(t.signer, t.cores, core);
    OneDest(t.dests, dest);
    assert WithChange(t, 0, 0) == t;
    SizeWithin(t, WithNonpositiveChange);
    assert OutputsBytes(t.message) == [] && SizeBound(t) < 1000;
  }

  lemma OneCore(signer: Signer, cores: seq<Core>, core: Core)
    requires cores == [core]
    ensures Inflow(cores) == core.amount && InputsBound(signer, cores) == InputBound(signer, core)
  {
    assert cores[..|cores| - 1] == [];
  }

  lemma OneDest(dests: seq<Dest>, d: Dest)
    requires dests == [d] && d.isChange
    ensures Total(dests) == d.amount && DestsBound(dests) == 17 + |d.script|
    ensures ChangeCount(dests) == 1 && ChangeIndex(dests) == 0
  {
    assert dests[..|dests| - 1] == [];
  }

  /** The settled change is none, or no dust; then the fee pays for every byte. */
  lemma SettledChangePays(v: Tx, k: nat, perByte: int)
    requires k < |v.dests| && ShortSignatures(v.signer) && 0 <= perByte
    ensures var c := SettledChange(v, k, perByte);
      c == 0 || (DUST_LIMIT <= c && perByte * SizeWith(v, k, c) <= Diff(v) - c)
  {
    SizeBounded(v, k);
    FinalPays(SizeOf(v, k), SizeBound(v), perByte, Diff(v), |SignedBytes(v, WithNonpositiveChange)|, DUST_LIMIT);
  }

  /** The same of the change in the transaction itself. */
  lemma FinalChangePays(t: Tx, k: nat, perByte: int)
    requires k < |t.dests| && ShortSignatures(t.signer) && 0 <= perByte
    ensures var c := FinalChange(t, k, perByte);
      c == 0 || (DUST_LIMIT <= c && perByte * SizeWith(t, k, c) <= Diff(WithChange(t, k, c)))
  {
    var c := FinalChange(t, k, perByte);
    SettledChangePays(WithChange(t, k, 0), k, perByte);
    SizeAgain(t, k, c);
    DiffWith(t, k, c);
  }

  lemma SizeAgain(t: Tx, k: nat, x: int)
    requires k < |t.dests|
    ensures SizeWith(WithChange(t, k, 0), k, x) == SizeWith(t, k, x)
  {
    ChangeTwice(t, k, x);
  }

  /** When nothing stops the balancing, the balanced transaction can be written. */
  lemma BalancedWritable(t: Tx, perByte: int)
    requires ShortSignatures(t.signer) && 0 <= perByte && Settable(t) && ChangeCount(t.dests) <= 1
    requires !TooBig(t, perByte)
    ensures Writable(Outs(Balanced(t, perByte), PositiveOnly))
  {
    if ChangeCount(t.dests) == 0 {
      TooBigWithoutChange(t, perByte);
    } else {
      var k := ChangeIndex(t.dests);
      var v, c := WithChange(t, k, 0), FinalChange(t, k, perByte);
      TooBigWithChange(t, perByte);
      ChangeBelowRemainder(v, k, perByte);
      ChangeWritable(v, k, c);
      assert WithChange(v, k, c) == WithChange(t, k, c);
    }
  }

  /** The change never exceeds what the fee leaves at first. */
  lemma ChangeBelowRemainder(v: Tx, k: nat, perByte: int)
    requires k < |v.dests| && ShortSignatures(v.signer) && 0 <= perByte
    ensures SettledChange(v, k, perByte) == 0 || SettledChange(v, k, perByte) <= Remainder(v, perByte)
  {
    SizeBounded(v, k);
    var first := |SignedBytes(v, WithNonpositiveChange)|;
    SettledChangeIs(v, k, perByte, first);
    SettledPays(SizeOf(v, k), SizeBound(v), perByte, Diff(v), first);
  }

  // ---- what an update achieves ----

  lemma {:induction false} CountWith(dests: seq<Dest>, k: nat, x: int)
    requires k < |dests|
    ensures ChangeCount(dests[k := dests[k].(amount := x)]) == ChangeCount(dests)
    ensures ChangeCount(dests) > 0 ==> ChangeIndex(dests[k := dests[k].(amount := x)]) == ChangeIndex(dests)
  {
    var s := dests[k := dests[k].(amount := x)];
    var n := |dests| - 1;
    if k < n {
      assert s[..n] == dests[..n][k := dests[k].(amount := x)];
      CountWith(dests[..n], k, x);
    } else {
      assert s[..n] == dests[..n];
    }
  }

  lemma BalancedTwice(s: Tx, perByte: int)
    requires ShortSignatures(s.signer)
    ensures Balanced(Balanced(s, perByte), perByte) == Balanced(s, perByte)
  {
    if ChangeCount(s.dests) > 0 {
      var k := ChangeIndex(s.dests);
      var c := FinalChange(s, k, perByte);
      CountWith(s.dests, k, c);
      FinalChangeFresh(s, k, perByte, c);
      var u := WithChange(s, k, c);
      assert WithChange(u, k, c) == u && ChangeIndex(u.dests) == k;
      assert Balanced(s, perByte) == u && FinalChange(u, k, perByte) == c;
    }
  }

  lemma SequencedTwice(t: Tx, u: Tx, sequence: int)
    requires u.cores == Sequenced(t, sequence).cores
    ensures Sequenced(u, sequence) == u
  {
    assert SequencedCores(u.cores, sequence) == u.cores;
  }

  /** Balancing a balanced transaction changes nothing. */
  lemma BalancedAgain(t: Tx, sequence: int, perByte: int)
    requires ShortSignatures(t.signer)
    ensures var u := Balanced(Sequenced(t, sequence), perByte);
      Balanced(Sequenced(u, sequence), perByte) == u
  {
    BalancedTwice(Sequenced(t, sequence), perByte);
    SequencedTwice(t, Balanced(Sequenced(t, sequence), perByte), sequence);
  }

  /** Only sequence numbers and the amount of a change differ. */
  ghost predicate Alike(t: Tx, u: Tx) {
    && u.signer == t.signer && |u.dests| == |t.dests| && |u.cores| == |t.cores|
    && (forall i :: 0 <= i < |u.dests| ==> u.dests[i].isChange == t.dests[i].isChange)
    && (forall i :: 0 <= i < |u.dests| ==> u.dests[i].isChange || u.dests[i].amount == t.dests[i].amount)
    && (forall i :: 0 <= i < |u.cores| ==> u.cores[i].key == t.cores[i].key)
    && (forall i :: 0 <= i < |u.cores| ==> u.cores[i].pubScript == t.cores[i].pubScript)
  }

  lemma BalancedKinds(t: Tx, sequence: int, perByte: int)
    requires ShortSignatures(t.signer)
    ensures Alike(t, Balanced(Sequenced(t, sequence), perByte))
  {}

  lemma SameVerdicts(t: Tx, u: Tx)
    requires Alike(t, u)
    ensures KeysFit(u) <==> KeysFit(t)
    ensures AnyDust(u.dests) ==> AnyDust(t.dests)
  {
    if AnyDust(u.dests) {
      var i :| 0 <= i < |u.dests| && !u.dests[i].isChange && u.dests[i].amount < DUST_LIMIT;
      assert !t.dests[i].isChange && t.dests[i].amount < DUST_LIMIT;
    }
    if KeysFit(t) {
      forall i | 0 <= i < |u.cores| ensures u.signer.owns(u.cores[i].key, u.cores[i].pubScript) {
        assert t.signer.owns(t.cores[i].key, t.cores[i].pubScript);
      }
    }
    if KeysFit(u) {
      forall i | 0 <= i < |t.cores| ensures t.signer.owns(t.cores[i].key, t.cores[i].pubScript) {
        assert u.signer.owns(u.cores[i].key, u.cores[i].pubScript);
      }
    }
  }

  /** A transaction that passed the checks passes them again when nothing they look at got worse. */
  lemma VerifiedAgain(t: Tx, u: Tx, mainnet: bool)
    requires Alike(t, u) && 0 <= Diff(u) && Verified(t, mainnet) == Ok
    ensures Verified(u, mainnet) == Ok
  {
    SameVerdicts(t, u);
  }

  lemma CoveredFee(u: Tx, perByte: int)
    requires 0 <= perByte && Outcome(u, perByte) == Ok
    ensures 0 <= Diff(u)
  {
    MulNonNeg(perByte, |SignedBytes(u, PositiveOnly)|);
  }

  /** With a change output the fee is never too low. */
  lemma ChangePaysFee(t: Tx, perByte: int)
    requires ShortSignatures(t.signer) && 0 <= perByte && ChangeCount(t.dests) > 0
    requires FinalChange(t, ChangeIndex(t.dests), perByte) != 0
    ensures Outcome(Balanced(t, perByte), perByte) == Ok
  {
    var k := ChangeIndex(t.dests);
    var c := FinalChange(t, k, perByte);
    FinalChangePays(t, k, perByte);
    PositiveIsWritten(t.message, WithChange(t, k, c).dests, k);
  }

  lemma {:induction false} PositiveIsWritten(message: seq<Output>, dests: seq<Dest>, k: nat)
    requires k < |dests| && dests[k].amount > 0
    ensures Picked(message, dests, PositiveOnly) != []
  {
    if k < |dests| - 1 {
      PositiveIsWritten(message, dests[..|dests| - 1], k);
    }
  }

  /** Conservation after a successful update: inputs = written outputs + fee, and the fee pays for every byte. */
  lemma UpdatedConserves(t: Tx, perByte: int)
    requires ShortSignatures(t.signer) && 0 <= perByte && Paid(t.message) == 0
    requires forall i :: 0 <= i < |t.dests| ==> t.dests[i].isChange || 0 <= t.dests[i].amount
    requires ChangeCount(t.dests) <= 1 && Outcome(Balanced(t, perByte), perByte) == Ok
    ensures var u := Balanced(t, perByte);
      && Inflow(t.cores) == Paid(Outs(u, PositiveOnly)) + Diff(u)
      && perByte * |SignedBytes(u, PositiveOnly)| <= Diff(u)
      && forall i :: 0 <= i < |u.dests| && u.dests[i].isChange ==> u.dests[i].amount == 0 || DUST_LIMIT <= u.dests[i].amount
  {
    var u := Balanced(t, perByte);
    if ChangeCount(t.dests) > 0 {
      var k := ChangeIndex(t.dests);
      FinalChangePays(t, k, perByte);
    }
    forall i | 0 <= i < |t.dests| && t.dests[i].isChange
      ensures ChangeCount(t.dests) > 0 && i == ChangeIndex(t.dests)
    {
      OnlyChange(t.dests, i);
    }
    Conservation(u);
  }

  /** n is the size of the transaction signed without its change, or with some amount for the change. */
  ghost predicate SizeSeen(v: Tx, k: nat, n: nat)
    requires k < |v.dests|
  {
    n == |SignedBytes(v, WithNonpositiveChange)| || exists x: int :: n == |SignedBytes(WithChange(v, k, x), PositiveOnly)|
  }

  /**
   The change c is what the price of n bytes leaves of v, which has none, and nothing if that is less than 546.
   The n bytes were measured, and with a change the transaction has no more.
   */
  ghost predicate ChangeFor(v: Tx, k: nat, c: int, perByte: int, n: nat)
    requires k < |v.dests|
  {
    SizeSeen(v, k, n) &&
    var left := Diff(v) - perByte * n;
    if left < 546 then c == 0 else c == left && |SignedBytes(WithChange(v, k, c), PositiveOnly)| <= n
  }

  lemma SettledChangeAt(v: Tx, k: nat, perByte: int) returns (n: nat)
    requires k < |v.dests| && ShortSignatures(v.signer)
    ensures n <= SizeBound(v) && ChangeFor(v, k, SettledChange(v, k, perByte), perByte, n)
  {
    SizeBounded(v, k);
    SizeWithin(v, WithNonpositiveChange);
    var first := |SignedBytes(v, WithNonpositiveChange)|;
    n := FinalAt(SizeOf(v, k), SizeBound(v), perByte, Diff(v), first, DUST_LIMIT);
    if n != first {
      var x :| n == SizeOf(v, k)(x);
      assert n == |SignedBytes(WithChange(v, k, x), PositiveOnly)|;
    }
  }

  ghost predicate FairChange(v: Tx, k: nat, c: int, perByte: int)
    requires k < |v.dests|
  {
    exists n: nat :: n <= SizeBound(v) && ChangeFor(v, k, c, perByte, n)
  }

  lemma SettledIsFair(v: Tx, k: nat, perByte: int)
    requires k < |v.dests| && ShortSignatures(v.signer)
    ensures FairChange(v, k, SettledChange(v, k, perByte), perByte)
  {
    var n := SettledChangeAt(v, k, perByte);
  }

  /** u is s with such a change in the place of the old one. */
  ghost predicate LeavesChange(s: Tx, u: Tx, perByte: int, n: nat)
    requires ChangeCount(s.dests) > 0
  {
    var k := ChangeIndex(s.dests);
    && |u.dests| == |s.dests| && u == WithChange(s, k, u.dests[k].amount)
    && ChangeFor(WithChange(s, k, 0), k, u.dests[k].amount, perByte, n)
  }

  /** Balancing gives away the price of the bytes, and besides at most what would be dust. */
  lemma BalancedLeaves(s: Tx, perByte: int) returns (n: nat)
    requires ShortSignatures(s.signer) && ChangeCount(s.dests) > 0
    ensures LeavesChange(s, Balanced(s, perByte), perByte, n) && n <= SizeBound(s)
    ensures var u := Balanced(s, perByte);
      Diff(u) == perByte * n || (u.dests[ChangeIndex(s.dests)].amount == 0 && Diff(u) <= perByte * n + 545)
  {
    var k, c := ChangeIndex(s.dests), FinalChange(s, ChangeIndex(s.dests), perByte);
    n := SettledChangeAt(WithChange(s, k, 0), k, perByte);
    BoundWith(s.dests, k, 0);
    DiffWith(s, k, c);
  }

  /** The fee has an upper bound that does not depend on the amounts. */
  lemma FeeBounded(s: Tx, perByte: int)
    requires ShortSignatures(s.signer) && ChangeCount(s.dests) > 0 && 0 <= perByte
    ensures Diff(Balanced(s, perByte)) <= perByte * SizeBound(s) + 545
    ensures SizeBound(Balanced(s, perByte)) == SizeBound(s)
  {
    var n := BalancedLeaves(s, perByte);
    MulMono(perByte, n, SizeBound(s));
    BoundWith(s.dests, ChangeIndex(s.dests), FinalChange(s, ChangeIndex(s.dests), perByte));
  }

  lemma {:induction false} OnlyChange(dests: seq<Dest>, i: nat)
    requires i < |dests| && dests[i].isChange
    ensures ChangeCount(dests) > 0 && (ChangeCount(dests) == 1 ==> i == ChangeIndex(dests))
  {
    if i < |dests| - 1 {
      OnlyChange(dests[..|dests| - 1], i);
    }
  }

  /** Everything an update looks at is settled after a successful one. */
  lemma SettledForGood(t: Tx, sequence: int, perByte: int, mainnet: bool)
    requires ShortSignatures(t.signer) && 0 <= perByte && Verified(t, mainnet) == Ok && ChangeCount(t.dests) <= 1
    requires Outcome(Balanced(Sequenced(t, sequence), perByte), perByte) == Ok
    ensures var u := Balanced(Sequenced(t, sequence), perByte);
      && Verified(u, mainnet) == Ok && ChangeCount(u.dests) <= 1 && Balanced(Sequenced(u, sequence), perByte) == u
      && (TooBig(Sequenced(u, sequence), perByte) <==> TooBig(Sequenced(t, sequence), perByte))
  {
    var s := Sequenced(t, sequence);
    var u := Balanced(s, perByte);
    BalancedKinds(t, sequence, perByte);
    CoveredFee(u, perByte);
    VerifiedAgain(t, u, mainnet);
    BalancedAgain(t, sequence, perByte);
    SequencedTwice(t, u, sequence);
    TooBigAgain(s, perByte);
  }

  /** Balancing takes the old change out first, so it meets the same amounts again. */
  lemma TooBigAgain(s: Tx, perByte: int)
    requires ShortSignatures(s.signer)
    ensures var u := Balanced(s, perByte);
      ChangeCount(u.dests) == ChangeCount(s.dests) && (TooBig(u, perByte) <==> TooBig(s, perByte))
  {
    if ChangeCount(s.dests) > 0 {
      var k := ChangeIndex(s.dests);
      var c := FinalChange(s, k, perByte);
      var u := WithChange(s, k, c);
      CountWith(s.dests, k, c);
      assert WithChange(u, k, 0) == WithChange(s, k, 0);
      assert Balanced(s, perByte) == u && ChangeIndex(u.dests) == k;
      ChangeIsNotTooBig(s.dests, k, c);
    }
  }

  lemma ChangeIsNotTooBig(dests: seq<Dest>, k: nat, x: int)
    requires k < |dests| && dests[k].isChange
    ensures AnyTooBig(dests[k := dests[k].(amount := x)]) <==> AnyTooBig(dests)
  {
    var s := dests[k := dests[k].(amount := x)];
    if AnyTooBig(dests) {
      var i :| 0 <= i < |dests| && !dests[i].isChange && dests[i].amount >= UINT64;
      assert s[i] == dests[i];
    }
    if AnyTooBig(s) {
      var i :| 0 <= i < |s| && !s[i].isChange && s[i].amount >= UINT64;
      assert s[i] == dests[i];
    }
  }
}
