/**
 The balance of change and fee: the fee must pay for every byte, the number of bytes depends
 on the change through outputs and signatures, and what the fee takes the change loses.
 `size` is that dependence; all that is known of it is that it is bounded.
 */
module FeeFixpoint {
  import opened Arith

  ghost predicate Bounded(size: int -> nat, bound: nat) {
    forall change :: size(change) <= bound
  }

  /**
   The fee at hand pays for `prev` bytes. If that is not enough, the change gives up what is
   missing, so that the fee pays for the present size. Only growth makes another step.
   */
  ghost function Settled(size: int -> nat, bound: nat, perByte: int, rest: int, prev: nat): int
    requires Bounded(size, bound)
    decreases bound - prev
  {
    var change := rest - perByte * prev;
    if size(change) <= prev then change else Settled(size, bound, perByte, rest, size(change))
  }

  /** At rest the fee pays for every byte, and the change is never larger than at the start. */
  lemma {:induction false} SettledPays(size: int -> nat, bound: nat, perByte: int, rest: int, prev: nat)
    requires Bounded(size, bound) && 0 <= perByte
    ensures var c := Settled(size, bound, perByte, rest, prev);
      perByte * size(c) <= rest - c && c <= rest - perByte * prev
    decreases bound - prev
  {
    var change := rest - perByte * prev;
    if size(change) <= prev {
      MulMono(perByte, size(change), prev);
    } else {
      MulMono(perByte, prev, size(change));
      SettledPays(size, bound, perByte, rest, size(change));
    }
  }

  /** n is what the first measurement found, or the size that some change gives. */
  ghost predicate Measured(size: int -> nat, first: nat, n: nat) {
    n == first || exists change :: n == size(change)
  }

  /**
   At rest the fee is the price of n bytes, no more and no less, for a size n that was measured
   and that is at least the present one.
   */
  lemma {:induction false} SettledAt(size: int -> nat, bound: nat, perByte: int, rest: int, prev: nat) returns (n: nat)
    requires Bounded(size, bound)
    ensures Measured(size, prev, n) && prev <= n && (n == prev || n <= bound)
    ensures var c := Settled(size, bound, perByte, rest, prev); c == rest - perByte * n && size(c) <= n
    decreases bound - prev
  {
    var change := rest - perByte * prev;
    n := prev;
    if size(change) > prev {
      n := SettledAt(size, bound, perByte, rest, size(change));
    }
  }

  /** Where bytes cost nothing, nothing is taken off. */
  lemma {:induction false} SettledFree(size: int -> nat, bound: nat, rest: int, prev: nat)
    requires Bounded(size, bound)
    ensures Settled(size, bound, 0, rest, prev) == rest
    decreases bound - prev
  {
    if size(rest) > prev {
      SettledFree(size, bound, rest, size(rest));
    }
  }

  /** Comparing fees compares sizes, so the loop steps exactly when the definition does. */
  lemma SettledStep(size: int -> nat, bound: nat, perByte: int, rest: int, prev: nat, change: int, present: nat)
    requires Bounded(size, bound) && 0 <= perByte && change == rest - perByte * prev && present == size(change)
    ensures perByte * present > rest - change ==>
      prev < present <= bound && Settled(size, bound, perByte, rest, prev) == Settled(size, bound, perByte, rest, present)
    ensures perByte * present <= rest - change ==> Settled(size, bound, perByte, rest, prev) == change
  {
    if perByte == 0 {
      SettledFree(size, bound, rest, prev);
    } else if present <= prev {
      MulMono(perByte, present, prev);
    } else {
      MulMono(perByte, prev + 1, present);
      MulDist(perByte, prev, 1);
    }
  }

  /** The change written: none when it would be dust, before or after settling. */
  ghost function Final(size: int -> nat, bound: nat, perByte: int, rest: int, size0: nat, dust: int): int
    requires Bounded(size, bound)
  {
    if rest - perByte * size0 < dust then 0
    else
      var c := Settled(size, bound, perByte, rest, size0);
      if c < dust then 0 else c
  }

  lemma FinalPays(size: int -> nat, bound: nat, perByte: int, rest: int, size0: nat, dust: int)
    requires Bounded(size, bound) && 0 <= perByte
    ensures var c := Final(size, bound, perByte, rest, size0, dust);
      c == 0 || (c >= dust && perByte * size(c) <= rest - c)
  {
    SettledPays(size, bound, perByte, rest, size0);
  }

  /** So the change written is what that fee leaves, and it is dropped only when that would be dust. */
  lemma FinalAt(size: int -> nat, bound: nat, perByte: int, rest: int, size0: nat, dust: int) returns (n: nat)
    requires Bounded(size, bound)
    ensures Measured(size, size0, n) && size0 <= n && (n == size0 || n <= bound)
    ensures var c := Final(size, bound, perByte, rest, size0, dust); var left := rest - perByte * n;
      if left < dust then c == 0 else c == left && size(c) <= n
  {
    n := size0;
    if rest - perByte * size0 >= dust {
      n := SettledAt(size, bound, perByte, rest, size0);
    }
  }
}
