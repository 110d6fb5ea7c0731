/**
 The state as 200 bytes and as 25 lanes. A byte is its bits, least significant first.
 */
module KeccakBytes {
  import opened KeccakF
  import opened KeccakInPlace

  type Octet = o: seq<bool> | |o| == 8 witness seq(8, i => false)

  const STATE_BYTES: nat := 200

  function XorOctets(a: Octet, b: Octet): Octet {
    seq(8, j requires 0 <= j < 8 => Plus(a[j], b[j]))
  }

  function ZeroOctet(): Octet {
    [false, false, false, false, false, false, false, false]
  }

  // ---- bytes and lanes ----

  type Bytes = s: seq<Octet> | |s| == STATE_BYTES witness seq(STATE_BYTES, i => seq(8, j => false))

  /** Lane i, read from eight bytes: its bit z is bit 64i + z of the state string (section 3.1.2). */
  function LaneAt(s: Bytes, i: nat): Word
    requires i < 25
  {
    seq(64, z requires 0 <= z < 64 => s[8 * i + z / 8][z % 8])
  }

  function OctetAt(st: State, k: nat): Octet
    requires k < STATE_BYTES
  {
    st[k / 8][8 * (k % 8)..8 * (k % 8) + 8]
  }

  function LanesOf(s: Bytes): State {
    seq(25, i requires 0 <= i < 25 => LaneAt(s, i))
  }

  function BytesOf(st: State): Bytes {
    seq(STATE_BYTES, k requires 0 <= k < STATE_BYTES => OctetAt(st, k))
  }

  /** The two views of a state determine each other. */
  lemma LanesOfBytes(st: State)
    ensures LanesOf(BytesOf(st)) == st
  {
    forall i | 0 <= i < 25 ensures LaneAt(BytesOf(st), i) == st[i] {
      forall z | 0 <= z < 64 ensures LaneAt(BytesOf(st), i)[z] == st[i][z] {
        assert (8 * i + z / 8) / 8 == i && (8 * i + z / 8) % 8 == z / 8;
      }
    }
  }

  lemma BytesOfLanes(s: Bytes)
    ensures BytesOf(LanesOf(s)) == s
  {
    forall k | 0 <= k < STATE_BYTES ensures OctetAt(LanesOf(s), k) == s[k] {
      var q, r := k / 8, k % 8;
      forall j | 0 <= j < 8 ensures OctetAt(LanesOf(s), k)[j] == s[k][j] {
        assert OctetAt(LanesOf(s), k)[j] == LaneAt(s, q)[8 * r + j];
        assert (8 * r + j) / 8 == r && (8 * r + j) % 8 == j && 8 * q + r == k;
      }
    }
  }

  function Permute(s: Bytes): Bytes {
    BytesOf(Permutation(LanesOf(s)))
  }

  method Load(a: array<Octet>, lanes: array<Word>)
    requires a.Length == STATE_BYTES && lanes.Length == 25
    modifies lanes
    ensures lanes[..] == LanesOf(a[..])
  {
    ghost var s: Bytes := a[..];
    for i := 0 to 25
      invariant forall k :: 0 <= k < i ==> lanes[k] == LaneAt(s, k)
    {
      lanes[i] := LaneAt(a[..], i);
    }
    assert lanes[..] == LanesOf(s);
  }

  method Store(a: array<Octet>, lanes: array<Word>)
    requires a.Length == STATE_BYTES && lanes.Length == 25
    modifies a
    ensures a[..] == BytesOf(lanes[..])
  {
    ghost var t: State := lanes[..];
    for k := 0 to STATE_BYTES
      invariant forall j :: 0 <= j < k ==> a[j] == OctetAt(t, j)
    {
      a[k] := OctetAt(lanes[..], k);
    }
    assert a[..] == BytesOf(t);
  }

  /** P: keccakf on the lanes of a byte array. */
  method P(a: array<Octet>)
    requires a.Length == STATE_BYTES
    modifies a
    ensures a[..] == Permute(old(a[..]))
  {
    var lanes := new Word[25](i => ZeroWord());
    Load(a, lanes);
    Keccakf(lanes);
    Store(a, lanes);
  }
}
