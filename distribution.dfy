/** The bit-distribution analysis of Atelier2/EX6.cpp: every sampled hash
    goes through hex_to_bits and its bits are tallied, in total and per
    position. The messages are random in the source, so the hashes to tally
    are the caller's; the percentages and verdicts are floating point and
    left out. */
module Distribution {
  import opened Text
  import opened Hex
  import SimpleHash
  import CaHash

  /** The number of set bits. */
  function Ones(bits: seq<bool>): (n: nat)
    ensures n <= |bits|
  {
    if bits == [] then 0 else Ones(bits[..|bits| - 1]) + (if bits[|bits| - 1] then 1 else 0)
  }

  /** The bits of all hashes together, and the set ones among them. */
  function TotalBits(hashes: seq<Bytes>): nat {
    if hashes == [] then 0 else TotalBits(hashes[..|hashes| - 1]) + |HexBits(hashes[|hashes| - 1])|
  }

  function TotalOnes(hashes: seq<Bytes>): (n: nat)
    ensures n <= TotalBits(hashes)
  {
    if hashes == [] then 0 else TotalOnes(hashes[..|hashes| - 1]) + Ones(HexBits(hashes[|hashes| - 1]))
  }

  /** The integer fields of BitDistributionResult; all start at 0. */
  class BitDistributionResult {
    var hashMethod: string
    var totalHashes: int
    var totalBits: int
    var bitsOne: int
    var bitsZero: int

    constructor ()
      ensures hashMethod == "" && totalHashes == 0 && totalBits == 0 && bitsOne == 0 && bitsZero == 0
    {
      hashMethod := "";
      totalHashes := 0;
      totalBits := 0;
      bitsOne := 0;
      bitsZero := 0;
    }

    /** The `for (bool bit : bits)` loop: one more bit counted in total and
        as a one or a zero, for every bit. */
    method Tally(bits: seq<bool>)
      modifies this
      ensures totalBits == old(totalBits) + |bits|
      ensures bitsOne == old(bitsOne) + Ones(bits) && bitsZero == old(bitsZero) + |bits| - Ones(bits)
      ensures hashMethod == old(hashMethod) && totalHashes == old(totalHashes)
    {
      var i := 0;
      while i < |bits|
        invariant 0 <= i <= |bits|
        invariant totalBits == old(totalBits) + i
        invariant bitsOne == old(bitsOne) + Ones(bits[..i]) && bitsZero == old(bitsZero) + i - Ones(bits[..i])
        invariant hashMethod == old(hashMethod) && totalHashes == old(totalHashes)
      {
        assert bits[..i + 1][..i] == bits[..i];
        totalBits := totalBits + 1;
        if bits[i] {
          bitsOne := bitsOne + 1;
        } else {
          bitsZero := bitsZero + 1;
        }
        i := i + 1;
      }
      assert bits[..i] == bits;
    }
  }

  /** analyze_bit_distribution_ac_hash and analyze_bit_distribution_sha256,
      which differ only in the hash they sample: one result holding the
      number of hashes, the number of their bits, and how many are ones and
      zeros. */
  method AnalyzeBitDistribution(hashMethod: string, hashes: seq<Bytes>) returns (result: BitDistributionResult)
    ensures fresh(result)
    ensures result.hashMethod == hashMethod && result.totalHashes == |hashes|
    ensures result.totalBits == TotalBits(hashes) && result.bitsOne == TotalOnes(hashes)
    ensures result.bitsOne + result.bitsZero == result.totalBits
  {
    result := new BitDistributionResult();
    result.hashMethod := hashMethod;
    result.totalHashes := |hashes|;
    var i := 0;
    while i < |hashes|
      invariant 0 <= i <= |hashes|
      invariant result.hashMethod == hashMethod && result.totalHashes == |hashes|
      invariant result.totalBits == TotalBits(hashes[..i]) && result.bitsOne == TotalOnes(hashes[..i])
      invariant result.bitsOne + result.bitsZero == result.totalBits
    {
      assert hashes[..i + 1][..i] == hashes[..i];
      var bits := HexToBits(hashes[i]);
      result.Tally(bits);
      i := i + 1;
    }
    assert hashes[..i] == hashes;
  }

  /** Hashes of 64 hex digits give 256 bits each. */
  lemma {:induction false} FullHashesGive256Bits(hashes: seq<Bytes>)
    requires forall i :: 0 <= i < |hashes| ==> |hashes[i]| == 64 && IsLowerHex(hashes[i])
    ensures TotalBits(hashes) == 256 * |hashes|
    decreases |hashes|
  {
    if hashes != [] {
      var n := |hashes| - 1;
      FullHashesGive256Bits(hashes[..n]);
      AllDigitsCount(hashes[n]);
    }
  }

  /** Every ac_hash sample is 64 digits: n samples give 256 n bits. */
  lemma AcHashSamplesGive256Bits(messages: seq<Bytes>)
    ensures TotalBits(seq(|messages|, i requires 0 <= i < |messages| => CaHash.AcHashValue(messages[i], 30, 250))) == 256 * |messages|
  {
    FullHashesGive256Bits(seq(|messages|, i requires 0 <= i < |messages| => CaHash.AcHashValue(messages[i], 30, 250)));
  }

  /** Every sha256_simple sample is 64 digits: n samples give 256 n bits. */
  lemma SimpleSamplesGive256Bits(messages: seq<Bytes>)
    ensures var hashes := seq(|messages|, i requires 0 <= i < |messages| => SimpleHash.Fields(SimpleHash.Djb(messages[i]), SimpleHash.Poly31(messages[i])));
      TotalBits(hashes) == 256 * |messages|
  {
    var hashes := seq(|messages|, i requires 0 <= i < |messages| => SimpleHash.Fields(SimpleHash.Djb(messages[i]), SimpleHash.Poly31(messages[i])));
    forall i | 0 <= i < |hashes| ensures |hashes[i]| == 64 && IsLowerHex(hashes[i]) {
      SimpleHash.FieldsRoundTrip(SimpleHash.Djb(messages[i]), SimpleHash.Poly31(messages[i]));
    }
    FullHashesGive256Bits(hashes);
  }

  const HashBits: nat := 256

  /** Whether hash h contributes to counter p: its bit p exists and is set. */
  function Hit(h: Bytes, p: nat): nat {
    var bits := HexBits(h);
    if p < |bits| && bits[p] then 1 else 0
  }

  /** The number of hashes whose bit p is set. */
  function PositionCount(hashes: seq<Bytes>, p: nat): (n: nat)
    ensures n <= |hashes|
  {
    if hashes == [] then 0 else PositionCount(hashes[..|hashes| - 1], p) + Hit(hashes[|hashes| - 1], p)
  }

  /** A position no hash reaches is never counted. */
  lemma {:induction false} UnreachedPositionStaysZero(hashes: seq<Bytes>, p: nat)
    requires forall i :: 0 <= i < |hashes| ==> |HexBits(hashes[i])| <= p
    ensures PositionCount(hashes, p) == 0
    decreases |hashes|
  {
    if hashes != [] {
      UnreachedPositionStaysZero(hashes[..|hashes| - 1], p);
    }
  }

  /** One pass of the inner loop of analyze_bit_positions over one hash's bits. */
  method CountPositions(bitCounts: array<int>, bits: seq<bool>, ghost h: Bytes)
    requires bitCounts.Length == HashBits && bits == HexBits(h)
    modifies bitCounts
    ensures forall p :: 0 <= p < HashBits ==> bitCounts[p] == old(bitCounts[p]) + Hit(h, p)
  {
    var j := 0;
    while j < |bits| && j < HashBits
      invariant 0 <= j <= HashBits
      invariant forall p :: 0 <= p < HashBits ==> bitCounts[p] == old(bitCounts[p]) + (if p < j then Hit(h, p) else 0)
    {
      if bits[j] {
        bitCounts[j] := bitCounts[j] + 1;
      }
      j := j + 1;
    }
  }

  /** analyze_bit_positions: 256 counters, counter p the number of hashes
      whose bit p is set; bits past position 255 are not counted. */
  method AnalyzeBitPositions(hashes: seq<Bytes>) returns (bitCounts: array<int>)
    ensures fresh(bitCounts) && bitCounts.Length == HashBits
    ensures forall p :: 0 <= p < HashBits ==> bitCounts[p] == PositionCount(hashes, p)
  {
    bitCounts := new int[HashBits](_ => 0);
    var i := 0;
    while i < |hashes|
      invariant 0 <= i <= |hashes|
      invariant forall p :: 0 <= p < HashBits ==> bitCounts[p] == PositionCount(hashes[..i], p)
    {
      assert hashes[..i + 1][..i] == hashes[..i];
      var bits := HexToBits(hashes[i]);
      CountPositions(bitCounts, bits, hashes[i]);
      i := i + 1;
    }
    assert hashes[..i] == hashes;
  }
}
