/** The avalanche measurements of Atelier2/EX5.cpp: the number of bits in
    which two hashes differ, and the flip of one bit of a message. The
    percentage computed from the count is floating point and left out. */
module Avalanche {
  import opened Text
  import opened Hex
  import opened CaHash

  /** The number of positions at which two equally long bit vectors differ. */
  function Hamming(a: seq<bool>, b: seq<bool>): (d: nat)
    requires |a| == |b|
    ensures d <= |a|
  {
    if a == [] then 0 else Hamming(a[..|a| - 1], b[..|b| - 1]) + (if a[|a| - 1] != b[|b| - 1] then 1 else 0)
  }

  lemma {:induction false} HammingSymmetric(a: seq<bool>, b: seq<bool>)
    requires |a| == |b|
    ensures Hamming(a, b) == Hamming(b, a)
    decreases |a|
  {
    if a != [] {
      HammingSymmetric(a[..|a| - 1], b[..|b| - 1]);
    }
  }

  /** No bit differs exactly when the vectors are equal. */
  lemma {:induction false} HammingZeroIffEqual(a: seq<bool>, b: seq<bool>)
    requires |a| == |b|
    ensures Hamming(a, b) == 0 <==> a == b
    decreases |a|
  {
    if a != [] {
      var n := |a| - 1;
      HammingZeroIffEqual(a[..n], b[..n]);
      assert a == a[..n] + [a[n]] && b == b[..n] + [b[n]];
    }
  }

  /** Vectors that differ at position k only are one bit apart. */
  lemma {:induction false} HammingSinglePosition(a: seq<bool>, b: seq<bool>, k: nat)
    requires |a| == |b| && k < |a|
    requires forall p :: 0 <= p < |a| ==> (a[p] != b[p] <==> p == k)
    ensures Hamming(a, b) == 1
    decreases |a|
  {
    var n := |a| - 1;
    if k < n {
      HammingSinglePosition(a[..n], b[..n], k);
    } else {
      assert a[..n] == b[..n];
      HammingZeroIffEqual(a[..n], b[..n]);
    }
  }

  /** The counting loop of calculate_bit_difference_percentage. */
  method CountDifferences(bits1: seq<bool>, bits2: seq<bool>) returns (different: nat)
    requires |bits1| == |bits2|
    ensures different == Hamming(bits1, bits2)
  {
    different := 0;
    var i := 0;
    while i < |bits1|
      invariant 0 <= i <= |bits1|
      invariant different == Hamming(bits1[..i], bits2[..i])
    {
      assert bits1[..i + 1][..i] == bits1[..i] && bits2[..i + 1][..i] == bits2[..i];
      if bits1[i] != bits2[i] {
        different := different + 1;
      }
      i := i + 1;
    }
    assert bits1[..i] == bits1 && bits2[..i] == bits2;
  }

  /** The count calculate_bit_difference_percentage takes its percentage of:
      both hashes through hex_to_bits, 0 when the bit vectors differ in
      length, otherwise the number of differing positions. */
  method DifferentBits(hash1: Bytes, hash2: Bytes) returns (different: nat)
    ensures var b1, b2 := HexBits(hash1), HexBits(hash2);
      && (|b1| != |b2| ==> different == 0)
      && (|b1| == |b2| ==> different == Hamming(b1, b2))
  {
    var bits1 := HexToBits(hash1);
    var bits2 := HexToBits(hash2);
    if |bits1| != |bits2| {
      return 0;
    }
    different := CountDifferences(bits1, bits2);
  }

  /** `1 << bit_index` for bit_index = 7 - j: the mask of bit j counted from
      the most significant. */
  function BitMask(j: nat): bv8
    requires j < 8
  {
    1 << (7 - j)
  }

  /** The string flip_bit_in_string returns: the same length; for a position
      inside the string, character k / 8 XORed with the mask of bit k % 8 and
      every other character kept; otherwise the input itself. */
  function Flipped(s: Bytes, k: nat): (r: Bytes)
    ensures |r| == |s|
    ensures k / 8 >= |s| ==> r == s
    ensures k / 8 < |s| ==> r[k / 8] == s[k / 8] ^ BitMask(k % 8) && forall i :: 0 <= i < |s| && i != k / 8 ==> r[i] == s[i]
  {
    if k / 8 >= |s| then s else s[k / 8 := s[k / 8] ^ BitMask(k % 8)]
  }

  /** flip_bit_in_string on its copy of the input. */
  method FlipBitInString(input: Bytes, bitPosition: Size) returns (result: Bytes)
    ensures result == Flipped(input, bitPosition)
  {
    result := input;
    var charIndex := bitPosition / 8;
    var bitIndex := 7 - bitPosition % 8;
    if charIndex >= |result| {
      return;
    }
    result := result[charIndex := result[charIndex] ^ (1 << bitIndex)];
  }

  /** Flipping the same bit twice gives the original string. */
  lemma FlipInvolution(s: Bytes, k: nat)
    ensures Flipped(Flipped(s, k), k) == s
  {
    if k / 8 < |s| {
      var c := s[k / 8];
      var m := BitMask(k % 8);
      assert (c ^ m) ^ m == c;
    }
  }

  /** XOR acts on each of the eight bits of a byte separately. */
  lemma XorBits(c: bv8, m: bv8)
    ensures ByteBit(c ^ m, 0) == (ByteBit(c, 0) != ByteBit(m, 0))
    ensures ByteBit(c ^ m, 1) == (ByteBit(c, 1) != ByteBit(m, 1))
    ensures ByteBit(c ^ m, 2) == (ByteBit(c, 2) != ByteBit(m, 2))
    ensures ByteBit(c ^ m, 3) == (ByteBit(c, 3) != ByteBit(m, 3))
    ensures ByteBit(c ^ m, 4) == (ByteBit(c, 4) != ByteBit(m, 4))
    ensures ByteBit(c ^ m, 5) == (ByteBit(c, 5) != ByteBit(m, 5))
    ensures ByteBit(c ^ m, 6) == (ByteBit(c, 6) != ByteBit(m, 6))
    ensures ByteBit(c ^ m, 7) == (ByteBit(c, 7) != ByteBit(m, 7))
  {
  }

  /** Bit i of an XOR is the XOR of the bits. */
  lemma XorByteBit(c: bv8, m: bv8, i: nat)
    requires i < 8
    ensures ByteBit(c ^ m, i) == (ByteBit(c, i) != ByteBit(m, i))
  {
    XorBits(c, m);
    assert i == 0 || i == 1 || i == 2 || i == 3 || i == 4 || i == 5 || i == 6 || i == 7;
  }

  /** The mask of bit j has bit j set and no other. */
  lemma MaskBit(j: nat, i: nat)
    requires j < 8 && i < 8
    ensures ByteBit(BitMask(j), i) == (i == j)
  {
  }

  /** XOR with the mask of bit j changes bit j of a byte and no other. */
  lemma FlipByteBit(c: bv8, j: nat, i: nat)
    requires j < 8 && i < 8
    ensures ByteBit(c ^ BitMask(j), i) == (ByteBit(c, i) != (i == j))
  {
    XorByteBit(c, BitMask(j), i);
    MaskBit(j, i);
  }

  /** Positions in a bit string are equal exactly when their byte and their
      bit within the byte are. */
  lemma SamePosition(p: nat, k: nat)
    ensures p == k <==> (p / 8 == k / 8 && p % 8 == k % 8)
  {
    assert p == 8 * (p / 8) + p % 8 && k == 8 * (k / 8) + k % 8;
  }

  /** Bit p of string_to_bits is bit p % 8 of byte p / 8. */
  lemma BitsAtPosition(s: Bytes, p: nat)
    requires p < 8 * |s|
    ensures p < |Bits(s)| && Bits(s)[p] == ByteBit(s[p / 8], p % 8)
  {
    assert p == 8 * (p / 8) + p % 8;
    BitsAt(s, p / 8, p % 8);
  }

  /** Bit p % 8 of byte p / 8 changes under the flip of bit k exactly when p is k. */
  lemma FlipAtByte(s: Bytes, k: nat, p: nat)
    requires k < 8 * |s| && p < 8 * |s|
    ensures ByteBit(Flipped(s, k)[p / 8], p % 8) != ByteBit(s[p / 8], p % 8) <==> p == k
  {
    SamePosition(p, k);
    if p / 8 == k / 8 {
      FlipByteBit(s[p / 8], k % 8, p % 8);
    } else {
      assert Flipped(s, k)[p / 8] == s[p / 8];
    }
  }

  /** Bit p of the flipped string differs from bit p of the input exactly when p is k. */
  lemma FlipAtPosition(s: Bytes, k: nat, p: nat)
    requires k < 8 * |s| && p < 8 * |s|
    ensures p < |Bits(Flipped(s, k))| && (Bits(Flipped(s, k))[p] != Bits(s)[p] <==> p == k)
  {
    var r := Flipped(s, k);
    BitsAtPosition(r, p);
    BitsAtPosition(s, p);
    FlipAtByte(s, k, p);
  }

  /** string_to_bits of the flipped string differs from string_to_bits of
      the input exactly at position k. */
  lemma FlipChangesExactlyBitK(s: Bytes, k: nat)
    requires k < 8 * |s|
    ensures |Bits(Flipped(s, k))| == |Bits(s)|
    ensures forall p :: 0 <= p < 8 * |s| ==> (Bits(Flipped(s, k))[p] != Bits(s)[p] <==> p == k)
  {
    forall p | 0 <= p < 8 * |s|
      ensures Bits(Flipped(s, k))[p] != Bits(s)[p] <==> p == k
    {
      FlipAtPosition(s, k, p);
    }
  }

  /** Hence one flipped message bit is one bit of Hamming distance. */
  lemma FlipIsOneBitApart(s: Bytes, k: nat)
    requires k < 8 * |s|
    ensures |Bits(Flipped(s, k))| == |Bits(s)| && Hamming(Bits(Flipped(s, k)), Bits(s)) == 1
  {
    FlipChangesExactlyBitK(s, k);
    HammingSinglePosition(Bits(Flipped(s, k)), Bits(s), k);
  }
}
