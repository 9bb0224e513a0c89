/** The cellular-automaton hash of Atelier2/EX2.cpp: a byte string becomes a
    bit ring (most significant bit first), padded to 512 cells, evolved by the
    automaton, and sampled into 64 hexadecimal digits. */
module CaHash {
  import opened Text
  import opened Automaton

  /** Bit j of byte c, counting from the most significant (j = 0). */
  function ByteBit(c: bv8, j: nat): bool
    requires j < 8
  {
    (c >> (7 - j)) & 1 == 1
  }

  function ByteBits(c: bv8): (r: seq<bool>)
    ensures |r| == 8
  {
    seq(8, j requires 0 <= j < 8 => ByteBit(c, j))
  }

  /** The bits string_to_bits produces: each byte in order, MSB first. */
  function Bits(input: Bytes): (r: seq<bool>)
    ensures |r| == 8 * |input|
  {
    if input == [] then [] else Bits(input[..|input| - 1]) + ByteBits(input[|input| - 1])
  }

  /** Bit 8i + j of the output is bit j, MSB first, of byte i. */
  lemma {:induction false} BitsAt(input: Bytes, i: nat, j: nat)
    requires i < |input| && j < 8
    ensures 8 * i + j < |Bits(input)| && Bits(input)[8 * i + j] == ByteBit(input[i], j)
    decreases |input|
  {
    var front := input[..|input| - 1];
    if i < |input| - 1 {
      BitsAt(front, i, j);
      assert front[i] == input[i];
    }
  }

  function BitByte(b: bool): bv8 {
    if b then 1 else 0
  }

  /** Eight bits, MSB first, back into a byte. */
  function PackByte(b: seq<bool>): bv8
    requires |b| == 8
  {
    (BitByte(b[0]) << 7) | (BitByte(b[1]) << 6) | (BitByte(b[2]) << 5) | (BitByte(b[3]) << 4)
    | (BitByte(b[4]) << 3) | (BitByte(b[5]) << 2) | (BitByte(b[6]) << 1) | BitByte(b[7])
  }

  /** A byte is the OR of its bits shifted back into place. */
  lemma ByteDecomposition(c: bv8)
    ensures c == (BitByte(ByteBit(c, 0)) << 7) | (BitByte(ByteBit(c, 1)) << 6) | (BitByte(ByteBit(c, 2)) << 5)
               | (BitByte(ByteBit(c, 3)) << 4) | (BitByte(ByteBit(c, 4)) << 3) | (BitByte(ByteBit(c, 5)) << 2)
               | (BitByte(ByteBit(c, 6)) << 1) | BitByte(ByteBit(c, 7))
  {
  }

  lemma ByteRoundTrip(c: bv8)
    ensures PackByte(ByteBits(c)) == c
  {
    var b := ByteBits(c);
    assert b[0] == ByteBit(c, 0) && b[1] == ByteBit(c, 1) && b[2] == ByteBit(c, 2) && b[3] == ByteBit(c, 3);
    assert b[4] == ByteBit(c, 4) && b[5] == ByteBit(c, 5) && b[6] == ByteBit(c, 6) && b[7] == ByteBit(c, 7);
    PackOfByteBits(b, c);
  }

  /** Packing eight bits that are the bits of c gives c. */
  lemma PackOfByteBits(b: seq<bool>, c: bv8)
    requires |b| == 8
    requires b[0] == ByteBit(c, 0) && b[1] == ByteBit(c, 1) && b[2] == ByteBit(c, 2) && b[3] == ByteBit(c, 3)
    requires b[4] == ByteBit(c, 4) && b[5] == ByteBit(c, 5) && b[6] == ByteBit(c, 6) && b[7] == ByteBit(c, 7)
    ensures PackByte(b) == c
  {
    ByteDecomposition(c);
  }

  /** Groups of eight bits back into n bytes. */
  function Unpack(bits: seq<bool>, n: nat): (r: Bytes)
    requires |bits| == 8 * n
    ensures |r| == n
  {
    if n == 0 then [] else Unpack(bits[..8 * (n - 1)], n - 1) + [PackByte(bits[8 * (n - 1)..])]
  }

  /** string_to_bits loses nothing: the bits pack back into the input. */
  lemma {:induction false} BitsRoundTrip(input: Bytes)
    ensures Unpack(Bits(input), |input|) == input
    decreases |input|
  {
    if input != [] {
      var n := |input|;
      var front := input[..n - 1];
      var bits := Bits(input);
      assert bits == Bits(front) + ByteBits(input[n - 1]);
      assert bits[..8 * (n - 1)] == Bits(front);
      assert bits[8 * (n - 1)..] == ByteBits(input[n - 1]);
      BitsRoundTrip(front);
      ByteRoundTrip(input[n - 1]);
      assert input == front + [input[n - 1]];
    }
  }

  /** The inner loop of string_to_bits: bits 7 down to 0 of c, appended. */
  method AppendByteBits(bits: seq<bool>, c: bv8) returns (r: seq<bool>)
    ensures r == bits + ByteBits(c)
  {
    r := bits;
    var i := 7;
    while i >= 0
      invariant -1 <= i <= 7
      invariant r == bits + ByteBits(c)[..7 - i]
    {
      assert ByteBits(c)[..7 - i + 1] == ByteBits(c)[..7 - i] + [ByteBit(c, 7 - i)];
      r := r + [(c >> i) & 1 == 1];
      i := i - 1;
    }
    assert ByteBits(c)[..8] == ByteBits(c);
  }

  /** string_to_bits: the bits of every byte in order. */
  method StringToBits(input: Bytes) returns (bits: seq<bool>)
    ensures bits == Bits(input)
  {
    bits := [];
    var n := 0;
    while n < |input|
      invariant 0 <= n <= |input|
      invariant bits == Bits(input[..n])
    {
      assert input[..n + 1][..n] == input[..n];
      bits := AppendByteBits(bits, input[n]);
      n := n + 1;
    }
    assert input[..n] == input;
  }

  /** The padding loop of ac_hash: while fewer than 512 bits, append the bit
      `size % 3 == 0`. */
  function Padded(bits: seq<bool>): (r: seq<bool>)
    ensures |r| == if |bits| >= 512 then |bits| else 512
    ensures r[..|bits|] == bits
    decreases 512 - |bits|
  {
    if |bits| >= 512 then bits else Padded(bits + [|bits| % 3 == 0])
  }

  /** Each padding cell k is set exactly when k is a multiple of 3. */
  lemma {:induction false} PaddingCells(bits: seq<bool>, k: nat)
    requires |bits| <= k < 512
    ensures Padded(bits)[k] == (k % 3 == 0)
    decreases 512 - |bits|
  {
    var next := bits + [|bits| % 3 == 0];
    if k > |bits| {
      PaddingCells(next, k);
    } else {
      assert Padded(next)[..|next|] == next;
    }
  }

  /** The index of the j-th bit of hex digit i in a ring of n cells. */
  function BitIndex(i: nat, j: nat, n: nat): nat
    requires n > 0
  {
    ((i * 4 + j) * 13 + i * 7) % n
  }

  /** The value of the first j sampled bits of digit i, MSB first. */
  function Nibble(state: seq<bool>, i: nat, j: nat): (v: nat)
    requires |state| > 0 && j <= 4
    ensures v < Pow2(j)
  {
    if j == 0 then 0
    else 2 * Nibble(state, i, j - 1) + (if state[BitIndex(i, j - 1, |state|)] then 1 else 0)
  }

  /** The 64 hex digits extract_hash prints. */
  function ExtractedHash(state: seq<bool>): (r: Bytes)
    requires |state| > 0
    ensures |r| == 64 && IsLowerHex(r)
    ensures forall i :: 0 <= i < 64 ==> HexByteValue(r[i]) == Nibble(state, i, 4)
  {
    seq(64, i requires 0 <= i < 64 => HexDigitByte(Nibble(state, i, 4)))
  }

  /** extract_hash. The source writes nibble = (nibble << 1) | bit, which for
      these values is 2 * nibble + bit. A ring of no cells is excluded: the
      source divides by its size. */
  method ExtractHash(state: seq<bool>) returns (r: Bytes)
    requires |state| > 0
    ensures r == ExtractedHash(state)
  {
    r := [];
    var i := 0;
    while i < 64
      invariant 0 <= i <= 64
      invariant r == ExtractedHash(state)[..i]
    {
      var nibble := 0;
      var j := 0;
      while j < 4
        invariant 0 <= j <= 4
        invariant nibble == Nibble(state, i, j)
      {
        var bitIdx := ((i * 4 + j) * 13 + i * 7) % |state|;
        nibble := 2 * nibble + (if state[bitIdx] then 1 else 0);
        j := j + 1;
      }
      assert Pow2(4) == 16;
      r := r + [HexDigitByte(nibble)];
      i := i + 1;
    }
  }

  const SizeLimit: int := 0x1_0000_0000_0000_0000

  /** A `size_t`. */
  type Size = n: nat | n < SizeLimit

  /** `size_t` to `int` as the call evolve(effective_steps) performs it:
      the low 32 bits, read as two's complement. */
  function ToInt32(n: Size): (r: int)
    ensures -0x8000_0000 <= r < 0x8000_0000
    ensures n < 0x8000_0000 ==> r == n
  {
    var low := n % 0x1_0000_0000;
    if low < 0x8000_0000 then low else low - 0x1_0000_0000
  }

  /** Generations ac_hash runs: max(steps, 200), through the int conversion. */
  function Generations(steps: Size): (g: nat)
    ensures steps < 0x8000_0000 ==> g == if steps < 200 then 200 else steps
  {
    var effective := if steps < 200 then 200 else steps;
    var k := ToInt32(effective);
    if k < 0 then 0 else k
  }

  /** The value of ac_hash(input, rule, steps). */
  function AcHashValue(input: Bytes, rule: bv32, steps: Size): (r: Bytes)
    ensures |r| == 64 && IsLowerHex(r)
  {
    ExtractedHash(Iterate(rule, Padded(Bits(input)), Generations(steps)))
  }

  method AcHash(input: Bytes, rule: bv32, steps: Size) returns (r: Bytes)
    ensures r == AcHashValue(input, rule, steps)
  {
    var bits := StringToBits(input);
    while |bits| < 512
      invariant Padded(bits) == Padded(Bits(input))
      decreases 512 - |bits|
    {
      bits := bits + [|bits| % 3 == 0];
    }
    var ca := new CellularAutomaton1D(rule);
    ca.InitState(bits);
    var effectiveSteps: Size := if steps < 200 then 200 else steps;
    ca.EvolveGenerations(ToInt32(effectiveSteps));
    r := ExtractHash(ca.GetState());
  }

  /** For step counts that fit an int the automaton runs at least 200 generations. */
  lemma AcHashRunsAtLeast200(steps: Size)
    requires steps < 0x8000_0000
    ensures Generations(steps) >= 200
  {
  }
}
