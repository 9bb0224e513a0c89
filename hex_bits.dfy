/** hex_to_bits, written identically in Atelier2/EX5.cpp and Atelier2/EX6.cpp:
    every hexadecimal digit of the string, in either case, becomes four bits,
    most significant first; every other character is skipped. */
module Hex {
  import opened Text

  /** '0'-'9', 'a'-'f' or 'A'-'F'. */
  predicate IsHexByte(c: bv8) {
    (0x30 <= c <= 0x39) || (0x61 <= c <= 0x66) || (0x41 <= c <= 0x46)
  }

  /** `(val >> i) & 1`. */
  function ShiftedBit(v: nat, i: nat): bool {
    v / Pow2(i) % 2 == 1
  }

  /** The bits for i = 3, 2, 1, 0. */
  function NibbleBits(v: nat): (r: seq<bool>)
    requires v < 16
    ensures |r| == 4
  {
    [ShiftedBit(v, 3), ShiftedBit(v, 2), ShiftedBit(v, 1), ShiftedBit(v, 0)]
  }

  function BitValue(b: bool): nat {
    if b then 1 else 0
  }

  /** The four bits read back, most significant first, give the digit's value. */
  lemma NibbleBitsValue(v: nat)
    requires v < 16
    ensures var b := NibbleBits(v); 8 * BitValue(b[0]) + 4 * BitValue(b[1]) + 2 * BitValue(b[2]) + BitValue(b[3]) == v
  {
    assert Pow2(0) == 1 && Pow2(1) == 2 && Pow2(2) == 4 && Pow2(3) == 8;
  }

  /** The number of hexadecimal digits in s. */
  function HexDigitCount(s: Bytes): nat {
    if s == [] then 0 else HexDigitCount(s[..|s| - 1]) + (if IsHexByte(s[|s| - 1]) then 1 else 0)
  }

  /** The bits hex_to_bits returns. */
  function HexBits(s: Bytes): (r: seq<bool>)
    ensures |r| == 4 * HexDigitCount(s)
  {
    if s == [] then []
    else HexBits(s[..|s| - 1]) + (if IsHexByte(s[|s| - 1]) then NibbleBits(HexByteValue(s[|s| - 1])) else [])
  }

  /** The inner loop of hex_to_bits: bits 3 down to 0 of v, appended. */
  method AppendNibble(bits: seq<bool>, v: nat) returns (r: seq<bool>)
    requires v < 16
    ensures r == bits + NibbleBits(v)
  {
    r := bits;
    var i := 3;
    while i >= 0
      invariant -1 <= i <= 3
      invariant r == bits + NibbleBits(v)[..3 - i]
    {
      assert NibbleBits(v)[..3 - i + 1] == NibbleBits(v)[..3 - i] + [ShiftedBit(v, i)];
      r := r + [v / Pow2(i) % 2 == 1];
      i := i - 1;
    }
    assert NibbleBits(v)[..4] == NibbleBits(v);
  }

  /** hex_to_bits: each character in order, non-digits skipped. */
  method HexToBits(hex: Bytes) returns (bits: seq<bool>)
    ensures bits == HexBits(hex)
  {
    bits := [];
    var n := 0;
    while n < |hex|
      invariant 0 <= n <= |hex|
      invariant bits == HexBits(hex[..n])
    {
      var c := hex[n];
      assert hex[..n + 1][..n] == hex[..n];
      if IsHexByte(c) {
        bits := AppendNibble(bits, HexByteValue(c));
      }
      n := n + 1;
    }
    assert hex[..n] == hex;
  }

  /** A string of hexadecimal digits only gives four bits per character: a
      64-digit hash gives 256 bits. */
  lemma {:induction false} AllDigitsCount(s: Bytes)
    requires IsLowerHex(s)
    ensures HexDigitCount(s) == |s| && |HexBits(s)| == 4 * |s|
    decreases |s|
  {
    if s != [] {
      AllDigitsCount(s[..|s| - 1]);
    }
  }

  /** The same letter in the other case, for 'a'-'f' and 'A'-'F'. */
  function OtherCase(c: bv8): bv8 {
    if 0x61 <= c <= 0x66 then c - 0x20 else if 0x41 <= c <= 0x46 then c + 0x20 else c
  }

  /** Upper and lower case are read alike: changing the case of any letters
      leaves the bits unchanged. */
  lemma {:induction false} CaseInsensitive(s: Bytes, t: Bytes)
    requires |s| == |t| && forall i :: 0 <= i < |s| ==> t[i] == s[i] || t[i] == OtherCase(s[i])
    ensures HexBits(t) == HexBits(s)
    decreases |s|
  {
    if s != [] {
      CaseInsensitive(s[..|s| - 1], t[..|t| - 1]);
      var c, d := s[|s| - 1], t[|t| - 1];
      assert IsHexByte(d) == IsHexByte(c) && HexByteValue(d) == HexByteValue(c);
    }
  }

  /** Characters that are not hexadecimal digits add no bits. */
  lemma NonDigitSkipped(s: Bytes, c: bv8)
    requires !IsHexByte(c)
    ensures HexBits(s + [c]) == HexBits(s)
  {
    assert (s + [c])[..|s|] == s;
  }
}
