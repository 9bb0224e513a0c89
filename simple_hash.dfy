/** sha256_simple of Atelier2/EX2.cpp: two wrapping polynomial accumulators
    over the input bytes, printed as four 16-digit hex fields. Despite its
    name it is not SHA-256. `unsigned long long` arithmetic is written out
    modulo 2^64. */
module SimpleHash {
  import opened Text

  const Two64: nat := 0x1_0000_0000_0000_0000

  /** `input[i]` is a plain `char`, signed here: bytes from 0x80 up are
      negative, and adding one to an `unsigned long long` adds it modulo 2^64. */
  function SignedChar(c: bv8): (v: int)
    ensures -128 <= v < 128
  {
    if c < 0x80 then c as int else c as int - 0x100
  }

  /** hash = (hash << 5) + hash + c from 5381, that is 33 * hash + c, modulo 2^64. */
  function Djb(input: Bytes): (h: nat)
    ensures h < Two64
  {
    if input == [] then 5381 else (33 * Djb(input[..|input| - 1]) + SignedChar(input[|input| - 1])) % Two64
  }

  /** hash2 = hash2 * 31 + c from 1, modulo 2^64. */
  function Poly31(input: Bytes): (h: nat)
    ensures h < Two64
  {
    if input == [] then 1 else (31 * Poly31(input[..|input| - 1]) + SignedChar(input[|input| - 1])) % Two64
  }

  /** Bitwise XOR of the low n bits of a and b. */
  function Xor(a: nat, b: nat, n: nat): (r: nat)
    ensures r < Pow2(n)
  {
    if n == 0 then 0 else 2 * Xor(a / 2, b / 2, n - 1) + (if a % 2 == b % 2 then 0 else 1)
  }

  /** XOR is symmetric. */
  lemma {:induction false} XorSymmetric(a: nat, b: nat, n: nat)
    ensures Xor(a, b, n) == Xor(b, a, n)
    decreases n
  {
    if n > 0 {
      XorSymmetric(a / 2, b / 2, n - 1);
    }
  }

  /** The output stream of sha256_simple: hash, hash2, their XOR and their
      wrapped sum, each as 16 zero-padded lowercase hex digits. */
  function Fields(h: nat, h2: nat): Bytes {
    HexDigits(h, 16) + HexDigits(h2, 16) + HexDigits(Xor(h, h2, 64), 16) + HexDigits((h + h2) % Two64, 16)
  }

  /** sha256_simple. Each unsigned operation wraps modulo 2^64; reducing once
      per step gives the same residue. */
  method Sha256Simple(input: Bytes) returns (r: Bytes)
    ensures r == Fields(Djb(input), Poly31(input))
  {
    var hash := 5381;
    var hash2 := 1;
    var i := 0;
    while i < |input|
      invariant 0 <= i <= |input|
      invariant hash == Djb(input[..i]) && hash2 == Poly31(input[..i])
    {
      assert input[..i + 1][..i] == input[..i];
      hash := (hash * 32 + hash + SignedChar(input[i])) % Two64;
      hash2 := (hash2 * 31 + SignedChar(input[i])) % Two64;
      i := i + 1;
    }
    assert input[..i] == input;
    r := Fields(hash, hash2);
  }

  lemma Pow16Is2To64()
    ensures Pow16(16) == Two64
  {
    assert Pow16(4) == 0x1_0000;
    assert Pow16(8) == 0x1_0000_0000 by {
      assert Pow16(5) == 0x10_0000 && Pow16(6) == 0x100_0000 && Pow16(7) == 0x1000_0000;
    }
    assert Pow16(12) == 0x1_0000_0000_0000 by {
      assert Pow16(9) == 0x10_0000_0000 && Pow16(10) == 0x100_0000_0000 && Pow16(11) == 0x1000_0000_0000;
    }
    assert Pow16(13) == 0x10_0000_0000_0000 && Pow16(14) == 0x100_0000_0000_0000 && Pow16(15) == 0x1000_0000_0000_0000;
  }

  /** Four binary digits make one hex digit. */
  lemma {:induction false} Pow2IsPow16(n: nat)
    ensures Pow2(4 * n) == Pow16(n)
    decreases n
  {
    if n > 0 {
      Pow2IsPow16(n - 1);
      assert Pow2(4 * n) == 2 * Pow2(4 * n - 1) == 4 * Pow2(4 * n - 2) == 8 * Pow2(4 * n - 3) == 16 * Pow2(4 * (n - 1));
    }
  }

  /** A 64-bit value printed as 16 hex digits reads back as itself. */
  lemma WordRoundTrip(w: nat)
    requires w < Two64
    ensures ParseHex(HexDigits(w, 16)) == w
  {
    Pow16Is2To64();
    HexDigitsRoundTrip(w, 16);
  }

  /** The output is 64 lowercase hex digits, and its four 16-digit fields
      read back as hash, hash2, their XOR and their wrapped sum. */
  lemma FieldsRoundTrip(h: nat, h2: nat)
    requires h < Two64 && h2 < Two64
    ensures var r := Fields(h, h2);
      && |r| == 64 && IsLowerHex(r)
      && ParseHex(r[..16]) == h && ParseHex(r[16..32]) == h2
      && ParseHex(r[32..48]) == Xor(h, h2, 64) && ParseHex(r[48..]) == (h + h2) % Two64
  {
    var a, b := HexDigits(h, 16), HexDigits(h2, 16);
    var c, d := HexDigits(Xor(h, h2, 64), 16), HexDigits((h + h2) % Two64, 16);
    var r := Fields(h, h2);
    assert r == a + b + c + d;
    assert r[..16] == a && r[16..32] == b && r[32..48] == c && r[48..] == d;
    Pow16Is2To64();
    Pow2IsPow16(16);
    WordRoundTrip(h);
    WordRoundTrip(h2);
    WordRoundTrip(Xor(h, h2, 64));
    WordRoundTrip((h + h2) % Two64);
    LowerHexConcat(a, b);
    LowerHexConcat(a + b, c);
    LowerHexConcat(a + b + c, d);
  }

  lemma LowerHexConcat(a: Bytes, b: Bytes)
    requires IsLowerHex(a) && IsLowerHex(b)
    ensures IsLowerHex(a + b)
  {
    forall i | 0 <= i < |a + b| ensures IsLowerHexByte((a + b)[i]) {
      if i >= |a| {
        assert (a + b)[i] == b[i - |a|];
      }
    }
  }
}
