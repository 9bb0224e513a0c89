/** Shared text helpers: decimal rendering as `stringstream << int` does it,
    the "first d characters are '0'" test used by every Proof-of-Work loop,
    and byte strings (a C++ std::string seen as its bytes). */
module Text {

  /** A C++ std::string viewed as the bytes it holds. */
  type Bytes = seq<bv8>

  /** The decimal digits of n, most significant first (no leading zeros). */
  function Digits(n: nat): (r: seq<nat>)
    ensures |r| >= 1
    ensures forall i :: 0 <= i < |r| ==> r[i] < 10
    decreases n
  {
    if n < 10 then [n] else Digits(n / 10) + [n % 10]
  }

  /** `ss << n` for an integer n: an optional '-' then the decimal digits. */
  function IntToString(n: int): (r: string)
    ensures |r| >= 1
  {
    var ds := Digits(if n < 0 then -n else n);
    (if n < 0 then "-" else "") + seq(|ds|, i requires 0 <= i < |ds| => ('0' as int + ds[i]) as char)
  }

  /** The same rendering as bytes (ASCII). */
  function IntToBytes(n: int): (r: Bytes)
    ensures |r| >= 1
  {
    var ds := Digits(if n < 0 then -n else n);
    (if n < 0 then [0x2D] else []) + seq(|ds|, i requires 0 <= i < |ds| => (0x30 + ds[i]) as bv8)
  }

  /** `std::string(n, c)`. */
  function Repeat<T>(c: T, n: nat): (r: seq<T>)
    ensures |r| == n && forall i :: 0 <= i < n ==> r[i] == c
  {
    seq(n, _ => c)
  }

  /** `s.substr(0, n)`: the first n elements, or all of s when it is shorter. */
  function Prefix<T>(s: seq<T>, n: nat): (r: seq<T>)
    ensures |r| == if n <= |s| then n else |s|
    ensures r <= s
  {
    if n <= |s| then s[..n] else s
  }

  /** The first d elements of h exist and all equal z. */
  predicate HasPrefixOf<T(==)>(h: seq<T>, d: nat, z: T) {
    d <= |h| && forall i :: 0 <= i < d ==> h[i] == z
  }

  /** The mining target test, as the C++ writes it: `h.substr(0, d) == string(d, z)`,
      is the same as the first d elements existing and all being z. */
  lemma {:induction false} SubstrTestIsPrefix<T>(h: seq<T>, d: nat, z: T)
    ensures (Prefix(h, d) == Repeat(z, d)) <==> HasPrefixOf(h, d, z)
  {
    if Prefix(h, d) == Repeat(z, d) {
      assert |Prefix(h, d)| == d;
      forall i | 0 <= i < d ensures h[i] == z {
        assert Prefix(h, d)[i] == h[i];
      }
    }
    if HasPrefixOf(h, d, z) {
      assert Prefix(h, d) == h[..d];
      assert h[..d] == Repeat(z, d);
    }
  }

  /** Hash strings of Atelier1 and EX2.cpp: d leading '0' characters. */
  predicate HasZeroPrefix(h: string, d: nat) {
    HasPrefixOf(h, d, '0')
  }

  /** Byte hash strings of Atelier2: d leading ASCII '0' (0x30) bytes. */
  predicate HasZeroBytePrefix(h: Bytes, d: nat) {
    HasPrefixOf(h, d, 0x30 as bv8)
  }

  /** The lowercase hexadecimal digit for 0 <= v < 16, as a byte. */
  function HexDigitByte(v: nat): (c: bv8)
    requires v < 16
    ensures IsLowerHexByte(c) && HexByteValue(c) == v
  {
    if v < 10 then (v as bv8) + 0x30 else (v as bv8) + 0x57
  }

  predicate IsLowerHexByte(c: bv8) {
    (0x30 <= c <= 0x39) || (0x61 <= c <= 0x66)
  }

  /** Value of a hexadecimal digit byte: '0'-'9', 'a'-'f' or 'A'-'F'. */
  function HexByteValue(c: bv8): nat {
    if 0x30 <= c <= 0x39 then (c - 0x30) as nat
    else if 0x61 <= c <= 0x66 then (c - 0x61) as nat + 10
    else if 0x41 <= c <= 0x46 then (c - 0x41) as nat + 10
    else 0
  }

  predicate IsLowerHex(s: Bytes) {
    forall i :: 0 <= i < |s| ==> IsLowerHexByte(s[i])
  }

  /** The n lowercase hex digits of x, most significant first, zero padded:
      `std::hex << std::setw(n) << std::setfill('0') << x` for x < 16^n. */
  function HexDigits(x: nat, n: nat): (r: Bytes)
    ensures |r| == n && IsLowerHex(r)
  {
    if n == 0 then [] else HexDigits(x / 16, n - 1) + [HexDigitByte(x % 16)]
  }

  function Pow2(n: nat): (r: nat)
    ensures r >= 1
  {
    if n == 0 then 1 else 2 * Pow2(n - 1)
  }

  function Pow16(n: nat): (r: nat)
    ensures r >= 1
  {
    if n == 0 then 1 else 16 * Pow16(n - 1)
  }

  /** Reading hex digits back, most significant first. */
  function ParseHex(s: Bytes): nat {
    if s == [] then 0 else 16 * ParseHex(s[..|s| - 1]) + HexByteValue(s[|s| - 1])
  }

  /** The zero-padded rendering loses nothing: parsing it gives x back. */
  lemma {:induction false} HexDigitsRoundTrip(x: nat, n: nat)
    requires x < Pow16(n)
    ensures ParseHex(HexDigits(x, n)) == x
  {
    if n > 0 {
      var r := HexDigits(x, n);
      var q, d := x / 16, x % 16;
      assert x == 16 * q + d;
      assert q < Pow16(n - 1);
      assert r[..|r| - 1] == HexDigits(q, n - 1);
      assert HexByteValue(r[|r| - 1]) == d;
      HexDigitsRoundTrip(q, n - 1);
    }
  }

  /** Equal outer parts: a concatenation determines its middle. */
  lemma MiddleDetermined(p: string, m1: string, m2: string, s: string)
    requires p + m1 + s == p + m2 + s
    ensures m1 == m2
  {
    var whole := p + m1 + s;
    assert |m1| == |m2|;
    assert m1 == whole[|p|..|p| + |m1|];
    assert m2 == (p + m2 + s)[|p|..|p| + |m2|];
  }

}
