/** The SHA-256 functions of picosha2.h (FIPS 180-4). `word_t` is a 64-bit
    `unsigned long` kept to 32 significant bits by mask_32bit; here a word is
    a natural number and the operators are those of WordOps. This module
    holds the big-endian byte conversions, the message schedule, the 64
    rounds and the digest update of one 64-byte block. */
module Sha256Core {
  import opened Text
  import opened WordOps

  /** byte_t, an unsigned char. */
  type Byte = b: nat | b < 256

  const Two32: nat := 0x1_0000_0000

  /** The range of the 64-bit `word_t`. */
  const Two64: nat := 0x1_0000_0000_0000_0000

  /** A value with 32 significant bits, as picosha2's tables hold. */
  type Word32 = x: nat | x < 0x1_0000_0000

  predicate IsWord32(x: nat) {
    x < Two32
  }

  predicate AllWords32(s: seq<nat>) {
    forall i :: 0 <= i < |s| ==> IsWord32(s[i])
  }

  lemma Pow2Of32()
    ensures Pow2(32) == Two32 && Pow2(8) == 256
  {
    assert Pow2(8) == 256;
    Pow2Shift(8, 8);
    Pow2Shift(16, 16);
  }

  /** mask_8bit, and the truncation of a `static_cast<byte_t>`: the low 8 bits. */
  function Mask8(x: nat): (r: Byte)
    ensures r == x % 256
  {
    LowIsMod(x, 8);
    Low(x, 8)
  }

  /** mask_32bit: the low 32 bits, that is, the remainder modulo 2^32. */
  function Mask32(x: nat): (r: nat)
    ensures IsWord32(r)
  {
    LowIsMod(x, 32);
    Pow2Of32();
    Low(x, 32)
  }

  /** mask_32bit is reduction modulo 2^32 and keeps a 32-bit word. */
  lemma Mask32IsMod(x: nat)
    ensures Mask32(x) == x % Two32
    ensures x < Two32 ==> Mask32(x) == x
  {
    LowIsMod(x, 32);
    Pow2Of32();
    if x < Two32 {
      DivModUnique(x, Two32, 0, x);
    }
  }

  /** The sixty-four round constants of section 4.2.2 of FIPS 180-4. */
  const K: seq<Word32> := [
    0x428a2f98, 0x71374491, 0xb5c0fbcf, 0xe9b5dba5, 0x3956c25b, 0x59f111f1, 0x923f82a4, 0xab1c5ed5,
    0xd807aa98, 0x12835b01, 0x243185be, 0x550c7dc3, 0x72be5d74, 0x80deb1fe, 0x9bdc06a7, 0xc19bf174,
    0xe49b69c1, 0xefbe4786, 0x0fc19dc6, 0x240ca1cc, 0x2de92c6f, 0x4a7484aa, 0x5cb0a9dc, 0x76f988da,
    0x983e5152, 0xa831c66d, 0xb00327c8, 0xbf597fc7, 0xc6e00bf3, 0xd5a79147, 0x06ca6351, 0x14292967,
    0x27b70a85, 0x2e1b2138, 0x4d2c6dfc, 0x53380d13, 0x650a7354, 0x766a0abb, 0x81c2c92e, 0x92722c85,
    0xa2bfe8a1, 0xa81a664b, 0xc24b8b70, 0xc76c51a3, 0xd192e819, 0xd6990624, 0xf40e3585, 0x106aa070,
    0x19a4c116, 0x1e376c08, 0x2748774c, 0x34b0bcb5, 0x391c0cb3, 0x4ed8aa4a, 0x5b9cca4f, 0x682e6ff3,
    0x748f82ee, 0x78a5636f, 0x84c87814, 0x8cc70208, 0x90befffa, 0xa4506ceb, 0xbef9a3f7, 0xc67178f2
  ]

  /** The initial hash value of section 5.3.3 of FIPS 180-4. */
  const IV: seq<Word32> := [0x6a09e667, 0xbb67ae85, 0x3c6ef372, 0xa54ff53a, 0x510e527f, 0x9b05688c, 0x1f83d9ab, 0x5be0cd19]

  /** ch, with `~x` the complement of the 64-bit word. */
  function Ch(x: nat, y: nat, z: nat): nat {
    Xor(And(x, y), And(Not(x, 64), z))
  }

  function Maj(x: nat, y: nat, z: nat): nat {
    Xor(Xor(And(x, y), And(x, z)), And(y, z))
  }

  /** Ch chooses, bit by bit, y where x is set and z where it is clear
      (section 4.1.2 of FIPS 180-4). */
  lemma ChChooses(x: nat, y: nat, z: nat, i: nat)
    requires i < 64
    ensures Bit(Ch(x, y, z), i) == if Bit(x, i) then Bit(y, i) else Bit(z, i)
  {
    XorBit(And(x, y), And(Not(x, 64), z), i);
    AndBit(x, y, i);
    AndBit(Not(x, 64), z, i);
    NotBit(x, 64, i);
  }

  /** Maj is, bit by bit, the majority of its three arguments. */
  lemma MajIsMajority(x: nat, y: nat, z: nat, i: nat)
    ensures Bit(Maj(x, y, z), i) == ((Bit(x, i) && Bit(y, i)) || (Bit(x, i) && Bit(z, i)) || (Bit(y, i) && Bit(z, i)))
  {
    XorBit(Xor(And(x, y), And(x, z)), And(y, z), i);
    XorBit(And(x, y), And(x, z), i);
    AndBit(x, y, i);
    AndBit(x, z, i);
    AndBit(y, z, i);
  }

  /** On 32-bit words, ch and maj give 32-bit words. */
  lemma ChMajAreWords(x: nat, y: nat, z: nat)
    requires IsWord32(x) && IsWord32(y) && IsWord32(z)
    ensures IsWord32(Ch(x, y, z)) && IsWord32(Maj(x, y, z))
  {
    Pow2Of32();
    AndBound(x, y, 32);
    AndBound(Not(x, 64), z, 32);
    XorBound(And(x, y), And(Not(x, 64), z), 32);
    AndBound(x, z, 32);
    AndBound(y, z, 32);
    XorBound(And(x, y), And(x, z), 32);
    XorBound(Xor(And(x, y), And(x, z)), And(y, z), 32);
  }

  /** rotr: `(x >> n) | (x << (32 - n))` in 64 bits, masked to 32. */
  function Rotr(x: nat, n: nat): (r: nat)
    requires 0 < n < 32
    ensures IsWord32(r)
  {
    Mask32(Or(Shr(x, n), Low(Shl(x, 32 - n), 64)))
  }

  /** On a 32-bit word rotr is a rotation: bit i of the result is bit
      (i + n) mod 32 of the word. */
  lemma RotrIsRotation(x: nat, n: nat, i: nat)
    requires IsWord32(x) && 0 < n < 32 && i < 32
    ensures Bit(Rotr(x, n), i) == Bit(x, (i + n) % 32)
  {
    RotrBit(x, n, i);
    if i + n < 32 {
      assert (i + n) % 32 == i + n;
    } else {
      Pow2Of32();
      HighBitsClear(x, 32, i + n);
      assert (i + n) % 32 == i + n - 32;
    }
  }

  /** Bit i of rotr(x, n): bit i + n of x, or, from the left shift, bit
      i - (32 - n). */
  lemma RotrBit(x: nat, n: nat, i: nat)
    requires 0 < n < 32 && i < 32
    ensures Bit(Rotr(x, n), i) == (Bit(x, i + n) || (i >= 32 - n && Bit(x, i - (32 - n))))
  {
    var lo, hi := Shr(x, n), Low(Shl(x, 32 - n), 64);
    var y := Or(lo, hi);
    assert Rotr(x, n) == Low(y, 32);
    LowBit(y, 32, i);
    OrBit(lo, hi, i);
    ShrBit(x, n, i);
    LowBit(Shl(x, 32 - n), 64, i);
    ShlBit(x, 32 - n, i);
  }


  function Bsig0(x: nat): nat {
    Xor(Xor(Rotr(x, 2), Rotr(x, 13)), Rotr(x, 22))
  }

  function Bsig1(x: nat): nat {
    Xor(Xor(Rotr(x, 6), Rotr(x, 11)), Rotr(x, 25))
  }

  function Ssig0(x: nat): nat {
    Xor(Xor(Rotr(x, 7), Rotr(x, 18)), Shr(x, 3))
  }

  function Ssig1(x: nat): nat {
    Xor(Xor(Rotr(x, 17), Rotr(x, 19)), Shr(x, 10))
  }

  /** ROTR^2 xor ROTR^13 xor ROTR^22, bit by bit (section 4.1.2 of FIPS 180-4). */
  lemma Bsig0Bits(x: nat, i: nat)
    requires IsWord32(x) && i < 32
    ensures Bit(Bsig0(x), i) == ((Bit(x, (i + 2) % 32) != Bit(x, (i + 13) % 32)) != Bit(x, (i + 22) % 32))
  {
    XorBit(Xor(Rotr(x, 2), Rotr(x, 13)), Rotr(x, 22), i);
    XorBit(Rotr(x, 2), Rotr(x, 13), i);
    RotrIsRotation(x, 2, i);
    RotrIsRotation(x, 13, i);
    RotrIsRotation(x, 22, i);
  }

  /** ROTR^6 xor ROTR^11 xor ROTR^25. */
  lemma Bsig1Bits(x: nat, i: nat)
    requires IsWord32(x) && i < 32
    ensures Bit(Bsig1(x), i) == ((Bit(x, (i + 6) % 32) != Bit(x, (i + 11) % 32)) != Bit(x, (i + 25) % 32))
  {
    XorBit(Xor(Rotr(x, 6), Rotr(x, 11)), Rotr(x, 25), i);
    XorBit(Rotr(x, 6), Rotr(x, 11), i);
    RotrIsRotation(x, 6, i);
    RotrIsRotation(x, 11, i);
    RotrIsRotation(x, 25, i);
  }

  /** ROTR^7 xor ROTR^18 xor SHR^3: the shift brings in zeros from above bit 31. */
  lemma Ssig0Bits(x: nat, i: nat)
    requires IsWord32(x) && i < 32
    ensures Bit(Ssig0(x), i) == ((Bit(x, (i + 7) % 32) != Bit(x, (i + 18) % 32)) != (i + 3 < 32 && Bit(x, i + 3)))
  {
    XorBit(Xor(Rotr(x, 7), Rotr(x, 18)), Shr(x, 3), i);
    XorBit(Rotr(x, 7), Rotr(x, 18), i);
    RotrIsRotation(x, 7, i);
    RotrIsRotation(x, 18, i);
    ShrBit(x, 3, i);
    if i + 3 >= 32 {
      Pow2Of32();
      HighBitsClear(x, 32, i + 3);
    }
  }

  /** ROTR^17 xor ROTR^19 xor SHR^10. */
  lemma Ssig1Bits(x: nat, i: nat)
    requires IsWord32(x) && i < 32
    ensures Bit(Ssig1(x), i) == ((Bit(x, (i + 17) % 32) != Bit(x, (i + 19) % 32)) != (i + 10 < 32 && Bit(x, i + 10)))
  {
    XorBit(Xor(Rotr(x, 17), Rotr(x, 19)), Shr(x, 10), i);
    XorBit(Rotr(x, 17), Rotr(x, 19), i);
    RotrIsRotation(x, 17, i);
    RotrIsRotation(x, 19, i);
    ShrBit(x, 10, i);
    if i + 10 >= 32 {
      Pow2Of32();
      HighBitsClear(x, 32, i + 10);
    }
  }

  /** The four sigma functions give 32-bit words. */
  lemma SigmasAreWords(x: nat)
    requires IsWord32(x)
    ensures IsWord32(Bsig0(x)) && IsWord32(Bsig1(x)) && IsWord32(Ssig0(x)) && IsWord32(Ssig1(x))
  {
    Pow2Of32();
    XorBound(Rotr(x, 2), Rotr(x, 13), 32);
    XorBound(Xor(Rotr(x, 2), Rotr(x, 13)), Rotr(x, 22), 32);
    XorBound(Rotr(x, 6), Rotr(x, 11), 32);
    XorBound(Xor(Rotr(x, 6), Rotr(x, 11)), Rotr(x, 25), 32);
    ShrBound(x, 3, 32);
    XorBound(Rotr(x, 7), Rotr(x, 18), 32);
    XorBound(Xor(Rotr(x, 7), Rotr(x, 18)), Shr(x, 3), 32);
    ShrBound(x, 10, 32);
    XorBound(Rotr(x, 17), Rotr(x, 19), 32);
    XorBound(Xor(Rotr(x, 17), Rotr(x, 19)), Shr(x, 10), 32);
  }

  /** The number a byte sequence spells, most significant byte first. */
  function BigEndian(s: seq<Byte>): nat {
    if s == [] then 0 else BigEndian(s[..|s| - 1]) * 256 + s[|s| - 1]
  }

  /** The n bytes `static_cast<byte_t>(x >> (8 * (n - 1 - i)))`, i = 0 .. n - 1. */
  function BytesOf(x: nat, n: nat): (r: seq<Byte>)
    ensures |r| == n
  {
    seq(n, i requires 0 <= i < n => Mask8(Shr(x, 8 * (n - 1 - i))))
  }

  lemma {:induction false} ShrShr(x: nat, a: nat, b: nat)
    ensures Shr(Shr(x, a), b) == Shr(x, a + b)
    decreases a
  {
    if a > 0 {
      ShrShr(x / 2, a - 1, b);
    }
  }

  /** Reducing x / a modulo b, then appending x % a, is x modulo a * b. */
  lemma DivModCombine(x: nat, a: nat, b: nat)
    requires a > 0 && b > 0
    ensures (x / a) % b * a + x % a == x % (a * b)
  {
    var q, r := (x / a) / b, (x / a) % b;
    assert x / a == b * q + r;
    assert x == (a * b) * q + (r * a + x % a);
    assert r * a + x % a < a * b by {
      MulAtLeast(a, b - r);
      assert a * (b - r) == a * b - r * a;
    }
    DivModUnique(x, a * b, q, r * a + x % a);
  }

  /** BytesOf is the big-endian encoding of x modulo 2^(8n). */
  lemma {:induction false} BytesOfValue(x: nat, n: nat)
    ensures BigEndian(BytesOf(x, n)) == x % Pow2(8 * n)
    decreases n
  {
    if n > 0 {
      var s := BytesOf(x, n);
      var y := Shr(x, 8);
      forall i | 0 <= i < n - 1 ensures s[i] == BytesOf(y, n - 1)[i] {
        ShrShr(x, 8, 8 * (n - 2 - i));
      }
      assert s[..n - 1] == BytesOf(y, n - 1);
      var p := Pow2(8 * (n - 1));
      BytesOfValue(y, n - 1);
      assert BigEndian(s[..n - 1]) == y % p;
      assert 8 * (n - 1 - (n - 1)) == 0;
      assert s[n - 1] == Mask8(Shr(x, 0)) == x % 256;
      Pow2Of32();
      ShrIsDiv(x, 8);
      assert y == x / 256;
      Pow2Shift(8, 8 * (n - 1));
      assert Pow2(8 * n) == 256 * p;
      DivModCombine(x, 256, p);
      assert BigEndian(s) == BigEndian(s[..n - 1]) * 256 + s[n - 1];
    }
  }

  /** One word of a block as hash256_block loads it. */
  function BlockWord(block: seq<Byte>, i: nat): nat
    requires i < 16 && |block| == 64
  {
    Mask32(Or(Or(Or(Shl(block[4 * i], 24), Shl(block[4 * i + 1], 16)), Shl(block[4 * i + 2], 8)), block[4 * i + 3]))
  }

  /** Numbers without a common bit: Or adds them. */
  lemma {:induction false} OrOfDisjoint(x: nat, y: nat)
    requires forall i: nat :: !(Bit(x, i) && Bit(y, i))
    ensures Or(x, y) == x + y
    decreases x + y
  {
    if x != 0 && y != 0 {
      assert !(Bit(x, 0) && Bit(y, 0));
      forall i: nat ensures !(Bit(x / 2, i) && Bit(y / 2, i)) {
        assert !(Bit(x, i + 1) && Bit(y, i + 1));
      }
      OrOfDisjoint(x / 2, y / 2);
    }
  }

  /** A multiple of 2^m has no bit below m, a number below 2^m none at or
      above m: Or adds them. */
  lemma OrOfSplit(x: nat, y: nat, m: nat)
    requires x % Pow2(m) == 0 && y < Pow2(m)
    ensures Or(x, y) == x + y
  {
    LowIsMod(x, m);
    forall i: nat ensures !(Bit(x, i) && Bit(y, i)) {
      LowBit(x, m, i);
      ZeroBit(i);
      if i >= m {
        HighBitsClear(y, m, i);
      }
    }
    OrOfDisjoint(x, y);
  }

  lemma ByteTimes(b: nat, p: nat)
    requires b < 256 && p > 0
    ensures b * p < 256 * p
  {
    MulAtLeast(p, 256 - b);
    assert p * (256 - b) == 256 * p - b * p;
  }

  /** Or-ing byte b in at bit m below a number shifted to bit m + 8 appends
      the byte: (B << (m + 8)) | (b << m) == (256 B + b) << m. */
  lemma ShiftIn(hi: nat, b: nat, m: nat)
    requires b < 256
    ensures Or(hi * Pow2(m + 8), b * Pow2(m)) == (hi * 256 + b) * Pow2(m)
  {
    var p := Pow2(m);
    Pow2Of32();
    Pow2Shift(m, 8);
    assert Pow2(m + 8) == 256 * p;
    DivModUnique(hi * Pow2(m + 8), Pow2(m + 8), hi, 0);
    ByteTimes(b, p);
    OrOfSplit(hi * Pow2(m + 8), b * p, m + 8);
    MulShift(hi, b, p);
  }

  lemma MulShift(hi: nat, b: nat, p: nat)
    ensures hi * (256 * p) + b * p == (hi * 256 + b) * p
  {
    assert hi * (256 * p) == (hi * 256) * p;
  }

  /** n bytes spell a number below 2^(8n). */
  lemma {:induction false} BigEndianBound(s: seq<Byte>)
    ensures BigEndian(s) < Pow2(8 * |s|)
    decreases |s|
  {
    if s != [] {
      var n := |s| - 1;
      BigEndianBound(s[..n]);
      Pow2Of32();
      Pow2Shift(8 * n, 8);
      assert Pow2(8 * |s|) == Pow2(8 * n) * 256;
      assert BigEndian(s[..n]) + 1 <= Pow2(8 * n);
      MulAtLeast(256, Pow2(8 * n) - BigEndian(s[..n]));
    }
  }

  /** hash256_block reads word i most significant byte first. */
  lemma BlockWordValue(block: seq<Byte>, i: nat)
    requires i < 16 && |block| == 64
    ensures BlockWord(block, i) == BigEndian(block[4 * i..4 * i + 4])
  {
    var b0: nat, b1: nat, b2: nat, b3: nat := block[4 * i], block[4 * i + 1], block[4 * i + 2], block[4 * i + 3];
    var hi := b0 * 256 + b1;
    var mid := hi * 256 + b2;
    var x1 := Or(Shl(b0, 24), Shl(b1, 16));
    ShlIn(b0, b1, 16);
    assert x1 == Shl(hi, 16);
    var x2 := Or(x1, Shl(b2, 8));
    ShlIn(hi, b2, 8);
    assert x2 == Shl(mid, 8);
    var x3 := Or(x2, b3);
    OrLastByte(mid, b3);
    var s := block[4 * i..4 * i + 4];
    assert BigEndian(s) == x3 by {
      BigEndianOfFour(s);
      assert s[0] == b0 && s[1] == b1 && s[2] == b2 && s[3] == b3;
    }
    assert Mask32(x3) == x3 by {
      BigEndianBound(s);
      Pow2Of32();
      Mask32IsMod(x3);
    }
  }

  /** The same in shifts: (hi << (m + 8)) | (b << m) == (256 hi + b) << m. */
  lemma ShlIn(hi: nat, b: nat, m: nat)
    requires b < 256
    ensures Or(Shl(hi, m + 8), Shl(b, m)) == Shl(hi * 256 + b, m)
  {
    ShlIsMul(hi, m + 8);
    ShlIsMul(b, m);
    ShlIsMul(hi * 256 + b, m);
    ShiftIn(hi, b, m);
  }

  lemma OrLastByte(hi: nat, b: nat)
    requires b < 256
    ensures Or(Shl(hi, 8), b) == hi * 256 + b
  {
    ShlIn(hi, b, 0);
    assert Shl(b, 0) == b;
  }

  lemma BigEndianOfFour(s: seq<Byte>)
    requires |s| == 4
    ensures BigEndian(s) == ((s[0] as nat * 256 + s[1]) * 256 + s[2]) * 256 + s[3]
  {
    assert s[..3][..2] == s[..2] && s[..2][..1] == s[..1] && s[..1][..0] == [];
    assert BigEndian(s[..1]) == s[0];
    assert BigEndian(s[..2]) == s[0] as nat * 256 + s[1];
    assert BigEndian(s[..3]) == (s[0] as nat * 256 + s[1]) * 256 + s[2];
  }

  /** The next schedule word after ws. */
  function NextScheduleWord(ws: seq<nat>): nat
    requires |ws| >= 16
  {
    var t := |ws|;
    Mask32(Ssig1(ws[t - 2]) + ws[t - 7] + Ssig0(ws[t - 15]) + ws[t - 16])
  }

  /** The schedule extended word by word up to 64 words. */
  function Extend(ws: seq<nat>): (r: seq<nat>)
    requires 16 <= |ws| <= 64
    ensures |r| == 64
    decreases 64 - |ws|
  {
    if |ws| == 64 then ws else Extend(ws + [NextScheduleWord(ws)])
  }

  /** Extending keeps the words it started from. */
  lemma {:induction false} ExtendKeepsPrefix(ws: seq<nat>)
    requires 16 <= |ws| <= 64
    ensures Extend(ws)[..|ws|] == ws
    decreases 64 - |ws|
  {
    if |ws| < 64 {
      var next := ws + [NextScheduleWord(ws)];
      ExtendKeepsPrefix(next);
      assert Extend(ws)[..|ws|] == Extend(next)[..|next|][..|ws|];
    }
  }

  /** The first n words of a block, in the order hash256_block loads them. */
  function BlockWords(block: seq<Byte>, n: nat): (r: seq<nat>)
    requires |block| == 64 && n <= 16
    ensures |r| == n
  {
    if n == 0 then [] else BlockWords(block, n - 1) + [BlockWord(block, n - 1)]
  }

  lemma {:induction false} BlockWordsAt(block: seq<Byte>, n: nat, i: nat)
    requires |block| == 64 && i < n <= 16
    ensures BlockWords(block, n)[i] == BlockWord(block, i)
  {
    var prev := BlockWords(block, n - 1);
    assert BlockWords(block, n) == prev + [BlockWord(block, n - 1)];
    if i < n - 1 {
      BlockWordsAt(block, n - 1, i);
      assert (prev + [BlockWord(block, n - 1)])[i] == prev[i];
    }
  }

  /** The message schedule of one block. */
  function Schedule(block: seq<Byte>): (r: seq<nat>)
    requires |block| == 64
    ensures |r| == 64
  {
    Extend(BlockWords(block, 16))
  }

  /** Word t of the extension, for t past the given words, follows the recurrence. */
  lemma {:induction false} ExtendStep(ws: seq<nat>, t: nat)
    requires 16 <= |ws| <= t < 64
    ensures Extend(ws)[t] == NextScheduleWord(Extend(ws)[..t])
    decreases 64 - |ws|
  {
    var next := ws + [NextScheduleWord(ws)];
    if t == |ws| {
      ExtendKeepsPrefix(next);
      assert Extend(ws)[..t] == ws;
    } else {
      ExtendStep(next, t);
    }
  }

  /** The schedule of section 6.2.2 of FIPS 180-4: the sixteen big-endian
      words of the block, then
      W[t] = (ssig1(W[t-2]) + W[t-7] + ssig0(W[t-15]) + W[t-16]) mod 2^32. */
  lemma ScheduleRecurrence(block: seq<Byte>, t: nat)
    requires |block| == 64 && t < 64
    ensures t < 16 ==> Schedule(block)[t] == BigEndian(block[4 * t..4 * t + 4])
    ensures t >= 16 ==> var w := Schedule(block);
      w[t] == (Ssig1(w[t - 2]) + w[t - 7] + Ssig0(w[t - 15]) + w[t - 16]) % Two32
  {
    if t < 16 {
      ScheduleHead(block, t);
    } else {
      ScheduleTail(block, t);
    }
  }

  lemma ScheduleTail(block: seq<Byte>, t: nat)
    requires |block| == 64 && 16 <= t < 64
    ensures var w := Schedule(block);
      w[t] == (Ssig1(w[t - 2]) + w[t - 7] + Ssig0(w[t - 15]) + w[t - 16]) % Two32
  {
    var w := Schedule(block);
    assert w == Extend(BlockWords(block, 16));
    ExtendRecurrence(BlockWords(block, 16), t);
  }

  lemma ScheduleHead(block: seq<Byte>, t: nat)
    requires |block| == 64 && t < 16
    ensures Schedule(block)[t] == BigEndian(block[4 * t..4 * t + 4])
  {
    var ws := BlockWords(block, 16);
    ExtendKeepsPrefix(ws);
    assert Schedule(block)[..16] == ws;
    assert Schedule(block)[t] == ws[t];
    BlockWordsAt(block, 16, t);
    BlockWordValue(block, t);
  }

  lemma ExtendRecurrence(ws: seq<nat>, t: nat)
    requires |ws| == 16 && 16 <= t < 64
    ensures var w := Extend(ws);
      w[t] == (Ssig1(w[t - 2]) + w[t - 7] + Ssig0(w[t - 15]) + w[t - 16]) % Two32
  {
    ExtendStep(ws, t);
    NextWordOfPrefix(Extend(ws), t);
  }

  /** The next word after the first t words of w, read from w itself. */
  lemma NextWordIs(w: seq<nat>, t: nat)
    requires 16 <= t <= |w|
    ensures NextScheduleWord(w[..t]) == Mask32(Ssig1(w[t - 2]) + w[t - 7] + Ssig0(w[t - 15]) + w[t - 16])
  {
    var p := w[..t];
    assert p[t - 2] == w[t - 2] && p[t - 7] == w[t - 7] && p[t - 15] == w[t - 15] && p[t - 16] == w[t - 16];
  }

  lemma NextWordOfPrefix(w: seq<nat>, t: nat)
    requires 16 <= t <= |w|
    ensures NextScheduleWord(w[..t]) == (Ssig1(w[t - 2]) + w[t - 7] + Ssig0(w[t - 15]) + w[t - 16]) % Two32
  {
    NextWordIs(w, t);
    Mask32IsMod(Ssig1(w[t - 2]) + w[t - 7] + Ssig0(w[t - 15]) + w[t - 16]);
  }

  /** The working variables a .. h. */
  datatype Vars = Vars(a: nat, b: nat, c: nat, d: nat, e: nat, f: nat, g: nat, h: nat)

  /** One round as the source adds: temp1 and temp2 are unmasked sums,
      masked where a and e are assigned. */
  function Round(v: Vars, k: nat, w: nat): Vars {
    var temp1 := v.h + Bsig1(v.e) + Ch(v.e, v.f, v.g) + k + w;
    var temp2 := Bsig0(v.a) + Maj(v.a, v.b, v.c);
    Vars(Mask32(temp1 + temp2), v.a, v.b, v.c, Mask32(v.d + temp1), v.e, v.f, v.g)
  }

  predicate VarsAreWords(v: Vars) {
    IsWord32(v.a) && IsWord32(v.b) && IsWord32(v.c) && IsWord32(v.d) && IsWord32(v.e) && IsWord32(v.f) && IsWord32(v.g) && IsWord32(v.h)
  }

  /** A bound on every unmasked sum of one round: temp1 + temp2 and d + temp1
      are both at most this. */
  function RoundSum(v: Vars, k: nat, w: nat): nat {
    v.h + Bsig1(v.e) + Ch(v.e, v.f, v.g) + k + w + Bsig0(v.a) + Maj(v.a, v.b, v.c) + v.d
  }

  /** On 32-bit words no sum in a round reaches 2^64, so the source's 64-bit
      `word_t` arithmetic never wraps; the round gives 32-bit words again. */
  lemma RoundStaysInRange(v: Vars, k: nat, w: nat)
    requires VarsAreWords(v) && IsWord32(k) && IsWord32(w)
    ensures RoundSum(v, k, w) < Two64
    ensures VarsAreWords(Round(v, k, w))
  {
    SigmasAreWords(v.e);
    SigmasAreWords(v.a);
    ChMajAreWords(v.e, v.f, v.g);
    ChMajAreWords(v.a, v.b, v.c);
  }

  /** The first t rounds over schedule ws. */
  function Rounds(v: Vars, ws: seq<nat>, t: nat): Vars
    requires t <= 64 && |ws| == 64
  {
    if t == 0 then v else Round(Rounds(v, ws, t - 1), K[t - 1], ws[t - 1])
  }

  /** Round s (counting from 0) over schedule ws sums below 2^64. */
  predicate RoundInRange(v: Vars, ws: seq<nat>, s: nat)
    requires s < 64 && |ws| == 64
  {
    RoundSum(Rounds(v, ws, s), K[s], ws[s]) < Two64
  }

  /** Over a schedule of 32-bit words, the first t rounds keep the working
      variables 32-bit words. */
  lemma {:induction false} RoundsAreWords(v: Vars, ws: seq<nat>, t: nat)
    requires VarsAreWords(v) && |ws| == 64 && AllWords32(ws) && t <= 64
    ensures VarsAreWords(Rounds(v, ws, t))
  {
    if t > 0 {
      var u := Rounds(v, ws, t - 1);
      var k: Word32 := K[t - 1];
      RoundsAreWords(v, ws, t - 1);
      RoundStaysInRange(u, k, ws[t - 1]);
      assert Rounds(v, ws, t) == Round(u, k, ws[t - 1]);
    }
  }

  /** Over a schedule of 32-bit words, every one of the 64 rounds starts from
      32-bit words, so none of its sums reaches 2^64. */
  lemma RoundsStayInRange(v: Vars, ws: seq<nat>)
    requires VarsAreWords(v) && |ws| == 64 && AllWords32(ws)
    ensures forall s :: 0 <= s < 64 ==> RoundInRange(v, ws, s)
  {
    forall s | 0 <= s < 64
      ensures RoundInRange(v, ws, s)
    {
      RoundsAreWords(v, ws, s);
      var k: Word32 := K[s];
      RoundStaysInRange(Rounds(v, ws, s), k, ws[s]);
    }
  }

  /** All rounds, one per schedule word. */
  function AllRounds(v: Vars, ws: seq<nat>): Vars
    requires |ws| == 64
  {
    Rounds(v, ws, |ws|)
  }

  function VarsOf(digest: seq<nat>): Vars
    requires |digest| == 8
  {
    Vars(digest[0], digest[1], digest[2], digest[3], digest[4], digest[5], digest[6], digest[7])
  }

  function VarsSeq(v: Vars): (r: seq<nat>)
    ensures |r| == 8
  {
    [v.a, v.b, v.c, v.d, v.e, v.f, v.g, v.h]
  }

  /** The digest update: each word plus the matching working variable, masked. */
  function AddWords(digest: seq<nat>, v: seq<nat>): (r: seq<nat>)
    requires |digest| == 8 && |v| == 8
    ensures |r| == 8 && AllWords32(r)
    ensures forall i :: 0 <= i < 8 ==> r[i] == (digest[i] + v[i]) % Two32
  {
    var r := seq(8, i requires 0 <= i < 8 => Mask32(digest[i] + v[i]));
    assert forall i :: 0 <= i < 8 ==> r[i] == (digest[i] + v[i]) % Two32 by {
      forall i | 0 <= i < 8 {
        Mask32IsMod(digest[i] + v[i]);
      }
    }
    r
  }

  /** hash256_block on values: the digest plus the working variables after
      the 64 rounds over the block's schedule. */
  function Compress(digest: seq<nat>, block: seq<Byte>): (r: seq<nat>)
    requires |digest| == 8 && |block| == 64
    ensures |r| == 8 && AllWords32(r)
  {
    AddWords(digest, VarsSeq(AllRounds(VarsOf(digest), Schedule(block))))
  }

  /** The unmasked sum of the second loop of hash256_block for word t. */
  function ScheduleSum(w: seq<nat>, t: nat): nat
    requires 16 <= t < |w|
  {
    Ssig1(w[t - 2]) + w[t - 7] + Ssig0(w[t - 15]) + w[t - 16]
  }

  /** Every word of a block's schedule is a 32-bit word. */
  lemma ScheduleIsWords(block: seq<Byte>)
    requires |block| == 64
    ensures AllWords32(Schedule(block))
  {
    var w := Schedule(block);
    forall t | 0 <= t < 64
      ensures IsWord32(w[t])
    {
      ScheduleRecurrence(block, t);
      if t < 16 {
        BigEndianBound(block[4 * t..4 * t + 4]);
        Pow2Of32();
      }
    }
  }

  /** No unmasked sum of the second loop of hash256_block reaches 2^64. */
  lemma ScheduleSumsInRange(block: seq<Byte>)
    requires |block| == 64
    ensures forall t :: 16 <= t < 64 ==> ScheduleSum(Schedule(block), t) < Two64
  {
    var w := Schedule(block);
    ScheduleIsWords(block);
    forall t | 16 <= t < 64
      ensures ScheduleSum(w, t) < Two64
    {
      SigmasAreWords(w[t - 2]);
      SigmasAreWords(w[t - 15]);
    }
  }

  /** Adding 32-bit working variables to a 32-bit digest stays below 2^64. */
  lemma DigestSumsInRange(digest: seq<nat>, v: Vars)
    requires |digest| == 8 && AllWords32(digest) && VarsAreWords(v)
    ensures forall i :: 0 <= i < 8 ==> digest[i] + VarsSeq(v)[i] < Two64
  {
  }

  /** hash256_block in 64-bit `word_t` arithmetic never wraps, for a digest
      of 32-bit words: no schedule sum, no round sum and no digest addition
      `message_digest[i] += ...` reaches 2^64. */
  lemma CompressStaysInRange(digest: seq<nat>, block: seq<Byte>)
    requires |digest| == 8 && AllWords32(digest) && |block| == 64
    ensures forall t :: 16 <= t < 64 ==> ScheduleSum(Schedule(block), t) < Two64
    ensures forall s :: 0 <= s < 64 ==> RoundInRange(VarsOf(digest), Schedule(block), s)
    ensures forall i :: 0 <= i < 8 ==> digest[i] + VarsSeq(AllRounds(VarsOf(digest), Schedule(block)))[i] < Two64
  {
    var w := Schedule(block);
    ScheduleSumsInRange(block);
    ScheduleIsWords(block);
    var v0 := VarsOf(digest);
    assert VarsAreWords(v0) by {
      assert IsWord32(digest[0]) && IsWord32(digest[1]) && IsWord32(digest[2]) && IsWord32(digest[3]);
      assert IsWord32(digest[4]) && IsWord32(digest[5]) && IsWord32(digest[6]) && IsWord32(digest[7]);
    }
    RoundsStayInRange(v0, w);
    RoundsAreWords(v0, w, 64);
    DigestSumsInRange(digest, AllRounds(v0, w));
  }

  /** One pass of the first loop of hash256_block: four bytes shifted
      into place and combined. */
  method LoadWord(block: seq<Byte>, i: nat) returns (r: nat)
    requires |block| == 64 && i < 16
    ensures r == BlockWord(block, i)
  {
    r := Mask32(Or(Or(Or(Shl(block[i * 4], 24), Shl(block[i * 4 + 1], 16)), Shl(block[i * 4 + 2], 8)), block[i * 4 + 3]));
  }

  /** One pass of the second loop of hash256_block. */
  method ScheduleWord(w2: nat, w7: nat, w15: nat, w16: nat) returns (r: nat)
    ensures r == Mask32(Ssig1(w2) + w7 + Ssig0(w15) + w16)
  {
    r := Mask32(Ssig1(w2) + w7 + Ssig0(w15) + w16);
  }

  /** The first loop of hash256_block: sixteen words loaded from the block. */
  method LoadWords(block: seq<Byte>, w: array<nat>)
    requires |block| == 64 && w.Length == 64
    modifies w
    ensures w[..16] == BlockWords(block, 16)
  {
    var i := 0;
    while i < 16
      invariant 0 <= i <= 16
      invariant w[..i] == BlockWords(block, i)
    {
      w[i] := LoadWord(block, i);
      assert w[..i + 1] == w[..i] + [w[i]];
      i := i + 1;
    }
  }

  /** The second loop of hash256_block: the other 48 words by the recurrence. */
  method ExtendWords(w: array<nat>)
    requires w.Length == 64
    modifies w
    ensures w[..] == Extend(old(w[..16]))
  {
    ghost var start := w[..16];
    var i := 16;
    while i < 64
      invariant 16 <= i <= 64
      invariant Extend(w[..i]) == Extend(start)
    {
      ghost var prefix := w[..i];
      NextWordIs(w[..], i);
      assert w[..][..i] == prefix;
      w[i] := ScheduleWord(w[i - 2], w[i - 7], w[i - 15], w[i - 16]);
      assert w[..i + 1] == prefix + [w[i]];
      i := i + 1;
    }
    assert w[..] == w[..64];
  }

  /** The schedule of hash256_block, in a fresh array. */
  method LoadSchedule(block: seq<Byte>) returns (w: array<nat>)
    requires |block| == 64
    ensures fresh(w) && w[..] == Schedule(block)
  {
    w := new nat[64](_ => 0);
    LoadWords(block, w);
    ExtendWords(w);
  }

  /** One pass of the round loop of hash256_block. */
  method RoundStep(a: nat, b: nat, c: nat, d: nat, e: nat, f: nat, g: nat, h: nat, k: nat, wi: nat)
    returns (a': nat, b': nat, c': nat, d': nat, e': nat, f': nat, g': nat, h': nat)
    ensures Vars(a', b', c', d', e', f', g', h') == Round(Vars(a, b, c, d, e, f, g, h), k, wi)
  {
    var temp1 := h + Bsig1(e) + Ch(e, f, g) + k + wi;
    var temp2 := Bsig0(a) + Maj(a, b, c);
    h' := g;
    g' := f;
    f' := e;
    e' := Mask32(d + temp1);
    d' := c;
    c' := b;
    b' := a;
    a' := Mask32(temp1 + temp2);
  }

  /** The round loop of hash256_block, on the working variables. */
  method RunRounds(w: array<nat>, v: Vars) returns (r: Vars)
    requires w.Length == 64
    ensures r == AllRounds(v, w[..])
  {
    var a, b, c, d, e, f, g, h := v.a, v.b, v.c, v.d, v.e, v.f, v.g, v.h;
    var i := 0;
    while i < 64
      invariant 0 <= i <= 64
      invariant Vars(a, b, c, d, e, f, g, h) == Rounds(v, w[..], i)
    {
      a, b, c, d, e, f, g, h := RoundStep(a, b, c, d, e, f, g, h, K[i], w[i]);
      i := i + 1;
    }
    r := Vars(a, b, c, d, e, f, g, h);
  }

  /** The digest update of hash256_block: each word added to, then all
      eight masked to 32 bits. */
  method AddToDigest(messageDigest: array<nat>, v: seq<nat>)
    requires messageDigest.Length == 8 && |v| == 8
    modifies messageDigest
    ensures messageDigest[..] == AddWords(old(messageDigest[..]), v)
  {
    ghost var initial := messageDigest[..];
    var i := 0;
    while i < 8
      invariant 0 <= i <= 8
      invariant forall j :: 0 <= j < i ==> messageDigest[j] == initial[j] + v[j]
      invariant forall j :: i <= j < 8 ==> messageDigest[j] == initial[j]
    {
      messageDigest[i] := messageDigest[i] + v[i];
      i := i + 1;
    }
    i := 0;
    while i < 8
      invariant 0 <= i <= 8
      invariant forall j :: 0 <= j < i ==> messageDigest[j] == Mask32(initial[j] + v[j])
      invariant forall j :: i <= j < 8 ==> messageDigest[j] == initial[j] + v[j]
    {
      messageDigest[i] := Mask32(messageDigest[i]);
      i := i + 1;
    }
    assert messageDigest[..] == AddWords(initial, v);
  }

  /** hash256_block: the schedule in the array w, the rounds in local
      variables, and the eight digest words updated in place. */
  method Hash256Block(block: seq<Byte>, messageDigest: array<nat>)
    requires |block| == 64 && messageDigest.Length == 8
    modifies messageDigest
    ensures messageDigest[..] == Compress(old(messageDigest[..]), block)
  {
    var w := LoadSchedule(block);
    var vars := RunRounds(w, VarsOf(messageDigest[..]));
    AddToDigest(messageDigest, VarsSeq(vars));
  }
}
