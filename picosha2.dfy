/** The streaming SHA-256 of picosha2.h: the hash256_one_by_one object with
    its byte buffer and its eight-word digest, the padding of finish, the
    big-endian output of get_hash_bytes, calc_hash and the hexadecimal
    rendering. As written, pad_buffer encodes the length of what is left in
    the buffer, not of the whole message; the variant with the message
    length, as section 5.1.1 of FIPS 180-4 has it, is modelled beside it. */
module Picosha2 {
  import opened Text
  import opened WordOps
  import opened Sha256Core

  /** k_digest_size. */
  const DigestSize: nat := 32

  /** The digest after hash256_block on every 64-byte block of data, in order. */
  function CompressAll(digest: seq<nat>, data: seq<Byte>): (r: seq<nat>)
    requires |digest| == 8
    ensures |r| == 8
    decreases |data|
  {
    if |data| < 64 then digest else CompressAll(Compress(digest, data[..64]), data[64..])
  }

  /** Starting from the initial hash value, every digest the block loop goes
      through is made of 32-bit words, so Sha256Core.CompressStaysInRange
      applies to each block: picosha2's 64-bit arithmetic never wraps. */
  lemma {:induction false} CompressAllIsWords(digest: seq<nat>, data: seq<Byte>)
    requires |digest| == 8 && AllWords32(digest)
    ensures AllWords32(CompressAll(digest, data))
    ensures AllWords32(IV)
    decreases |data|
  {
    if |data| >= 64 {
      CompressAllIsWords(Compress(digest, data[..64]), data[64..]);
    }
  }

  /** Compressing a then b is compressing a + b. */
  lemma {:induction false} CompressAllAppend(digest: seq<nat>, a: seq<Byte>, b: seq<Byte>)
    requires |digest| == 8 && |a| % 64 == 0
    ensures CompressAll(digest, a + b) == CompressAll(CompressAll(digest, a), b)
    decreases |a|
  {
    if a == [] {
      assert a + b == b;
    } else {
      BlocksDrop(|a|);
      var d := Compress(digest, a[..64]);
      assert (a + b)[..64] == a[..64];
      assert (a + b)[64..] == a[64..] + b;
      assert CompressAll(digest, a + b) == CompressAll(d, a[64..] + b);
      assert CompressAll(digest, a) == CompressAll(d, a[64..]);
      CompressAllAppend(d, a[64..], b);
    }
  }

  /** A non-empty run of whole blocks starts with a whole block. */
  lemma BlocksDrop(n: nat)
    requires n % 64 == 0 && n > 0
    ensures n >= 64 && (n - 64) % 64 == 0
  {
    DivModUnique(n - 64, 64, n / 64 - 1, 0);
  }

  /** One block more is one more hash256_block. */
  lemma CompressAllBlock(digest: seq<nat>, a: seq<Byte>, block: seq<Byte>)
    requires |digest| == 8 && |a| % 64 == 0 && |block| == 64
    ensures CompressAll(digest, a + block) == Compress(CompressAll(digest, a), block)
  {
    CompressAllAppend(digest, a, block);
    var d := CompressAll(digest, a);
    assert block[..64] == block && block[64..] == [];
    assert CompressAll(d, block) == CompressAll(Compress(d, block), []);
  }

  /** Appending s[..i] and then s[i..j] is appending s[..j]. */
  lemma SlicesJoin<T>(p: seq<T>, s: seq<T>, i: nat, j: nat)
    requires i <= j <= |s|
    ensures p + s[..i] + s[i..j] == p + s[..j]
  {
    assert s[..i] + s[i..j] == s[..j];
  }

  /** What process consumes and what it leaves are, together, what it was given. */
  lemma PartsJoin(blocks: seq<Byte>, buffer: seq<Byte>, data: seq<Byte>)
    ensures blocks + WholePart(buffer + data) + Rest(buffer + data) == blocks + buffer + data
  {
    var x := buffer + data;
    assert blocks + WholePart(x) + Rest(x) == blocks + (WholePart(x) + Rest(x));
    assert blocks + x == blocks + buffer + data;
  }

  /** Whole blocks after whole blocks are whole blocks. */
  lemma BlocksAdd(x: nat, y: nat)
    requires x % 64 == 0 && y % 64 == 0
    ensures (x + y) % 64 == 0
  {
    DivModUnique(x + y, 64, x / 64 + y / 64, 0);
  }

  lemma BlocksJoin(a: seq<Byte>, b: seq<Byte>)
    requires |a| % 64 == 0 && |b| % 64 == 0
    ensures |a + b| % 64 == 0
  {
    BlocksAdd(|a|, |b|);
  }

  /** The bytes of data that fill whole blocks, and the bytes after them. */
  function WholePart(data: seq<Byte>): (r: seq<Byte>)
    ensures |r| % 64 == 0 && |r| <= |data| && |data| - |r| < 64
  {
    data[..|data| - |data| % 64]
  }

  function Rest(data: seq<Byte>): (r: seq<Byte>)
    ensures |r| < 64 && WholePart(data) + r == data
  {
    data[|data| - |data| % 64..]
  }

  /** A multiple of 64 followed by fewer than 64 bytes is split there. */
  lemma SplitIsUnique(blocks: seq<Byte>, rest: seq<Byte>)
    requires |blocks| % 64 == 0 && |rest| < 64
    ensures WholePart(blocks + rest) == blocks && Rest(blocks + rest) == rest
  {
    var n := |blocks + rest|;
    DivModUnique(n, 64, |blocks| / 64, |rest|);
    assert n - n % 64 == |blocks|;
    assert (blocks + rest)[..|blocks|] == blocks && (blocks + rest)[|blocks|..] == rest;
  }

  /** The number of zero bytes after 0x80 that bring n + 1 bytes to 56 modulo 64. */
  function PadZeros(n: nat): (z: nat)
    ensures z < 64 && (n + 1 + z) % 64 == 56
  {
    var z := (119 - n % 64) % 64;
    PadZerosFacts(n, z, n + 1 + z);
    z
  }

  /** No count between n + 1 and n + 1 + PadZeros(n) but the last is 56 modulo 64. */
  lemma PadZerosFacts(n: nat, z: nat, m: nat)
    requires z == (119 - n % 64) % 64 && n + 1 <= m <= n + 1 + z
    ensures z < 64 && (n + 1 + z) % 64 == 56
    ensures m % 64 == 56 ==> m == n + 1 + z
  {
    var q, r := n / 64, n % 64;
    assert n == 64 * q + r;
    if r <= 55 {
      assert z == 55 - r;
      DivModUnique(n + 1 + z, 64, q, 56);
      DivModUnique(m, 64, q, m - 64 * q);
    } else {
      assert z == 119 - r;
      DivModUnique(n + 1 + z, 64, q + 1, 56);
      if m < 64 * (q + 1) {
        DivModUnique(m, 64, q, m - 64 * q);
      } else {
        DivModUnique(m, 64, q + 1, m - 64 * (q + 1));
      }
    }
  }

  /** The eight bytes of len[]: `msg_bits >> (56 - 8 i)`, i = 0 .. 7, truncated to a byte. */
  function LengthBytes(msgBits: nat): (r: seq<Byte>)
    ensures |r| == 8
  {
    BytesOf(msgBits, 8)
  }

  /** 2^64: size_t arithmetic wraps around modulo this. */
  const SizeMod: nat := 0x1_0000_0000_0000_0000

  lemma SizeModIsPow2()
    ensures Pow2(64) == SizeMod
  {
    Pow2Of32();
    Pow2Shift(32, 32);
  }

  /** The size_t product `n * 8`. */
  function SizeBits(n: nat): (b: nat)
    ensures b < SizeMod
  {
    (n * 8) % SizeMod
  }

  /** A length field below 2^64 reads back as the number it encodes. */
  lemma LengthBytesValue(msgBits: nat)
    requires msgBits < SizeMod
    ensures BigEndian(LengthBytes(msgBits)) == msgBits
  {
    BytesOfValue(msgBits, 8);
    SizeModIsPow2();
    DivModUnique(msgBits, SizeMod, 0, msgBits);
  }

  /** The bytes pad_buffer and the final process add after `rest`, given the
      bit count the length field encodes. */
  function Tail(rest: seq<Byte>, msgBits: nat): (r: seq<Byte>)
    ensures |r| % 64 == 0 && |r| >= |rest| + 9
    ensures r[..|rest|] == rest && r[|rest|] == 0x80 && r[|r| - 8..] == LengthBytes(msgBits)
  {
    var r := rest + [0x80] + Repeat(0, PadZeros(|rest|)) + LengthBytes(msgBits);
    assert (|rest| + 1 + PadZeros(|rest|) + 8) % 64 == 0 by {
      var m := |rest| + 1 + PadZeros(|rest|);
      assert m % 64 == 56;
      DivModUnique(m + 8, 64, m / 64 + 1, 0);
    }
    assert r[..|rest|] == rest;
    r
  }

  /** The whole blocks of data, then the bytes after them padded with the
      length field msgBits. */
  function Padded(data: seq<Byte>, msgBits: nat): (r: seq<Byte>)
    ensures |r| % 64 == 0
  {
    var t := Tail(Rest(data), msgBits);
    BlocksJoin(WholePart(data), t);
    WholePart(data) + t
  }

  /** The message calc_hash compresses, as written: the length field holds
      the size of the bytes after the whole blocks only. */
  function AsWrittenPadded(data: seq<Byte>): (r: seq<Byte>)
    ensures |r| % 64 == 0
  {
    Padded(data, SizeBits(|Rest(data)|))
  }

  /** The padded message of section 5.1.1 of FIPS 180-4: the data, 0x80,
      zeros up to 56 modulo 64, and the length of the whole message in bits
      as a 64-bit big-endian number. */
  function FipsPadded(data: seq<Byte>): (r: seq<Byte>)
    ensures |r| % 64 == 0
  {
    Padded(data, SizeBits(|data|))
  }

  /** The last eight bytes of a padded message are its length field. */
  lemma PaddedLengthField(data: seq<Byte>, msgBits: nat)
    requires msgBits < SizeMod
    ensures var r := Padded(data, msgBits); |r| >= 8 && BigEndian(r[|r| - 8..]) == msgBits
  {
    var w, t := WholePart(data), Tail(Rest(data), msgBits);
    assert (w + t)[|w + t| - 8..] == t[|t| - 8..];
    LengthBytesValue(msgBits);
  }

  /** The padded message starts with the data, then 0x80, then zeros up to
      the length field. */
  lemma PaddedPrefix(data: seq<Byte>, msgBits: nat)
    ensures var r := Padded(data, msgBits);
      && |r| >= |data| + 9 && r[..|data|] == data && r[|data|] == 0x80
      && forall i :: |data| < i < |r| - 8 ==> r[i] == 0
  {
    var w, rest := WholePart(data), Rest(data);
    var z := Repeat(0 as Byte, PadZeros(|rest|));
    var t := Tail(rest, msgBits);
    assert t == rest + [0x80] + z + LengthBytes(msgBits);
    var r := w + t;
    assert r == data + [0x80] + z + LengthBytes(msgBits);
  }

  /** The FIPS padding extends the data by 0x80, zeros and the length field. */
  lemma FipsPaddedShape(data: seq<Byte>)
    ensures var r := FipsPadded(data);
      && |r| % 64 == 0 && |r| >= |data| + 9 && r[..|data|] == data && r[|data|] == 0x80
      && BigEndian(r[|r| - 8..]) == (8 * |data|) % SizeMod
      && forall i :: |data| < i < |r| - 8 ==> r[i] == 0
  {
    PaddedLengthField(data, SizeBits(|data|));
    PaddedPrefix(data, SizeBits(|data|));
  }

  /** For messages shorter than one block both paddings coincide. */
  lemma ShortMessagesAgree(data: seq<Byte>)
    requires |data| < 64
    ensures AsWrittenPadded(data) == FipsPadded(data)
  {
    SplitIsUnique([], data);
    assert [] + data == data;
  }

  /** As written, the length field holds 8 (|data| mod 64), not 8 |data|. */
  lemma AsWrittenLengthField(data: seq<Byte>)
    ensures var r := AsWrittenPadded(data); |r| >= 8 && BigEndian(r[|r| - 8..]) == 8 * (|data| % 64)
  {
    var n := |Rest(data)|;
    assert n == |data| % 64;
    DivModUnique(n * 8, SizeMod, 0, n * 8);
    PaddedLengthField(data, SizeBits(n));
  }

  /** From 64 bytes on, as long as the bit count fits in 64 bits, the
      padded message as written differs from the FIPS 180-4 one: its length
      field holds 8 (|data| mod 64) where 8 |data| belongs. */
  lemma AsWrittenDiffers(data: seq<Byte>)
    requires 64 <= |data| && 8 * |data| < SizeMod
    ensures AsWrittenPadded(data) != FipsPadded(data)
  {
    AsWrittenLengthField(data);
    FipsPaddedShape(data);
    DivModUnique(8 * |data|, SizeMod, 0, 8 * |data|);
  }

  /** The 32 bytes get_hash_bytes writes: every digest word big-endian. */
  function DigestBytes(digest: seq<nat>): (r: seq<Byte>)
    ensures |r| == 4 * |digest|
  {
    if digest == [] then [] else DigestBytes(digest[..|digest| - 1]) + BytesOf(digest[|digest| - 1], 4)
  }

  /** Bytes 4j .. 4j + 3 are the encoding of word j. */
  lemma {:induction false} DigestBytesAt(digest: seq<nat>, j: nat)
    requires j < |digest|
    ensures DigestBytes(digest)[4 * j..4 * j + 4] == BytesOf(digest[j], 4)
    decreases |digest|
  {
    var n := |digest| - 1;
    var front := DigestBytes(digest[..n]);
    assert DigestBytes(digest) == front + BytesOf(digest[n], 4);
    if j < n {
      DigestBytesAt(digest[..n], j);
      assert DigestBytes(digest)[4 * j..4 * j + 4] == front[4 * j..4 * j + 4];
    } else {
      assert DigestBytes(digest)[4 * j..4 * j + 4] == BytesOf(digest[n], 4);
    }
  }

  /** For 32-bit words nothing is lost: the four bytes of word j spell it. */
  lemma DigestBytesRoundTrip(digest: seq<nat>, j: nat)
    requires j < |digest| && AllWords32(digest)
    ensures BigEndian(DigestBytes(digest)[4 * j..4 * j + 4]) == digest[j]
  {
    DigestBytesAt(digest, j);
    BytesOfValue(digest[j], 4);
    Pow2Of32();
    DivModUnique(digest[j], Two32, 0, digest[j]);
  }

  /** The first n bytes of s, or all of s. */
  function Take<T>(s: seq<T>, n: nat): (r: seq<T>)
    ensures |r| == if n < |s| then n else |s|
  {
    if n < |s| then s[..n] else s
  }

  /** The lowercase hexadecimal text output_hex writes: two digits per byte. */
  function HexString(bytes: seq<Byte>): (r: Bytes)
    ensures |r| == 2 * |bytes| && IsLowerHex(r)
  {
    if bytes == [] then [] else HexString(bytes[..|bytes| - 1]) + HexDigits(bytes[|bytes| - 1], 2)
  }

  /** Reading the text back two digits at a time. */
  function ParseHexPairs(s: Bytes): (r: seq<nat>)
    requires |s| % 2 == 0
    decreases |s|
  {
    if s == [] then [] else ParseHexPairs(s[..|s| - 2]) + [ParseHex(s[|s| - 2..])]
  }

  /** Parsing appended text parses the last pair after the rest. */
  lemma ParsePairsAppend(s: Bytes, pair: Bytes)
    requires |s| % 2 == 0 && |pair| == 2
    ensures ParseHexPairs(s + pair) == ParseHexPairs(s) + [ParseHex(pair)]
  {
    var t := s + pair;
    assert t[..|t| - 2] == s && t[|t| - 2..] == pair;
  }

  /** The hexadecimal text loses nothing: its digit pairs are the bytes. */
  lemma {:induction false} HexStringRoundTrip(bytes: seq<Byte>)
    ensures ParseHexPairs(HexString(bytes)) == bytes
    decreases |bytes|
  {
    if bytes != [] {
      var n := |bytes| - 1;
      HexStringRoundTrip(bytes[..n]);
      ParsePairsAppend(HexString(bytes[..n]), HexDigits(bytes[n], 2));
      assert Pow16(2) == 256;
      HexDigitsRoundTrip(bytes[n], 2);
      assert bytes == bytes[..n] + [bytes[n]];
    }
  }

  class Hash256OneByOne {
    /** buffer_: bytes waiting for a whole block. */
    var buffer: seq<Byte>
    /** message_digest_. */
    const messageDigest: array<nat>
    /** The bytes hash256_block has consumed since init, block after block. */
    ghost var blocks: seq<Byte>

    /** The digest is the compression of the consumed blocks. */
    ghost predicate DigestMatches()
      reads this, messageDigest
    {
      messageDigest.Length == 8 && |blocks| % 64 == 0 && messageDigest[..] == CompressAll(IV, blocks)
    }

    /** Between calls fewer than 64 bytes wait in the buffer. */
    ghost predicate Valid()
      reads this, messageDigest
    {
      DigestMatches() && |buffer| < 64
    }

    /** The constructor calls init. */
    constructor ()
      ensures fresh(messageDigest) && Valid() && buffer == [] && blocks == [] && messageDigest[..] == IV
    {
      buffer := [];
      blocks := [];
      messageDigest := new nat[8];
      new;
      Init();
    }

    /** init: the buffer emptied and the initial hash value of section 5.3.3
        of FIPS 180-4 copied into the digest. */
    method Init()
      requires messageDigest.Length == 8
      modifies this, messageDigest
      ensures Valid() && buffer == [] && blocks == [] && messageDigest[..] == IV
    {
      buffer := [];
      blocks := [];
      var i := 0;
      while i < 8
        invariant 0 <= i <= 8
        invariant messageDigest[..i] == IV[..i] && buffer == [] && blocks == []
      {
        messageDigest[i] := IV[i];
        assert messageDigest[..i + 1] == messageDigest[..i] + [IV[i]];
        i := i + 1;
      }
      assert messageDigest[..] == messageDigest[..8] && IV[..8] == IV;
      assert CompressAll(IV, []) == IV;
    }

    /** add_to_buffer: the bytes appended one by one. */
    method AddToBuffer(data: seq<Byte>)
      modifies this
      ensures buffer == old(buffer) + data && blocks == old(blocks)
    {
      var i := 0;
      while i < |data|
        invariant 0 <= i <= |data|
        invariant buffer == old(buffer) + data[..i] && blocks == old(blocks)
      {
        assert data[..i + 1] == data[..i] + [data[i]];
        buffer := buffer + [data[i]];
        i := i + 1;
      }
      assert data[..i] == data;
    }

    /** process_buffer: hash256_block on each whole block of the buffer, in
        order, and the consumed bytes erased. */
    method ProcessBuffer()
      requires DigestMatches()
      modifies this, messageDigest
      ensures Valid()
      ensures blocks == old(blocks) + WholePart(old(buffer)) && buffer == Rest(old(buffer))
    {
      var first := HashBlocks(messageDigest, blocks, buffer);
      BlocksAdd(|blocks|, first);
      blocks := blocks + buffer[..first];
      buffer := buffer[first..];
    }

    /** The loop of process_buffer: hash256_block on every whole block of
        buf, in order; the result is where the unconsumed bytes start. */
    static method HashBlocks(digest: array<nat>, ghost done: seq<Byte>, buf: seq<Byte>) returns (first: nat)
      requires digest.Length == 8 && |done| % 64 == 0 && digest[..] == CompressAll(IV, done)
      modifies digest
      ensures first <= |buf| && first % 64 == 0 && buf[..first] == WholePart(buf) && buf[first..] == Rest(buf)
      ensures digest[..] == CompressAll(IV, done + WholePart(buf))
    {
      first := 0;
      assert done + buf[..0] == done;
      while |buf| - first >= 64
        invariant 0 <= first <= |buf| && first % 64 == 0
        invariant digest[..] == CompressAll(IV, done + buf[..first])
      {
        BlocksJoin(done, buf[..first]);
        BlocksAdd(first, 64);
        assert |buf[first..first + 64]| == 64;
        assert digest[..] == CompressAll(IV, done + buf[..first]);
        HashBlockAt(digest, done + buf[..first], buf[first..first + 64]);
        SlicesJoin(done, buf, first, first + 64);
        first := first + 64;
      }
      WholeBlocksEnd(buf, first);
    }

    /** One pass of the loop of process_buffer: hash256_block on the next block. */
    static method HashBlockAt(digest: array<nat>, ghost done: seq<Byte>, block: seq<Byte>)
      requires digest.Length == 8
      requires |done| % 64 == 0
      requires |block| == 64
      requires digest[..] == CompressAll(IV, done)
      modifies digest
      ensures digest[..] == CompressAll(IV, done + block)
    {
      Hash256Block(block, digest);
      CompressAllBlock(IV, done, block);
    }

    /** The loop of process_buffer stops at the last whole block. */
    static lemma WholeBlocksEnd(buffer: seq<Byte>, first: nat)
      requires first <= |buffer| && first % 64 == 0 && |buffer| - first < 64
      ensures buffer[..first] == WholePart(buffer) && buffer[first..] == Rest(buffer)
    {
      DivModUnique(|buffer|, 64, first / 64, |buffer| - first);
    }

    /** process: the bytes appended and the whole blocks hashed; what has
        been consumed and what waits is the old state followed by data. */
    method Process(data: seq<Byte>)
      requires DigestMatches()
      modifies this, messageDigest
      ensures Valid()
      ensures blocks == old(blocks) + WholePart(old(buffer) + data) && buffer == Rest(old(buffer) + data)
      ensures blocks + buffer == old(blocks) + old(buffer) + data
    {
      AddToBuffer(data);
      ProcessBuffer();
      PartsJoin(old(blocks), old(buffer), data);
    }

    /** The padding loop of pad_buffer, given the bit count for len[]: the
        eight length bytes, then 0x80 and zeros up to 56 modulo 64. */
    method AppendPadding(msgBits: nat) returns (len: seq<Byte>)
      modifies this
      ensures len == LengthBytes(msgBits)
      ensures buffer == old(buffer) + [0x80] + Repeat(0, PadZeros(|old(buffer)|)) && blocks == old(blocks)
    {
      len := [];
      var i := 0;
      while i < 8
        invariant 0 <= i <= 8
        invariant len == LengthBytes(msgBits)[..i]
      {
        assert LengthBytes(msgBits)[..i + 1] == len + [Mask8(Shr(msgBits, 56 - 8 * i))];
        len := len + [Mask8(Shr(msgBits, 56 - 8 * i))];
        i := i + 1;
      }
      ghost var n := |buffer|;
      ghost var z := PadZeros(n);
      buffer := buffer + [0x80];
      while |buffer| % 64 != 56
        invariant n + 1 <= |buffer| <= n + 1 + z
        invariant buffer == old(buffer) + [0x80] + Repeat(0, |buffer| - n - 1) && blocks == old(blocks)
        decreases n + 1 + z - |buffer|
      {
        PadZerosFacts(n, z, |buffer|);
        assert Repeat(0 as Byte, |buffer| - n - 1) + [0] == Repeat(0, |buffer| + 1 - n - 1);
        buffer := buffer + [0];
      }
      PadZerosFacts(n, z, |buffer|);
    }

    /** pad_buffer: len[] encodes `buffer_.size() * 8`, the size of the
        buffer at this point. */
    method PadBuffer() returns (len: seq<Byte>)
      modifies this
      ensures len == LengthBytes(SizeBits(|old(buffer)|))
      ensures buffer == old(buffer) + [0x80] + Repeat(0, PadZeros(|old(buffer)|)) && blocks == old(blocks)
    {
      len := AppendPadding((|buffer| * 8) % SizeMod);
    }

    /** finish: the padding, then process of the eight length bytes, after
        which the buffer is empty. */
    method Finish()
      requires Valid()
      modifies this, messageDigest
      ensures Valid() && buffer == []
      ensures blocks == old(blocks) + Tail(old(buffer), SizeBits(|old(buffer)|))
    {
      var len := PadBuffer();
      ghost var t := Tail(old(buffer), SizeBits(|old(buffer)|));
      Process(len);
      assert old(buffer) + [0x80] + Repeat(0, PadZeros(|old(buffer)|)) + len == t;
      SplitIsUnique(t, []);
      assert t + [] == t;
    }

    /** pad_buffer with the total message length for len[], as section 5.1.1
        of FIPS 180-4 requires. */
    method PadBufferWithLength(totalLength: nat) returns (len: seq<Byte>)
      modifies this
      ensures len == LengthBytes(SizeBits(totalLength))
      ensures buffer == old(buffer) + [0x80] + Repeat(0, PadZeros(|old(buffer)|)) && blocks == old(blocks)
    {
      len := AppendPadding((totalLength * 8) % SizeMod);
    }

    /** finish with the corrected padding. */
    method FinishWithLength(totalLength: nat)
      requires Valid()
      modifies this, messageDigest
      ensures Valid() && buffer == []
      ensures blocks == old(blocks) + Tail(old(buffer), SizeBits(totalLength))
    {
      var len := PadBufferWithLength(totalLength);
      ghost var t := Tail(old(buffer), SizeBits(totalLength));
      Process(len);
      assert old(buffer) + [0x80] + Repeat(0, PadZeros(|old(buffer)|)) + len == t;
      SplitIsUnique(t, []);
      assert t + [] == t;
    }

    /** get_hash_bytes into a range of n bytes: the digest words big-endian,
        as many bytes as fit, at most 32. */
    method GetHashBytes(n: nat) returns (out: seq<Byte>)
      requires messageDigest.Length == 8
      ensures out == Take(DigestBytes(messageDigest[..]), n)
    {
      out := [];
      var j := 0;
      while j < 8
        invariant 0 <= j <= 8
        invariant out == Take(DigestBytes(messageDigest[..j]), n)
      {
        ghost var front := DigestBytes(messageDigest[..j]);
        out := WordBytes(out, messageDigest[j], n, front);
        assert messageDigest[..j + 1][..j] == messageDigest[..j];
        assert DigestBytes(messageDigest[..j + 1]) == front + BytesOf(messageDigest[j], 4);
        j := j + 1;
      }
      assert messageDigest[..8] == messageDigest[..];
    }

    /** The inner loop of get_hash_bytes on one word: its bytes from the most
        significant, while the range has room. */
    static method WordBytes(out: seq<Byte>, word: nat, n: nat, ghost front: seq<Byte>) returns (r: seq<Byte>)
      requires out == Take(front, n)
      ensures r == Take(front + BytesOf(word, 4), n)
    {
      r := out;
      var i := 0;
      while i < 4 && |r| < n
        invariant 0 <= i <= 4
        invariant r == Take(front + BytesOf(word, 4)[..i], n)
      {
        assert (front + BytesOf(word, 4)[..i + 1]) == (front + BytesOf(word, 4)[..i]) + [Mask8(Shr(word, 24 - 8 * i))];
        r := r + [Mask8(Shr(word, 24 - 8 * i))];
        i := i + 1;
      }
      assert BytesOf(word, 4)[..4] == BytesOf(word, 4);
    }
  }

  /** The 32 bytes calc_hash writes for data, as written. */
  function AsWrittenHash(data: seq<Byte>): (r: seq<Byte>)
    ensures |r| == DigestSize
  {
    DigestBytes(CompressAll(IV, AsWrittenPadded(data)))
  }

  /** SHA-256 of data as FIPS 180-4 defines it. */
  function Sha256(data: seq<Byte>): (r: seq<Byte>)
    ensures |r| == DigestSize
  {
    DigestBytes(CompressAll(IV, FipsPadded(data)))
  }

  /** calc_hash: a fresh hasher, process of the data, finish, and the 32
      digest bytes. */
  method CalcHash(data: seq<Byte>) returns (hash: seq<Byte>)
    ensures hash == AsWrittenHash(data)
  {
    var hasher := new Hash256OneByOne();
    assert [] + data == data && [] + WholePart(data) == WholePart(data);
    hasher.Process(data);
    assert hasher.blocks == WholePart(data) && hasher.buffer == Rest(data);
    hasher.Finish();
    assert hasher.blocks == AsWrittenPadded(data);
    assert hasher.messageDigest[..] == CompressAll(IV, AsWrittenPadded(data));
    hash := hasher.GetHashBytes(DigestSize);
  }

  /** hash256_bytes: a 32-byte vector filled by calc_hash. */
  method Hash256Bytes(data: seq<Byte>) returns (hash: seq<Byte>)
    ensures |hash| == DigestSize && hash == AsWrittenHash(data)
  {
    hash := CalcHash(data);
  }

  /** calc_hash with the corrected padding: SHA-256 of FIPS 180-4. */
  method CalcHashFips(data: seq<Byte>) returns (hash: seq<Byte>)
    ensures hash == Sha256(data)
  {
    var hasher := new Hash256OneByOne();
    assert [] + data == data && [] + WholePart(data) == WholePart(data);
    hasher.Process(data);
    assert hasher.blocks == WholePart(data) && hasher.buffer == Rest(data);
    hasher.FinishWithLength(|data|);
    assert hasher.blocks == FipsPadded(data);
    assert hasher.messageDigest[..] == CompressAll(IV, FipsPadded(data));
    hash := hasher.GetHashBytes(DigestSize);
  }

  /** For messages shorter than a block, calc_hash as written is SHA-256. */
  lemma ShortHashesAgree(data: seq<Byte>)
    requires |data| < 64
    ensures AsWrittenHash(data) == Sha256(data)
  {
    ShortMessagesAgree(data);
  }

  /** bytes_to_hex_string by way of output_hex: every byte as two lowercase
      digits, zero filled. */
  method BytesToHexString(bytes: seq<Byte>) returns (hex: Bytes)
    ensures hex == HexString(bytes)
  {
    hex := [];
    var i := 0;
    while i < |bytes|
      invariant 0 <= i <= |bytes|
      invariant hex == HexString(bytes[..i])
    {
      assert bytes[..i + 1][..i] == bytes[..i];
      hex := hex + HexDigits(bytes[i], 2);
      i := i + 1;
    }
    assert bytes[..i] == bytes;
  }

  /** hash256_hex_string: the 64 lowercase hexadecimal digits of calc_hash. */
  method Hash256HexString(data: seq<Byte>) returns (hex: Bytes)
    ensures hex == HexString(AsWrittenHash(data))
    ensures |hex| == 2 * DigestSize && IsLowerHex(hex)
  {
    var hash := CalcHash(data);
    hex := BytesToHexString(hash);
  }
}
