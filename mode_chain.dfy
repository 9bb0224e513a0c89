/** The chain of Atelier2/EX3.cpp: every block carries the hash mode it was
    made with, mining is a do-while that gives up after its 1001st multiple
    of 10000, and a block is appended whether or not its mining succeeded.
    Byte strings throughout: the timestamp is the caller's, already
    formatted. The two hash functions, sha256_simple and ac_hash with rule 30
    and 250 steps (modelled in SimpleHash and CaHash), are parameters. */
module ModeChain {
  import opened Text

  datatype HashMode = Sha256 | AcHashMode

  /** sha256_simple and `ac_hash(., 30, 250)`, the two hashes a block can use. */
  datatype Hashes = Hashes(simple: Bytes -> Bytes, cellular: Bytes -> Bytes)

  /** The ASCII bytes of "Genesis Block" and of "0". */
  const GenesisData: Bytes := [0x47, 0x65, 0x6E, 0x65, 0x73, 0x69, 0x73, 0x20, 0x42, 0x6C, 0x6F, 0x63, 0x6B]
  const GenesisPrevious: Bytes := [0x30]

  /** `ss << index << timestamp << data << previous_hash << nonce`. */
  function BlockContent(index: int, timestamp: Bytes, data: Bytes, previousHash: Bytes, nonce: int): Bytes {
    IntToBytes(index) + timestamp + data + previousHash + IntToBytes(nonce)
  }

  /** calculate_hash: the hash the block's own mode selects, over its content. */
  function BlockHash(hs: Hashes, mode: HashMode, index: int, timestamp: Bytes, data: Bytes, previousHash: Bytes, nonce: int): Bytes {
    var content := BlockContent(index, timestamp, data, previousHash, nonce);
    if mode == Sha256 then hs.simple(content) else hs.cellular(content)
  }

  /** The nonce at which mine_block gives up: the 1001st multiple of 10000
      above the starting nonce, where `progress` first exceeds 1000. */
  function StopNonce(start: int): (n: int)
    ensures start < n
  {
    10000 * (start / 10000 + 1001)
  }

  /** One pass of the mining loop: `progress` counts the multiples of 10000
      passed since the start; after the increment it exceeds 1000 exactly
      when the nonce has reached StopNonce. */
  lemma ProgressStep(start: int, nonce: int, progress: int)
    requires start <= nonce < StopNonce(start) && progress == nonce / 10000 - start / 10000
    ensures var p := progress + (if (nonce + 1) % 10000 == 0 then 1 else 0);
      && p == (nonce + 1) / 10000 - start / 10000
      && (p > 1000 <==> nonce + 1 == StopNonce(start))
  {
  }

  /** The counting part of one pass of the mining loop: the nonce is raised,
      `progress` grows at every multiple of 10000, and the loop gives up once
      it exceeds 1000, which is exactly at StopNonce. */
  method CountTry(ghost start: int, nonce: int, progress: int) returns (next: int, counted: int, giveUp: bool)
    requires start <= nonce < StopNonce(start) && progress == nonce / 10000 - start / 10000
    ensures next == nonce + 1 && counted == next / 10000 - start / 10000
    ensures giveUp <==> next == StopNonce(start)
  {
    ProgressStep(start, nonce, progress);
    next := nonce + 1;
    counted := progress;
    giveUp := false;
    if next % 10000 == 0 {
      counted := counted + 1;
      if counted > 1000 {
        giveUp := true;
      }
    }
  }

  /** A block as the chain stores it (`push_back` copies). */
  datatype BlockData = BlockData(index: int, timestamp: Bytes, data: Bytes, previousHash: Bytes,
                                 nonce: int, hash: Bytes, hashMode: HashMode)

  /** The stored hash is the hash of the block's own fields, in its own mode. */
  predicate Sealed(hs: Hashes, b: BlockData) {
    b.hash == BlockHash(hs, b.hashMode, b.index, b.timestamp, b.data, b.previousHash, b.nonce)
  }

  class Block {
    const hashes: Hashes
    const index: int
    const timestamp: Bytes
    const data: Bytes
    const previousHash: Bytes
    const hashMode: HashMode
    var nonce: int
    var hash: Bytes

    /** The hash this block has with nonce n. */
    function HashWithNonce(n: int): Bytes {
      BlockHash(hashes, hashMode, index, timestamp, data, previousHash, n)
    }

    function Snapshot(): (b: BlockData)
      reads this
      ensures Sealed(hashes, b) <==> hash == HashWithNonce(nonce)
    {
      BlockData(index, timestamp, data, previousHash, nonce, hash, hashMode)
    }

    /** calculate_hash, in the block's own mode. */
    function CalculateHash(): Bytes
      reads this
    {
      HashWithNonce(nonce)
    }

    /** Nonce 0 and the hash of the fields; the block is not mined. */
    constructor (hashes: Hashes, idx: int, d: Bytes, prevHash: Bytes, mode: HashMode, timestamp: Bytes)
      ensures this.hashes == hashes && index == idx && data == d && previousHash == prevHash && hashMode == mode
      ensures this.timestamp == timestamp && nonce == 0 && hash == HashWithNonce(0)
    {
      this.hashes := hashes;
      index := idx;
      data := d;
      previousHash := prevHash;
      hashMode := mode;
      this.timestamp := timestamp;
      nonce := 0;
      new;
      hash := CalculateHash();
    }

    /** mine_block: the nonce is raised before the first test, so at least
        once; the loop stops at the first nonce whose hash has `difficulty`
        leading '0' bytes, or gives up at StopNonce whatever the hash. */
    method MineBlock(difficulty: nat)
      modifies this
      ensures hash == HashWithNonce(nonce)
      ensures old(nonce) < nonce <= StopNonce(old(nonce))
      ensures forall n :: old(nonce) < n < nonce ==> !HasZeroBytePrefix(HashWithNonce(n), difficulty)
      ensures nonce < StopNonce(old(nonce)) ==> HasZeroBytePrefix(hash, difficulty)
      ensures difficulty == 0 ==> nonce == old(nonce) + 1
    {
      var target := Repeat(0x30 as bv8, difficulty);
      var progress := 0;
      ghost var start := nonce;
      ghost var stop := StopNonce(start);
      while true
        invariant start <= nonce < stop && start == old(nonce)
        invariant progress == nonce / 10000 - start / 10000
        invariant nonce > start ==> hash == HashWithNonce(nonce)
        invariant forall n :: start < n <= nonce ==> !HasZeroBytePrefix(HashWithNonce(n), difficulty)
        decreases stop - nonce
      {
        var next, counted, giveUp := CountTry(start, nonce, progress);
        nonce := next;
        hash := CalculateHash();
        progress := counted;
        if giveUp {
          return;
        }
        SubstrTestIsPrefix(hash, difficulty, 0x30 as bv8);
        if Prefix(hash, difficulty) == target {
          return;
        }
      }
    }
  }

  /** The invariant of the chain: the genesis block is block 0 over "Genesis
      Block" linked to "0"; every block sits at its own index, is sealed in
      its own mode and links to its predecessor. The difficulty is not part
      of it, since an aborted mining run is appended too. */
  ghost predicate WellFormed(hs: Hashes, chain: seq<BlockData>) {
    && |chain| >= 1
    && chain[0].data == GenesisData && chain[0].previousHash == GenesisPrevious
    && (forall i :: 0 <= i < |chain| ==> chain[i].index == i && Sealed(hs, chain[i]))
    && (forall i :: 1 <= i < |chain| ==> chain[i].previousHash == chain[i - 1].hash)
  }

  /** What is_chain_valid checks for block i >= 1. */
  predicate BlockValidAt(hs: Hashes, chain: seq<BlockData>, difficulty: nat, i: int)
    requires 1 <= i < |chain|
  {
    && Sealed(hs, chain[i])
    && chain[i].previousHash == chain[i - 1].hash
    && HasZeroBytePrefix(chain[i].hash, difficulty)
  }

  predicate ChainValid(hs: Hashes, chain: seq<BlockData>, difficulty: nat) {
    forall i :: 1 <= i < |chain| ==> BlockValidAt(hs, chain, difficulty, i)
  }

  /** On a chain the class built, is_chain_valid fails exactly when some
      appended block was not mined to the difficulty, that is, its mining
      gave up. */
  lemma ValidExactlyWhenAllMined(hs: Hashes, chain: seq<BlockData>, difficulty: nat)
    requires WellFormed(hs, chain)
    ensures ChainValid(hs, chain, difficulty) <==> forall i :: 1 <= i < |chain| ==> HasZeroBytePrefix(chain[i].hash, difficulty)
  {
    if forall i :: 1 <= i < |chain| ==> HasZeroBytePrefix(chain[i].hash, difficulty) {
      forall i | 1 <= i < |chain| ensures BlockValidAt(hs, chain, difficulty, i) {
      }
    }
    if ChainValid(hs, chain, difficulty) {
      forall i | 1 <= i < |chain| ensures HasZeroBytePrefix(chain[i].hash, difficulty) {
        assert BlockValidAt(hs, chain, difficulty, i);
      }
    }
  }

  /** Appending a sealed block at the next index, linked to the tip, keeps the invariant. */
  lemma AppendKeepsWellFormed(hs: Hashes, chain: seq<BlockData>, b: BlockData)
    requires WellFormed(hs, chain)
    requires Sealed(hs, b) && b.index == |chain| && b.previousHash == chain[|chain| - 1].hash
    ensures WellFormed(hs, chain + [b])
  {
    var c := chain + [b];
    assert forall i :: 0 <= i < |chain| ==> c[i] == chain[i];
  }

  class Blockchain {
    const hashes: Hashes
    const difficulty: nat
    var currentHashMode: HashMode
    var chain: seq<BlockData>

    ghost predicate Valid()
      reads this
    {
      WellFormed(hashes, chain)
    }

    /** The genesis block (0, "Genesis Block", "0") is hashed in the initial
        mode but not mined. The source's defaults are difficulty 2 and
        sha256_simple. */
    constructor (hashes: Hashes, timestamp: Bytes, diff: nat := 2, mode: HashMode := Sha256)
      ensures Valid() && this.hashes == hashes && difficulty == diff && currentHashMode == mode
      ensures |chain| == 1 && chain[0].hashMode == mode && chain[0].nonce == 0 && chain[0].timestamp == timestamp
    {
      this.hashes := hashes;
      difficulty := diff;
      currentHashMode := mode;
      var genesis := new Block(hashes, 0, GenesisData, GenesisPrevious, mode, timestamp);
      chain := [genesis.Snapshot()];
    }

    /** set_hash_mode: later blocks use the new mode; stored blocks keep theirs. */
    method SetHashMode(mode: HashMode)
      modifies this
      ensures currentHashMode == mode && chain == old(chain)
    {
      currentHashMode := mode;
    }

    /** Builds a block at the next index, linked to the tip, in the current
        mode; mines it; appends it, mined to the difficulty or not. */
    method AddBlock(data: Bytes, timestamp: Bytes)
      requires Valid()
      modifies this
      ensures Valid() && currentHashMode == old(currentHashMode)
      ensures |chain| == |old(chain)| + 1 && chain[..|old(chain)|] == old(chain)
      ensures var b := chain[|chain| - 1];
        && b.index == |old(chain)| && b.previousHash == old(chain)[|old(chain)| - 1].hash
        && b.data == data && b.timestamp == timestamp && b.hashMode == currentHashMode
        && 0 < b.nonce <= StopNonce(0)
        && (b.nonce < StopNonce(0) ==> HasZeroBytePrefix(b.hash, difficulty))
        && forall n :: 0 < n < b.nonce ==> !HasZeroBytePrefix(BlockHash(hashes, b.hashMode, b.index, timestamp, data, b.previousHash, n), difficulty)
    {
      var newBlock := new Block(hashes, |chain|, data, chain[|chain| - 1].hash, currentHashMode, timestamp);
      newBlock.MineBlock(difficulty);
      var b := newBlock.Snapshot();
      forall n | 0 < n < b.nonce
        ensures !HasZeroBytePrefix(BlockHash(hashes, b.hashMode, b.index, timestamp, data, b.previousHash, n), difficulty)
      {
        assert BlockHash(hashes, b.hashMode, b.index, timestamp, data, b.previousHash, n) == newBlock.HashWithNonce(n);
      }
      AppendKeepsWellFormed(hashes, chain, b);
      chain := chain + [b];
    }

    /** True exactly when every block after the genesis block has its own
        hash in its own mode, links to its predecessor and meets the difficulty. */
    method IsChainValid() returns (valid: bool)
      ensures valid <==> ChainValid(hashes, chain, difficulty)
    {
      var target := Repeat(0x30 as bv8, difficulty);
      var i := 1;
      while i < |chain|
        invariant 1 <= i
        invariant forall j :: 1 <= j < i && j < |chain| ==> BlockValidAt(hashes, chain, difficulty, j)
      {
        var current := chain[i];
        var recomputed := BlockHash(hashes, current.hashMode, current.index, current.timestamp, current.data, current.previousHash, current.nonce);
        if current.hash != recomputed {
          assert !BlockValidAt(hashes, chain, difficulty, i);
          return false;
        }
        if current.previousHash != chain[i - 1].hash {
          assert !BlockValidAt(hashes, chain, difficulty, i);
          return false;
        }
        SubstrTestIsPrefix(current.hash, difficulty, 0x30 as bv8);
        if Prefix(current.hash, difficulty) != target {
          assert !BlockValidAt(hashes, chain, difficulty, i);
          return false;
        }
        i := i + 1;
      }
      return true;
    }
  }
}
