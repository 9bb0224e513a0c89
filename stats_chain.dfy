/** The measuring chain of Atelier2/EX4.cpp: blocks are hashed as in
    Atelier2/EX3.cpp (ModeChain), but the constructor leaves the hash empty
    and mining is an unbounded do-while that counts its passes into a
    MiningStats record. Timing is left out; the counters are kept. */
module StatsChain {
  import opened Text
  import ModeChain

  /** The integer counters of MiningStats; all start at 0. */
  class MiningStats {
    var totalIterations: int
    var blocksMined: int

    constructor ()
      ensures totalIterations == 0 && blocksMined == 0
    {
      totalIterations := 0;
      blocksMined := 0;
    }
  }

  class Block {
    const hashes: ModeChain.Hashes
    const index: int
    const timestamp: Bytes
    const data: Bytes
    const previousHash: Bytes
    const hashMode: ModeChain.HashMode
    var nonce: int
    var hash: Bytes

    function HashWithNonce(n: int): Bytes {
      ModeChain.BlockHash(hashes, hashMode, index, timestamp, data, previousHash, n)
    }

    function Snapshot(): (b: ModeChain.BlockData)
      reads this
      ensures ModeChain.Sealed(hashes, b) <==> hash == HashWithNonce(nonce)
    {
      ModeChain.BlockData(index, timestamp, data, previousHash, nonce, hash, hashMode)
    }

    /** Nonce 0 and, unlike Atelier2/EX3.cpp, no hash: it stays empty. */
    constructor (hashes: ModeChain.Hashes, idx: int, d: Bytes, prevHash: Bytes, mode: ModeChain.HashMode, timestamp: Bytes)
      ensures this.hashes == hashes && index == idx && data == d && previousHash == prevHash
      ensures hashMode == mode && this.timestamp == timestamp && nonce == 0 && hash == []
    {
      this.hashes := hashes;
      index := idx;
      data := d;
      previousHash := prevHash;
      hashMode := mode;
      this.timestamp := timestamp;
      nonce := 0;
      hash := [];
    }

    /** mine_block_with_stats: raise the nonce and hash, at least once, until
        the hash has `difficulty` leading '0' bytes; the result is the number
        of passes. `solution` is a nonce above the current one that meets the
        target: the loop stops at the first one. */
    method MineBlockWithStats(difficulty: nat, ghost solution: int) returns (iterations: int)
      requires nonce < solution && HasZeroBytePrefix(HashWithNonce(solution), difficulty)
      modifies this
      ensures hash == HashWithNonce(nonce) && HasZeroBytePrefix(hash, difficulty)
      ensures old(nonce) < nonce <= solution
      ensures iterations == nonce - old(nonce) && iterations >= 1
      ensures forall n :: old(nonce) < n < nonce ==> !HasZeroBytePrefix(HashWithNonce(n), difficulty)
      ensures difficulty == 0 ==> nonce == old(nonce) + 1
    {
      var target := Repeat(0x30 as bv8, difficulty);
      iterations := 0;
      while true
        invariant old(nonce) <= nonce < solution
        invariant iterations == nonce - old(nonce)
        invariant difficulty == 0 ==> nonce == old(nonce)
        invariant forall n :: old(nonce) < n <= nonce ==> !HasZeroBytePrefix(HashWithNonce(n), difficulty)
        decreases solution - nonce
      {
        nonce := nonce + 1;
        iterations := iterations + 1;
        hash := HashWithNonce(nonce);
        SubstrTestIsPrefix(hash, difficulty, 0x30 as bv8);
        if Prefix(hash, difficulty) == target {
          return;
        }
      }
    }
  }

  /** The invariant of TestBlockchain: the genesis block (0, "Genesis Block",
      "0") with its empty hash and nonce 0, every block at its own index, and
      every later block sealed, linked and mined to the difficulty. */
  ghost predicate WellFormed(hs: ModeChain.Hashes, chain: seq<ModeChain.BlockData>, difficulty: nat) {
    && |chain| >= 1
    && chain[0].data == ModeChain.GenesisData && chain[0].previousHash == ModeChain.GenesisPrevious
    && chain[0].hash == [] && chain[0].nonce == 0
    && (forall i :: 0 <= i < |chain| ==> chain[i].index == i)
    && ModeChain.ChainValid(hs, chain, difficulty)
  }

  /** The genesis hash is never computed, so the first mined block links to
      the empty string. */
  lemma FirstBlockLinksToEmpty(hs: ModeChain.Hashes, chain: seq<ModeChain.BlockData>, difficulty: nat)
    requires WellFormed(hs, chain, difficulty) && |chain| >= 2
    ensures chain[1].previousHash == []
  {
    assert ModeChain.BlockValidAt(hs, chain, difficulty, 1);
  }

  lemma AppendKeepsWellFormed(hs: ModeChain.Hashes, chain: seq<ModeChain.BlockData>, difficulty: nat, b: ModeChain.BlockData)
    requires WellFormed(hs, chain, difficulty)
    requires ModeChain.Sealed(hs, b) && b.index == |chain| && b.previousHash == chain[|chain| - 1].hash
    requires HasZeroBytePrefix(b.hash, difficulty)
    ensures WellFormed(hs, chain + [b], difficulty)
  {
    var c := chain + [b];
    forall i | 1 <= i < |c| ensures ModeChain.BlockValidAt(hs, c, difficulty, i) {
      if i < |chain| {
        assert ModeChain.BlockValidAt(hs, chain, difficulty, i);
      }
    }
  }

  class TestBlockchain {
    const hashes: ModeChain.Hashes
    const difficulty: nat
    const currentHashMode: ModeChain.HashMode
    var chain: seq<ModeChain.BlockData>

    ghost predicate Valid()
      reads this
    {
      WellFormed(hashes, chain, difficulty)
    }

    /** The genesis block is made, in the chain's mode, and neither hashed nor mined. */
    constructor (hashes: ModeChain.Hashes, diff: nat, mode: ModeChain.HashMode, timestamp: Bytes)
      ensures Valid() && this.hashes == hashes && difficulty == diff && currentHashMode == mode
      ensures chain == [ModeChain.BlockData(0, timestamp, ModeChain.GenesisData, ModeChain.GenesisPrevious, 0, [], mode)]
    {
      this.hashes := hashes;
      difficulty := diff;
      currentHashMode := mode;
      var genesis := new Block(hashes, 0, ModeChain.GenesisData, ModeChain.GenesisPrevious, mode, timestamp);
      chain := [genesis.Snapshot()];
    }

    /** add_block_with_stats: mines a block at the next index linked to the
        tip, adds its passes to the iteration total, counts one more block,
        and appends it. */
    method AddBlockWithStats(data: Bytes, timestamp: Bytes, stats: MiningStats, ghost solution: nat)
      requires Valid()
      requires solution > 0
      requires HasZeroBytePrefix(ModeChain.BlockHash(hashes, currentHashMode, |chain|, timestamp, data, chain[|chain| - 1].hash, solution), difficulty)
      modifies this, stats
      ensures Valid()
      ensures |chain| == |old(chain)| + 1 && chain[..|old(chain)|] == old(chain)
      ensures var b := chain[|chain| - 1];
        && b.index == |old(chain)| && b.previousHash == old(chain)[|old(chain)| - 1].hash
        && b.data == data && b.timestamp == timestamp && b.hashMode == currentHashMode
        && 0 < b.nonce <= solution
        && stats.totalIterations == old(stats.totalIterations) + b.nonce
        && forall n :: 0 < n < b.nonce ==> !HasZeroBytePrefix(ModeChain.BlockHash(hashes, b.hashMode, b.index, timestamp, data, b.previousHash, n), difficulty)
      ensures stats.blocksMined == old(stats.blocksMined) + 1
    {
      var newBlock := new Block(hashes, |chain|, data, chain[|chain| - 1].hash, currentHashMode, timestamp);
      var iterations := newBlock.MineBlockWithStats(difficulty, solution);
      stats.totalIterations := stats.totalIterations + iterations;
      stats.blocksMined := stats.blocksMined + 1;
      var b := newBlock.Snapshot();
      forall n | 0 < n < b.nonce
        ensures !HasZeroBytePrefix(ModeChain.BlockHash(hashes, b.hashMode, b.index, timestamp, data, b.previousHash, n), difficulty)
      {
        assert ModeChain.BlockHash(hashes, b.hashMode, b.index, timestamp, data, b.previousHash, n) == newBlock.HashWithNonce(n);
      }
      AppendKeepsWellFormed(hashes, chain, difficulty, b);
      chain := chain + [b];
    }
  }
}
