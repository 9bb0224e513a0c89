/** The Proof-of-Work chain of EX2.cpp: a block hashes index, previous hash,
    data, timestamp and nonce; mining raises the nonce until the hash starts
    with `difficulty` '0' characters; the chain mines its genesis block and
    every appended block, and validation re-derives hash, link and difficulty
    for every block after the genesis block.
    The same block is BlockPoW in Atelier1/EX3.cpp. */
module PowChain {
  import opened Text

  type Hash = string -> string

  /** calculateHash: the decimal index, previous hash, data, decimal
      timestamp and decimal nonce, concatenated in that order and hashed. */
  function BlockHash(H: Hash, index: int, previousHash: string, data: string, timestamp: int, nonce: int): string {
    H(IntToString(index) + previousHash + data + IntToString(timestamp) + IntToString(nonce))
  }

  /** A block as the chain keeps it: `vector<Block>` stores copies, so the
      chain holds values that nothing changes after the append. */
  datatype BlockData = BlockData(index: int, previousHash: string, data: string, timestamp: int, nonce: int, hash: string)

  /** The stored hash is the hash of the block's own fields. */
  predicate Sealed(H: Hash, b: BlockData) {
    b.hash == BlockHash(H, b.index, b.previousHash, b.data, b.timestamp, b.nonce)
  }

  /** What isChainValid checks, for every block after the genesis block. */
  predicate BlockValidAt(H: Hash, chain: seq<BlockData>, difficulty: nat, i: int)
    requires 1 <= i < |chain|
  {
    && Sealed(H, chain[i])
    && chain[i].previousHash == chain[i - 1].hash
    && HasZeroPrefix(chain[i].hash, difficulty)
  }

  predicate ChainValid(H: Hash, chain: seq<BlockData>, difficulty: nat) {
    forall i :: 1 <= i < |chain| ==> BlockValidAt(H, chain, difficulty, i)
  }

  /** Appending a sealed block that links to the tip and meets the difficulty keeps the chain valid. */
  lemma AppendKeepsValid(H: Hash, chain: seq<BlockData>, difficulty: nat, b: BlockData)
    requires |chain| >= 1 && ChainValid(H, chain, difficulty)
    requires Sealed(H, b) && b.previousHash == chain[|chain| - 1].hash && HasZeroPrefix(b.hash, difficulty)
    ensures ChainValid(H, chain + [b], difficulty)
  {
    var c := chain + [b];
    forall i | 1 <= i < |c| ensures BlockValidAt(H, c, difficulty, i) {
      if i < |chain| {
        assert BlockValidAt(H, chain, difficulty, i);
      }
    }
  }

  /** Changing the data of any block after the genesis block is detected,
      provided the hash function has no collisions. */
  lemma TamperedDataIsDetected(H: Hash, chain: seq<BlockData>, difficulty: nat, i: int, d: string)
    requires forall x: string, y: string :: H(x) == H(y) ==> x == y
    requires ChainValid(H, chain, difficulty) && 1 <= i < |chain| && d != chain[i].data
    ensures !ChainValid(H, chain[i := chain[i].(data := d)], difficulty)
  {
    var c := chain[i := chain[i].(data := d)];
    var b := chain[i];
    if ChainValid(H, c, difficulty) {
      assert BlockValidAt(H, c, difficulty, i) && BlockValidAt(H, chain, difficulty, i);
      var p := IntToString(b.index) + b.previousHash;
      var s := IntToString(b.timestamp) + IntToString(b.nonce);
      assert H(p + d + s) == H(p + b.data + s) by {
        assert p + d + s == IntToString(b.index) + b.previousHash + d + IntToString(b.timestamp) + IntToString(b.nonce);
        assert p + b.data + s == IntToString(b.index) + b.previousHash + b.data + IntToString(b.timestamp) + IntToString(b.nonce);
      }
      MiddleDetermined(p, d, b.data, s);
    }
  }

  /** The genesis block is never re-derived: changing its data leaves a valid chain valid. */
  lemma GenesisIsNotChecked(H: Hash, chain: seq<BlockData>, difficulty: nat, d: string)
    requires ChainValid(H, chain, difficulty) && |chain| >= 1
    ensures ChainValid(H, chain[0 := chain[0].(data := d)], difficulty)
  {
    var c := chain[0 := chain[0].(data := d)];
    forall i | 1 <= i < |c| ensures BlockValidAt(H, c, difficulty, i) {
      assert BlockValidAt(H, chain, difficulty, i);
    }
  }

  class Block {
    const sha256: Hash
    const index: int
    const previousHash: string
    const data: string
    const timestamp: int
    var nonce: int
    var hash: string

    function CalculateHash(): string
      reads this
    {
      BlockHash(sha256, index, previousHash, data, timestamp, nonce)
    }

    /** The hash this block would have with nonce n. */
    function HashWithNonce(n: int): string {
      BlockHash(sha256, index, previousHash, data, timestamp, n)
    }

    /** The copy `push_back` stores. */
    function Snapshot(): (b: BlockData)
      reads this
      ensures Sealed(sha256, b) <==> hash == CalculateHash()
    {
      BlockData(index, previousHash, data, timestamp, nonce, hash)
    }

    /** A new block starts at nonce 0, with the hash of its fields; the
        timestamp (a clock read) is supplied by the caller. */
    constructor (sha256: Hash, idx: int, prevHash: string, d: string, timestamp: int)
      ensures this.sha256 == sha256 && index == idx && previousHash == prevHash
      ensures data == d && this.timestamp == timestamp
      ensures nonce == 0 && hash == CalculateHash()
    {
      this.sha256 := sha256;
      index := idx;
      previousHash := prevHash;
      data := d;
      this.timestamp := timestamp;
      nonce := 0;
      new;
      hash := CalculateHash();
    }

    /** Raises the nonce one by one until the hash starts with `difficulty`
        '0' characters. `solution` is any nonce at or above the current one that
        meets the target: the loop stops at the first one. */
    method MineBlock(difficulty: nat, ghost solution: int)
      requires hash == CalculateHash()
      requires nonce <= solution && HasZeroPrefix(HashWithNonce(solution), difficulty)
      modifies this
      ensures hash == CalculateHash() && HasZeroPrefix(hash, difficulty)
      ensures old(nonce) <= nonce <= solution
      ensures forall n :: old(nonce) <= n < nonce ==> !HasZeroPrefix(HashWithNonce(n), difficulty)
      ensures difficulty == 0 ==> nonce == old(nonce)
    {
      var target := Repeat('0', difficulty);
      SubstrTestIsPrefix(hash, difficulty, '0');
      while Prefix(hash, difficulty) != target
        invariant old(nonce) <= nonce <= solution
        invariant hash == CalculateHash()
        invariant forall n :: old(nonce) <= n < nonce ==> !HasZeroPrefix(HashWithNonce(n), difficulty)
        invariant (Prefix(hash, difficulty) == target) <==> HasZeroPrefix(hash, difficulty)
        decreases solution - nonce
      {
        nonce := nonce + 1;
        hash := CalculateHash();
        SubstrTestIsPrefix(hash, difficulty, '0');
      }
      if nonce > old(nonce) {
        assert !HasZeroPrefix(HashWithNonce(old(nonce)), difficulty);
      }
    }
  }

  /** The genesis block the constructor mines. */
  function GenesisHash(H: Hash, timestamp: int, nonce: int): string {
    BlockHash(H, 0, "0", "Genesis Block", timestamp, nonce)
  }

  class Blockchain {
    const sha256: Hash
    const difficulty: nat
    var chain: seq<BlockData>

    /** Every block sits at its own index, the genesis block links to "0",
        and the chain passes isChainValid. */
    ghost predicate Valid()
      reads this
    {
      && |chain| >= 1
      && chain[0].index == 0 && chain[0].previousHash == "0"
      && (forall i :: 0 <= i < |chain| ==> chain[i].index == i)
      && ChainValid(sha256, chain, difficulty)
    }

    /** Mines the genesis block (index 0, previous hash "0", data
        "Genesis Block") and makes it the whole chain. */
    constructor (sha256: Hash, diff: nat, timestamp: int, ghost solution: nat)
      requires HasZeroPrefix(GenesisHash(sha256, timestamp, solution), diff)
      ensures Valid() && this.sha256 == sha256 && difficulty == diff && |chain| == 1
      ensures chain[0].data == "Genesis Block" && chain[0].timestamp == timestamp
      ensures Sealed(sha256, chain[0]) && HasZeroPrefix(chain[0].hash, diff)
      ensures forall n :: 0 <= n < chain[0].nonce ==> !HasZeroPrefix(GenesisHash(sha256, timestamp, n), diff)
    {
      this.sha256 := sha256;
      difficulty := diff;
      var genesis := new Block(sha256, 0, "0", "Genesis Block", timestamp);
      genesis.MineBlock(diff, solution);
      forall n | 0 <= n < genesis.nonce
        ensures !HasZeroPrefix(GenesisHash(sha256, timestamp, n), diff)
      {
        assert GenesisHash(sha256, timestamp, n) == genesis.HashWithNonce(n);
      }
      chain := [genesis.Snapshot()];
    }

    function LastHash(): string
      reads this
      requires |chain| >= 1
    {
      chain[|chain| - 1].hash
    }

    /** Mines a block over `data` at index |chain| linked to the tip hash, then appends it. */
    method AddBlock(data: string, timestamp: int, ghost solution: nat)
      requires Valid()
      requires HasZeroPrefix(BlockHash(sha256, |chain|, LastHash(), data, timestamp, solution), difficulty)
      modifies this
      ensures Valid()
      ensures |chain| == |old(chain)| + 1 && chain[..|old(chain)|] == old(chain)
      ensures var b := chain[|chain| - 1];
        && b.index == |old(chain)| && b.previousHash == old(LastHash())
        && b.data == data && b.timestamp == timestamp
        && Sealed(sha256, b) && HasZeroPrefix(b.hash, difficulty)
        && forall n :: 0 <= n < b.nonce ==> !HasZeroPrefix(BlockHash(sha256, b.index, b.previousHash, data, timestamp, n), difficulty)
    {
      var newBlock := new Block(sha256, |chain|, LastHash(), data, timestamp);
      newBlock.MineBlock(difficulty, solution);
      var b := newBlock.Snapshot();
      forall n | 0 <= n < b.nonce
        ensures !HasZeroPrefix(BlockHash(sha256, b.index, b.previousHash, data, timestamp, n), difficulty)
      {
        assert BlockHash(sha256, b.index, b.previousHash, data, timestamp, n) == newBlock.HashWithNonce(n);
      }
      AppendKeepsValid(sha256, chain, difficulty, b);
      chain := chain + [b];
    }

    /** True exactly when every block after the genesis block has its own
        hash, links to its predecessor and meets the difficulty. */
    method IsChainValid() returns (valid: bool)
      ensures valid <==> ChainValid(sha256, chain, difficulty)
    {
      var target := Repeat('0', difficulty);
      var i := 1;
      while i < |chain|
        invariant 1 <= i
        invariant forall j :: 1 <= j < i && j < |chain| ==> BlockValidAt(sha256, chain, difficulty, j)
      {
        var current := chain[i];
        var previous := chain[i - 1];
        if current.hash != BlockHash(sha256, current.index, current.previousHash, current.data, current.timestamp, current.nonce) {
          assert !BlockValidAt(sha256, chain, difficulty, i);
          return false;
        }
        if current.previousHash != previous.hash {
          assert !BlockValidAt(sha256, chain, difficulty, i);
          return false;
        }
        SubstrTestIsPrefix(current.hash, difficulty, '0');
        if Prefix(current.hash, difficulty) != target {
          assert !BlockValidAt(sha256, chain, difficulty, i);
          return false;
        }
        i := i + 1;
      }
      return true;
    }
  }
}
