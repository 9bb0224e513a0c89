/** The hybrid chain of Atelier1/EX4.cpp: blocks carry transactions summarised
    by a Merkle root, and each appended block is either mined (PoW) or signed
    by a validator chosen by stake (PoS); validation checks the difficulty on
    PoW blocks only. */
module HybridChain {
  import opened Text
  import opened Stake
  import Merkle

  type Hash = string -> string

  datatype Transaction = Transaction(id: string, sender: string, receiver: string, amount: real)

  /** toString: id, sender and receiver, then the amount as fixed-point with
      two decimals; that formatting is the parameter `fmt2`. */
  function TransactionString(fmt2: real -> string, tx: Transaction): string {
    tx.id + tx.sender + tx.receiver + fmt2(tx.amount)
  }

  /** The leaf digests of a transaction list, in order. */
  function TransactionLeaves(H: Hash, fmt2: real -> string, txs: seq<Transaction>): (r: seq<string>)
    ensures |r| == |txs|
  {
    seq(|txs|, i requires 0 <= i < |txs| => H(TransactionString(fmt2, txs[i])))
  }

  /** The recursive buildTree: "" for no hashes, the hash itself for one,
      otherwise the tree over the paired level (an odd last hash paired with
      itself). */
  function BuildTree(H: Hash, hashes: seq<string>): string
    decreases |hashes|
  {
    if |hashes| == 0 then ""
    else if |hashes| == 1 then hashes[0]
    else BuildTree(H, Merkle.PairLevel(H, hashes))
  }

  /** The recursive root is the root the level-by-level tree of
      Atelier1/EX1.cpp computes for the same leaves. */
  lemma {:induction false} BuildTreeIsMerkleRoot(H: Hash, hashes: seq<string>)
    ensures BuildTree(H, hashes) == Merkle.RootOf(H, hashes)
    decreases |hashes|
  {
    if |hashes| > 1 {
      BuildTreeIsMerkleRoot(H, Merkle.PairLevel(H, hashes));
    }
  }

  /** The merkle tree of a block: a leaf per transaction, then the root. */
  class TransactionTree {
    const sha256: Hash
    var leaves: seq<string>
    var root: string

    /** The stored root is buildTree of the stored leaves. */
    ghost predicate Valid()
      reads this
    {
      root == BuildTree(sha256, leaves)
    }

    constructor (H: Hash, fmt2: real -> string, transactions: seq<Transaction>)
      ensures sha256 == H && Valid()
      ensures leaves == TransactionLeaves(H, fmt2, transactions)
      ensures root == BuildTree(H, leaves)
    {
      sha256 := H;
      var ls: seq<string> := [];
      var i := 0;
      while i < |transactions|
        invariant 0 <= i <= |transactions|
        invariant ls == TransactionLeaves(H, fmt2, transactions[..i])
      {
        assert transactions[..i + 1][..i] == transactions[..i];
        ls := ls + [H(TransactionString(fmt2, transactions[i]))];
        i := i + 1;
      }
      assert transactions[..i] == transactions;
      leaves := ls;
      root := BuildTree(H, ls);
    }

    /** getRoot: the root of the level-by-level tree over the leaves. */
    function GetRoot(): (r: string)
      reads this
      requires Valid()
      ensures r == Merkle.RootOf(sha256, leaves)
    {
      BuildTreeIsMerkleRoot(sha256, leaves);
      root
    }
  }

  /** The root a block stores for its transactions. */
  function MerkleRoot(H: Hash, fmt2: real -> string, txs: seq<Transaction>): string {
    BuildTree(H, TransactionLeaves(H, fmt2, txs))
  }

  /** A block of one transaction has that transaction's digest as its root:
      the genesis block's root is the digest of the genesis transaction. */
  lemma SingleTransactionRoot(H: Hash, fmt2: real -> string, tx: Transaction)
    ensures MerkleRoot(H, fmt2, [tx]) == H(TransactionString(fmt2, tx))
  {
  }

  /** calculateHash: index, timestamp, previous hash, merkle root, nonce and
      validator name, in that order. */
  function BlockHash(H: Hash, index: int, timestamp: int, previousHash: string, merkleRoot: string, nonce: int, validatorName: string): string {
    H(IntToString(index) + IntToString(timestamp) + previousHash + merkleRoot + IntToString(nonce) + validatorName)
  }

  /** A block as the chain keeps it (a copy). */
  datatype BlockData = BlockData(index: int, timestamp: int, previousHash: string, merkleRoot: string, nonce: int,
                                 hash: string, transactions: seq<Transaction>, validatorName: string, usedPoW: bool)

  predicate Sealed(H: Hash, b: BlockData) {
    b.hash == BlockHash(H, b.index, b.timestamp, b.previousHash, b.merkleRoot, b.nonce, b.validatorName)
  }

  /** What isChainValid checks for block i >= 1: hash, link, and the
      difficulty only when the block was mined. */
  predicate BlockValidAt(H: Hash, chain: seq<BlockData>, difficulty: nat, i: int)
    requires 1 <= i < |chain|
  {
    && Sealed(H, chain[i])
    && chain[i].previousHash == chain[i - 1].hash
    && (chain[i].usedPoW ==> HasZeroPrefix(chain[i].hash, difficulty))
  }

  predicate ChainValid(H: Hash, chain: seq<BlockData>, difficulty: nat) {
    forall i :: 1 <= i < |chain| ==> BlockValidAt(H, chain, difficulty, i)
  }

  /** Number of PoS blocks in a chain. */
  function PosCount(chain: seq<BlockData>): (n: nat)
    ensures n <= |chain|
  {
    if chain == [] then 0
    else PosCount(chain[..|chain| - 1]) + (if chain[|chain| - 1].usedPoW then 0 else 1)
  }

  lemma PosCountAppend(chain: seq<BlockData>, b: BlockData)
    ensures PosCount(chain + [b]) == PosCount(chain) + (if b.usedPoW then 0 else 1)
  {
    assert (chain + [b])[..|chain|] == chain;
  }

  /** Appending a sealed block linked to the tip keeps the chain valid when it
      meets the difficulty or is a PoS block. */
  lemma AppendKeepsValid(H: Hash, chain: seq<BlockData>, difficulty: nat, b: BlockData)
    requires |chain| >= 1 && ChainValid(H, chain, difficulty)
    requires Sealed(H, b) && b.previousHash == chain[|chain| - 1].hash
    requires b.usedPoW ==> HasZeroPrefix(b.hash, difficulty)
    ensures ChainValid(H, chain + [b], difficulty)
  {
    var c := chain + [b];
    forall i | 1 <= i < |c| ensures BlockValidAt(H, c, difficulty, i) {
      if i < |chain| {
        assert BlockValidAt(H, chain, difficulty, i);
      }
    }
  }

  class Block {
    const sha256: Hash
    const index: int
    const timestamp: int
    const previousHash: string
    const merkleRoot: string
    const transactions: seq<Transaction>
    const validatorName: string
    const usedPoW: bool
    var nonce: int
    var hash: string

    function CalculateHash(): string
      reads this
    {
      BlockHash(sha256, index, timestamp, previousHash, merkleRoot, nonce, validatorName)
    }

    function HashWithNonce(n: int): string {
      BlockHash(sha256, index, timestamp, previousHash, merkleRoot, n, validatorName)
    }

    function Snapshot(): (b: BlockData)
      reads this
      ensures Sealed(sha256, b) <==> hash == CalculateHash()
    {
      BlockData(index, timestamp, previousHash, merkleRoot, nonce, hash, transactions, validatorName, usedPoW)
    }

    /** Builds the merkle tree of the transactions, keeps its root, starts at
        nonce 0 and hashes; the timestamp (a clock read) is a parameter. */
    constructor (sha256: Hash, fmt2: real -> string, idx: int, prevHash: string, txs: seq<Transaction>,
                 usePoW: bool, validator: string, timestamp: int)
      ensures this.sha256 == sha256 && index == idx && previousHash == prevHash && transactions == txs
      ensures usedPoW == usePoW && validatorName == validator && this.timestamp == timestamp
      ensures merkleRoot == MerkleRoot(sha256, fmt2, txs)
      ensures nonce == 0 && hash == CalculateHash()
    {
      this.sha256 := sha256;
      index := idx;
      previousHash := prevHash;
      transactions := txs;
      usedPoW := usePoW;
      validatorName := validator;
      this.timestamp := timestamp;
      nonce := 0;
      var tree := new TransactionTree(sha256, fmt2, txs);
      merkleRoot := tree.GetRoot();
      new;
      hash := CalculateHash();
    }

    /** mineBlock: raises the nonce until the hash has `difficulty` leading
        '0' characters; `solution` is a nonce at or above the current one that
        meets the target, and the loop stops at the first such nonce. */
    method MineBlock(difficulty: nat, ghost solution: int)
      requires hash == CalculateHash()
      requires nonce <= solution && HasZeroPrefix(HashWithNonce(solution), difficulty)
      modifies this
      ensures hash == CalculateHash() && HasZeroPrefix(hash, difficulty)
      ensures old(nonce) <= nonce <= solution
      ensures forall n :: old(nonce) <= n < nonce ==> !HasZeroPrefix(HashWithNonce(n), difficulty)
      ensures difficulty == 0 ==> nonce == old(nonce)
    {
      var target := Repeat('0', difficulty);
      var n := nonce;
      var h := hash;
      SubstrTestIsPrefix(h, difficulty, '0');
      while Prefix(h, difficulty) != target
        invariant old(nonce) <= n <= solution
        invariant h == HashWithNonce(n)
        invariant forall m :: old(nonce) <= m < n ==> !HasZeroPrefix(HashWithNonce(m), difficulty)
        invariant (Prefix(h, difficulty) == target) <==> HasZeroPrefix(h, difficulty)
        decreases solution - n
      {
        n := n + 1;
        h := HashWithNonce(n);
        SubstrTestIsPrefix(h, difficulty, '0');
      }
      if n > old(nonce) {
        assert !HasZeroPrefix(HashWithNonce(old(nonce)), difficulty);
      }
      nonce := n;
      hash := h;
    }
  }

  /** The genesis transaction ("0", "System", "Network", 0). */
  function GenesisTransactions(): seq<Transaction> {
    [Transaction("0", "System", "Network", 0.0)]
  }

  /** `Block newBlock(...); newBlock.mineBlock(difficulty);` as addBlockPoW
      does it: a block without validator, mined from nonce 0 up to the first
      nonce meeting the difficulty, as the chain stores it. */
  method NewMinedBlock(sha256: Hash, fmt2: real -> string, index: int, prevHash: string, txs: seq<Transaction>,
                       timestamp: int, difficulty: nat, ghost solution: nat) returns (b: BlockData)
    requires HasZeroPrefix(BlockHash(sha256, index, timestamp, prevHash, MerkleRoot(sha256, fmt2, txs), solution, ""), difficulty)
    ensures b.index == index && b.previousHash == prevHash && b.timestamp == timestamp
    ensures b.transactions == txs && b.merkleRoot == MerkleRoot(sha256, fmt2, txs)
    ensures b.usedPoW && b.validatorName == ""
    ensures Sealed(sha256, b) && HasZeroPrefix(b.hash, difficulty)
    ensures forall n :: 0 <= n < b.nonce ==> !HasZeroPrefix(BlockHash(sha256, index, timestamp, prevHash, b.merkleRoot, n, ""), difficulty)
  {
    var newBlock := new Block(sha256, fmt2, index, prevHash, txs, true, "", timestamp);
    newBlock.MineBlock(difficulty, solution);
    b := newBlock.Snapshot();
    forall n | 0 <= n < b.nonce
      ensures !HasZeroPrefix(BlockHash(sha256, index, timestamp, prevHash, b.merkleRoot, n, ""), difficulty)
    {
      assert BlockHash(sha256, index, timestamp, prevHash, b.merkleRoot, n, "") == newBlock.HashWithNonce(n);
    }
  }

  /** `Block newBlock(...)` as addBlockPoS does it: a block signed by the
      validator, hashed at nonce 0 and not mined, as the chain stores it. */
  method NewSignedBlock(sha256: Hash, fmt2: real -> string, index: int, prevHash: string, txs: seq<Transaction>,
                        validator: string, timestamp: int) returns (b: BlockData)
    ensures b.index == index && b.previousHash == prevHash && b.timestamp == timestamp
    ensures b.transactions == txs && b.merkleRoot == MerkleRoot(sha256, fmt2, txs)
    ensures !b.usedPoW && b.validatorName == validator && b.nonce == 0 && Sealed(sha256, b)
  {
    var newBlock := new Block(sha256, fmt2, index, prevHash, txs, false, validator, timestamp);
    b := newBlock.Snapshot();
  }

  /** The invariant of Blockchain, on the values of its fields. */
  ghost predicate WellFormed(H: Hash, difficulty: nat, chain: seq<BlockData>, validators: seq<Validator>,
                             powBlocks: nat, posBlocks: nat)
  {
    && |chain| >= 1
    && chain[0].index == 0 && chain[0].previousHash == "0" && chain[0].transactions == GenesisTransactions()
    && chain[0].usedPoW && chain[0].validatorName == ""
    && (forall i :: 0 <= i < |chain| ==> chain[i].index == i)
    && ChainValid(H, chain, difficulty)
    && SameRegistry(validators, InitialValidators())
    && |chain| == powBlocks + posBlocks + 1
    && PosCount(chain) == posBlocks
    && TotalValidated(validators) == posBlocks
  }

  /** Appending a mined block, sealed, linked to the tip and at the next
      index, keeps the invariant with one more PoW block. */
  lemma PowAppendKeepsWellFormed(H: Hash, difficulty: nat, chain: seq<BlockData>, validators: seq<Validator>,
                                 powBlocks: nat, posBlocks: nat, b: BlockData)
    requires WellFormed(H, difficulty, chain, validators, powBlocks, posBlocks)
    requires Sealed(H, b) && b.previousHash == chain[|chain| - 1].hash && b.index == |chain|
    requires b.usedPoW && HasZeroPrefix(b.hash, difficulty)
    ensures WellFormed(H, difficulty, chain + [b], validators, powBlocks + 1, posBlocks)
  {
    AppendKeepsValid(H, chain, difficulty, b);
    PosCountAppend(chain, b);
    AppendKeepsIndices(chain, b);
  }

  /** Appending a PoS block, sealed, linked to the tip and at the next index,
      and crediting validator k keeps the invariant with one more PoS block. */
  lemma PosAppendKeepsWellFormed(H: Hash, difficulty: nat, chain: seq<BlockData>, validators: seq<Validator>,
                                 powBlocks: nat, posBlocks: nat, b: BlockData, k: nat)
    requires WellFormed(H, difficulty, chain, validators, powBlocks, posBlocks)
    requires Sealed(H, b) && b.previousHash == chain[|chain| - 1].hash && b.index == |chain|
    requires !b.usedPoW && k < |validators|
    ensures WellFormed(H, difficulty, chain + [b], Credit(validators, k), powBlocks, posBlocks + 1)
  {
    AppendKeepsValid(H, chain, difficulty, b);
    PosCountAppend(chain, b);
    AppendKeepsIndices(chain, b);
    CreditAddsOne(validators, k);
  }

  /** The genesis fields and the block indices survive an append at the next index. */
  lemma AppendKeepsIndices(chain: seq<BlockData>, b: BlockData)
    requires |chain| >= 1 && b.index == |chain| && forall i :: 0 <= i < |chain| ==> chain[i].index == i
    ensures (chain + [b])[0] == chain[0]
    ensures forall i :: 0 <= i < |chain| + 1 ==> (chain + [b])[i].index == i
  {
  }

  class Blockchain {
    const sha256: Hash
    const fmt2: real -> string
    const difficulty: nat
    var chain: seq<BlockData>
    var validators: seq<Validator>
    var powBlocks: nat
    var posBlocks: nat

    ghost predicate Valid()
      reads this
    {
      WellFormed(sha256, difficulty, chain, validators, powBlocks, posBlocks)
    }

    /** Registers the four validators and appends a genesis block holding the
        genesis transaction; the genesis block is hashed but NOT mined. The
        source's default difficulty is 3. */
    constructor (sha256: Hash, fmt2: real -> string, diff: nat, timestamp: int)
      ensures Valid() && this.sha256 == sha256 && this.fmt2 == fmt2 && difficulty == diff
      ensures validators == InitialValidators() && powBlocks == 0 && posBlocks == 0
      ensures |chain| == 1 && Sealed(sha256, chain[0]) && chain[0].nonce == 0 && chain[0].timestamp == timestamp
      ensures chain[0].merkleRoot == MerkleRoot(sha256, fmt2, GenesisTransactions())
    {
      this.sha256 := sha256;
      this.fmt2 := fmt2;
      difficulty := diff;
      validators := InitialValidators();
      powBlocks := 0;
      posBlocks := 0;
      var genesis := new Block(sha256, fmt2, 0, "0", GenesisTransactions(), true, "", timestamp);
      chain := [genesis.Snapshot()];
    }

    function LastHash(): string
      reads this
      requires |chain| >= 1
    {
      chain[|chain| - 1].hash
    }

    /** addBlockPoW: a block with no validator, mined to the difficulty,
        appended; the PoW counter moves. */
    method AddBlockPoW(txs: seq<Transaction>, timestamp: int, ghost solution: nat)
      requires Valid()
      requires HasZeroPrefix(BlockHash(sha256, |chain|, timestamp, LastHash(), MerkleRoot(sha256, fmt2, txs), solution, ""), difficulty)
      modifies this
      ensures Valid()
      ensures validators == old(validators) && powBlocks == old(powBlocks) + 1 && posBlocks == old(posBlocks)
      ensures |chain| == |old(chain)| + 1 && chain[..|old(chain)|] == old(chain)
      ensures var b := chain[|chain| - 1];
        && b.index == |old(chain)| && b.previousHash == old(LastHash()) && b.timestamp == timestamp
        && b.transactions == txs && b.merkleRoot == MerkleRoot(sha256, fmt2, txs)
        && b.usedPoW && b.validatorName == ""
        && Sealed(sha256, b) && HasZeroPrefix(b.hash, difficulty)
        && forall n :: 0 <= n < b.nonce ==> !HasZeroPrefix(BlockHash(sha256, b.index, timestamp, b.previousHash, b.merkleRoot, n, ""), difficulty)
    {
      var b := NewMinedBlock(sha256, fmt2, |chain|, LastHash(), txs, timestamp, difficulty, solution);
      PowAppendKeepsWellFormed(sha256, difficulty, chain, validators, powBlocks, posBlocks, b);
      chain := chain + [b];
      powBlocks := powBlocks + 1;
    }

    /** addBlockPoS: selects a validator for draw r, appends an unmined block
        it signs, credits it; the PoS counter moves. */
    method AddBlockPoS(txs: seq<Transaction>, timestamp: int, r: int) returns (ghost selected: nat)
      requires Valid()
      modifies this
      ensures Valid()
      ensures IsSelection(old(validators), r, selected)
      ensures validators == Credit(old(validators), selected)
      ensures powBlocks == old(powBlocks) && posBlocks == old(posBlocks) + 1
      ensures |chain| == |old(chain)| + 1 && chain[..|old(chain)|] == old(chain)
      ensures var b := chain[|chain| - 1];
        && b.index == |old(chain)| && b.previousHash == old(LastHash()) && b.timestamp == timestamp
        && b.transactions == txs && b.merkleRoot == MerkleRoot(sha256, fmt2, txs)
        && !b.usedPoW && b.validatorName == old(validators)[selected].name
        && b.nonce == 0 && Sealed(sha256, b)
    {
      var k := SelectValidator(validators, r);
      var b := NewSignedBlock(sha256, fmt2, |chain|, LastHash(), txs, validators[k].name, timestamp);
      PosAppendKeepsWellFormed(sha256, difficulty, chain, validators, powBlocks, posBlocks, b, k);
      CreditAddsOne(validators, k);
      chain := chain + [b];
      validators := Credit(validators, k);
      posBlocks := posBlocks + 1;
      selected := k;
    }

    /** True exactly when every block after the genesis block has its own
        hash, links to its predecessor and, if mined, meets the difficulty. */
    method IsChainValid() returns (valid: bool)
      ensures valid <==> ChainValid(sha256, chain, difficulty)
    {
      var i := 1;
      while i < |chain|
        invariant 1 <= i
        invariant forall j :: 1 <= j < i && j < |chain| ==> BlockValidAt(sha256, chain, difficulty, j)
      {
        var current := chain[i];
        var previous := chain[i - 1];
        if current.hash != BlockHash(sha256, current.index, current.timestamp, current.previousHash,
                                     current.merkleRoot, current.nonce, current.validatorName) {
          assert !BlockValidAt(sha256, chain, difficulty, i);
          return false;
        }
        if current.previousHash != previous.hash {
          assert !BlockValidAt(sha256, chain, difficulty, i);
          return false;
        }
        if current.usedPoW {
          var target := Repeat('0', difficulty);
          SubstrTestIsPrefix(current.hash, difficulty, '0');
          if Prefix(current.hash, difficulty) != target {
            assert !BlockValidAt(sha256, chain, difficulty, i);
            return false;
          }
        }
        i := i + 1;
      }
      return true;
    }
  }

  /** Changing the stored merkle root of a block after the genesis block is
      detected when the hash has no collisions: the root is one of the fields
      calculateHash covers. */
  lemma TamperedRootIsDetected(H: Hash, chain: seq<BlockData>, difficulty: nat, i: int, root: string)
    requires forall x: string, y: string :: H(x) == H(y) ==> x == y
    requires ChainValid(H, chain, difficulty) && 1 <= i < |chain| && root != chain[i].merkleRoot
    ensures !ChainValid(H, chain[i := chain[i].(merkleRoot := root)], difficulty)
  {
    var c := chain[i := chain[i].(merkleRoot := root)];
    var b := chain[i];
    if ChainValid(H, c, difficulty) {
      assert BlockValidAt(H, c, difficulty, i) && BlockValidAt(H, chain, difficulty, i);
      var p := IntToString(b.index) + IntToString(b.timestamp) + b.previousHash;
      var s := IntToString(b.nonce) + b.validatorName;
      assert H(p + root + s) == H(p + b.merkleRoot + s) by {
        assert p + root + s == IntToString(b.index) + IntToString(b.timestamp) + b.previousHash + root + IntToString(b.nonce) + b.validatorName;
        assert p + b.merkleRoot + s == IntToString(b.index) + IntToString(b.timestamp) + b.previousHash + b.merkleRoot + IntToString(b.nonce) + b.validatorName;
      }
      MiddleDetermined(p, root, b.merkleRoot, s);
    }
  }

  /** isChainValid never recomputes a block's merkle root from its
      transactions, so replacing the transactions of any block, while the
      stored root stays, neither makes a valid chain invalid nor the reverse. */
  lemma TransactionsAreNotChecked(H: Hash, chain: seq<BlockData>, difficulty: nat, i: int, txs: seq<Transaction>)
    requires 0 <= i < |chain|
    ensures ChainValid(H, chain[i := chain[i].(transactions := txs)], difficulty) <==> ChainValid(H, chain, difficulty)
  {
    var c := chain[i := chain[i].(transactions := txs)];
    forall j | 1 <= j < |chain|
      ensures BlockValidAt(H, c, difficulty, j) <==> BlockValidAt(H, chain, difficulty, j)
    {
      assert c[j].hash == chain[j].hash && c[j - 1].hash == chain[j - 1].hash;
      assert Sealed(H, c[j]) <==> Sealed(H, chain[j]);
    }
  }
}
