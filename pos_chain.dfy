/** The Proof-of-Stake chain of Atelier1/EX3.cpp: a block is hashed once, when
    it is made, over index, previous hash, data, timestamp and the name of the
    validator chosen by stake; appending credits that validator; validation
    re-derives hash and link only.
    BlockPoW and BlockchainPoW of the same file are PowChain.Block and
    PowChain.Blockchain. */
module PosChain {
  import opened Text
  import opened Stake

  type Hash = string -> string

  /** A BlockPoS never changes after its constructor, so it is a value. */
  datatype BlockPoS = BlockPoS(index: int, previousHash: string, data: string, timestamp: int, hash: string, validatorName: string)

  /** calculateHash: index, previous hash, data, timestamp, validator name. */
  function CalculateHash(H: Hash, b: BlockPoS): string {
    H(IntToString(b.index) + b.previousHash + b.data + IntToString(b.timestamp) + b.validatorName)
  }

  /** The BlockPoS constructor: the hash is computed from the other fields. */
  function NewBlockPoS(H: Hash, idx: int, prevHash: string, d: string, validator: string, timestamp: int): (b: BlockPoS)
    ensures b.index == idx && b.previousHash == prevHash && b.data == d
    ensures b.validatorName == validator && b.timestamp == timestamp
    ensures b.hash == CalculateHash(H, b)
  {
    var unsealed := BlockPoS(idx, prevHash, d, timestamp, "", validator);
    unsealed.(hash := CalculateHash(H, unsealed))
  }

  /** What isChainValid checks for block i >= 1: its hash and its link; no difficulty. */
  predicate BlockValidAt(H: Hash, chain: seq<BlockPoS>, i: int)
    requires 1 <= i < |chain|
  {
    chain[i].hash == CalculateHash(H, chain[i]) && chain[i].previousHash == chain[i - 1].hash
  }

  predicate ChainValid(H: Hash, chain: seq<BlockPoS>) {
    forall i :: 1 <= i < |chain| ==> BlockValidAt(H, chain, i)
  }

  function Names(vs: seq<Validator>): set<string> {
    set j | 0 <= j < |vs| :: vs[j].name
  }

  /** The invariant of BlockchainPoS, on the values of its two fields. */
  ghost predicate WellFormed(H: Hash, chain: seq<BlockPoS>, validators: seq<Validator>) {
    && |chain| >= 1
    && chain[0].index == 0 && chain[0].previousHash == "0"
    && chain[0].data == "Genesis Block" && chain[0].validatorName == "System"
    && (forall i :: 0 <= i < |chain| ==> chain[i].index == i)
    && (forall i :: 1 <= i < |chain| ==> chain[i].validatorName in Names(validators))
    && ChainValid(H, chain)
    && SameRegistry(validators, InitialValidators())
    && TotalValidated(validators) == |chain| - 1
  }

  /** One addBlock step: appending the block signed by the selected validator
      and crediting that validator keeps the invariant. */
  lemma AddKeepsWellFormed(H: Hash, chain: seq<BlockPoS>, validators: seq<Validator>, k: nat, d: string, timestamp: int)
    requires WellFormed(H, chain, validators) && k < |validators|
    ensures WellFormed(H, chain + [NewBlockPoS(H, |chain|, chain[|chain| - 1].hash, d, validators[k].name, timestamp)],
                       Credit(validators, k))
  {
    var b := NewBlockPoS(H, |chain|, chain[|chain| - 1].hash, d, validators[k].name, timestamp);
    var c := chain + [b];
    var ws := Credit(validators, k);
    CreditAddsOne(validators, k);
    assert Names(ws) == Names(validators) by {
      assert forall j :: 0 <= j < |validators| ==> ws[j].name == validators[j].name;
    }
    AnyLinkedBlockExtends(H, chain, d, validators[k].name, timestamp);
    assert b.validatorName in Names(validators);
    assert forall i :: 0 <= i < |chain| ==> c[i] == chain[i];
  }

  class BlockchainPoS {
    const sha256: Hash
    var chain: seq<BlockPoS>
    var validators: seq<Validator>

    /** Genesis first, every block at its own index, each later block signed
        by a registered validator, the chain valid, and one credit per block
        after the genesis block. */
    ghost predicate Valid()
      reads this
    {
      WellFormed(sha256, chain, validators)
    }

    /** Registers the four initial validators and the genesis block
        (index 0, previous hash "0", validator "System"). */
    constructor (sha256: Hash, timestamp: int)
      ensures Valid() && this.sha256 == sha256
      ensures validators == InitialValidators()
      ensures chain == [NewBlockPoS(sha256, 0, "0", "Genesis Block", "System", timestamp)]
    {
      this.sha256 := sha256;
      validators := InitialValidators();
      chain := [NewBlockPoS(sha256, 0, "0", "Genesis Block", "System", timestamp)];
    }

    /** Selects a validator for draw r, appends a block it signs linked to the
        tip, and credits it; `selected` is the index the scan chose. */
    method AddBlock(data: string, timestamp: int, r: int) returns (ghost selected: nat)
      requires Valid()
      modifies this
      ensures Valid()
      ensures IsSelection(old(validators), r, selected)
      ensures validators == Credit(old(validators), selected)
      ensures chain == old(chain) + [NewBlockPoS(sha256, |old(chain)|, old(chain)[|old(chain)| - 1].hash,
                                                 data, old(validators)[selected].name, timestamp)]
    {
      var k := SelectValidator(validators, r);
      var newBlock := NewBlockPoS(sha256, |chain|, chain[|chain| - 1].hash, data, validators[k].name, timestamp);
      AddKeepsWellFormed(sha256, chain, validators, k, data, timestamp);
      chain := chain + [newBlock];
      validators := Credit(validators, k);
      selected := k;
    }

    /** True exactly when every block after the genesis block has its own
        hash and links to its predecessor. */
    method IsChainValid() returns (valid: bool)
      ensures valid <==> ChainValid(sha256, chain)
    {
      var i := 1;
      while i < |chain|
        invariant 1 <= i
        invariant forall j :: 1 <= j < i && j < |chain| ==> BlockValidAt(sha256, chain, j)
      {
        if chain[i].hash != CalculateHash(sha256, chain[i]) {
          assert !BlockValidAt(sha256, chain, i);
          return false;
        }
        if chain[i].previousHash != chain[i - 1].hash {
          assert !BlockValidAt(sha256, chain, i);
          return false;
        }
        i := i + 1;
      }
      return true;
    }
  }

  /** Without a difficulty check, any block computed by the constructor and
      linked to the tip extends a valid chain: no work is needed. */
  lemma AnyLinkedBlockExtends(H: Hash, chain: seq<BlockPoS>, d: string, validator: string, timestamp: int)
    requires |chain| >= 1 && ChainValid(H, chain)
    ensures ChainValid(H, chain + [NewBlockPoS(H, |chain|, chain[|chain| - 1].hash, d, validator, timestamp)])
  {
    var c := chain + [NewBlockPoS(H, |chain|, chain[|chain| - 1].hash, d, validator, timestamp)];
    forall i | 1 <= i < |c| ensures BlockValidAt(H, c, i) {
      if i < |chain| {
        assert BlockValidAt(H, chain, i);
      }
    }
  }
}
