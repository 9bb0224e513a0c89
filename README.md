# Blockchain workshop core, modelled in Dafny

This project models the algorithmic core of a teaching blockchain written in C++. It covers five groups of code:

- **The Merkle tree** of `Atelier1/EX1.cpp`.
  - It has leaves, levels built by pairwise hashing, and a root.
  - An unpaired last node is hashed with itself.
  - It generates an inclusion proof and verifies it.
- **The chains.**
  - The proof-of-work chain of `EX2.cpp`, which is repeated as `BlockPoW`/`BlockchainPoW` in `Atelier1/EX3.cpp`.
  - The proof-of-stake chain of `Atelier1/EX3.cpp`.
  - The hybrid chain of `Atelier1/EX4.cpp`, whose blocks carry a Merkle root of their transactions and are either mined or signed by a validator.
  - The hash-mode chain of `Atelier2/EX3.cpp` and the statistics chain of `Atelier2/EX4.cpp`. Both hash with either `sha256_simple` or the automaton hash.
- **Stake-weighted validator selection**, and crediting the chosen validator.
- **The cellular-automaton hash** `ac_hash` of `Atelier2/EX1.cpp` and `Atelier2/EX2.cpp`, together with:
  - the bit utilities `string_to_bits` and `hex_to_bits`;
  - the placeholder `sha256_simple`;
  - the avalanche measurement of `Atelier2/EX5.cpp`;
  - the bit-distribution analysis of `Atelier2/EX6.cpp`.
- **picosha2's SHA-256** in `picosha2.h`.
  - This covers the masks, the logical functions, the message schedule and the 64 rounds.
  - It also covers the incremental `hash256_one_by_one` object with its buffer, padding, length field and digest output, and the free `hash256` functions.

How the model treats the sources:

- **Hash functions.**
  - The Merkle tree and the chains of `Atelier1/*` and `EX2.cpp` call a `sha256(string)` wrapper, defined in those files as `picosha2::hash256_hex_string` (`Atelier1/EX1.cpp:11-13`, and likewise at `Atelier1/EX3.cpp:15-17`, `Atelier1/EX4.cpp:18-20` and `EX2.cpp:13-15`). The model deliberately abstracts it as a function parameter (`Hash = string -> string`), fixed in each object's constructor, so that every statement about these structures holds for any hash; picosha2 itself is modelled on its own, and `Picosha2.Hash256HexString` models the function the wrapper calls, on the bytes of the string.
  - The `Atelier2` chains take the pair of hash functions they choose between as a parameter.
  - Those two functions are also modelled on their own, in `SimpleHash` and `CaHash`.
- **Bytes.** `Atelier2/*` and `picosha2.h` work on the bytes of a `std::string`, so those modules use `seq<bv8>`.
  - `sha256_simple` adds `char` values. The model reads them as signed (`SignedChar`), as `char` is on the usual x86 platforms.
- **picosha2's `word_t`.** It is `unsigned long`, taken as 64 bits (LP64). It is modelled as a natural number with bitwise operators defined bit by bit (`WordOps`).
  - No sum of `hash256_block` reaches 2^64: not the schedule sums, not the round sums and not the digest additions (`Sha256Core.CompressStaysInRange`). Every digest the block loop reaches, starting from the initial hash value, is made of 32-bit words (`Picosha2.CompressAllIsWords`). So no 64-bit wrap-around is lost.
- **Clocks and randomness.** Wall-clock timestamps and the random draw of stake selection are parameters.
- **Mining.** The nonce searches of the source have no bound. A method that mines takes a ghost `solution`, a nonce at which the target is met, and the proof shows that the loop stops at the first such nonce.
- **Chains hold copies.** `std::vector<Block>::push_back` copies the block, so a chain is a `seq` of `BlockData` values. The `Block` classes are the objects whose nonce and hash mining updates in place.

## Model

| member | source | states |
|---|---|---|
| Merkle.HashPair | Atelier1/EX1.cpp:23-25 | hashPair: the digest of the left node followed by the right node; the order of the halves is what Merkle.LeftFoldRejectsLeftLeaf turns on |
| Merkle.PairLevel | Atelier1/EX1.cpp:42-50 | one level up has ⌈n/2⌉ nodes |
| Merkle.PairOfOdd | Atelier1/EX1.cpp:42-50 | the parent of an odd node is the hash of its left sibling followed by the node |
| Merkle.PairOfEven | Atelier1/EX1.cpp:42-50 | the parent of an even node is the hash of the node followed by its right partner, or by itself when it is the unpaired last node |
| Merkle.LevelsFrom | Atelier1/EX1.cpp:34-54 | the first level is the leaves and the last level has exactly one node |
| Merkle.LevelsLinked | Atelier1/EX1.cpp:39-54 | every level but the last has more than one node, and the next level is its pairing |
| Merkle.LevelsUnique | Atelier1/EX1.cpp:34-56 | any list of levels that starts at the leaves, is linked by pairing and ends in one node is the tree's levels, and that node is the root |
| Merkle.Depth | Atelier1/EX1.cpp:39-54 | a tree has at least one level |
| Merkle.LevelsDepth | Atelier1/EX1.cpp:39-54 | the number of levels over n leaves is Depth(n) |
| Merkle.DepthBounds | Atelier1/EX1.cpp:39-54 | Depth(n) is ⌈log2 n⌉ + 1: n ≤ 2^(Depth−1), and 2^(Depth−2) < n once there are two levels |
| Merkle.PathProof | Atelier1/EX1.cpp:104-125 | a proof has one sibling per level below the root |
| Merkle.SiblingStep | Atelier1/EX1.cpp:111-122 | one iteration of generateProof's loop: the next index stays inside the next level, and the proof so far plus the sibling plus the rest is the whole proof |
| Merkle.PathProofStep | Atelier1/EX1.cpp:111-122 | a proof is the sibling at this level followed by the proof of index/2 one level up |
| Merkle.LeftFoldRoundTrip | Atelier1/EX1.cpp:128-141 | when every step of the path has the node on the right (or pairs it with itself), the left fold of the proof recomputes the root |
| Merkle.FoldLeft | Atelier1/EX1.cpp:128-138 | the loop of verifyProof: each step replaces the current digest by the hash of the proof entry followed by it; Merkle.LeftFoldRoundTrip and Merkle.MerkleTree.VerifyProof state what it recomputes |
| Merkle.MerkleTree.constructor | Atelier1/EX1.cpp:61-74 | leaf i is the hash of transaction i; no transactions give root "" and no levels; the tree is built |
| Merkle.MerkleTree.BuildTree | Atelier1/EX1.cpp:28-57 | for leaves, the levels are LevelsFrom(leaves) and the root is their top; without leaves, root "" and the levels are left as they were |
| Merkle.MerkleTree.NextLevel | Atelier1/EX1.cpp:40-50 | the loop builds exactly the pairing of the current level |
| Merkle.MerkleTree.GetRoot | Atelier1/EX1.cpp:76-78 | the root is RootOf the leaves |
| Merkle.MerkleTree.VerifyTransaction | Atelier1/EX1.cpp:93-101 | true exactly when the transaction's hash is one of the leaves |
| Merkle.MerkleTree.GenerateProof | Atelier1/EX1.cpp:104-125 | an index outside the leaves gives an empty proof; otherwise the proof is PathProof, one entry per level below the root |
| Merkle.MerkleTree.CollectSiblings | Atelier1/EX1.cpp:111-122 | walking the stored levels collects PathProof |
| Merkle.MerkleTree.SiblingEntry | Atelier1/EX1.cpp:113-119 | the entry is the partner of the index, or the node itself when it has none |
| Merkle.MerkleTree.VerifyProof | Atelier1/EX1.cpp:128-141 | true exactly when folding the proof on the left of the transaction's hash gives the root |
| Merkle.GeneratedProofVerifies | Atelier1/EX1.cpp:104-141 | a generated proof verifies for the leaves where the left fold is right |
| Merkle.LeftFoldRejectsLeftLeaf | Atelier1/EX1.cpp:136 | with leaves "a" and "b", the proof of leaf 0 does not verify as written |
| Merkle.InjectiveLeftFoldRejectsLeftLeaf | Atelier1/EX1.cpp:136 | for every collision-free digest giving two distinct transactions digests of equal length, the proof of the left leaf of the two-leaf tree does not verify as written |
| Merkle.SidedPathProof | Atelier1/EX1.cpp:104-125 | the corrected proof records each sibling together with its side, one step per level |
| Merkle.SidedFoldRoundTrip | Atelier1/EX1.cpp:128-141 | folding each sibling on its recorded side recomputes the root from every leaf |
| Merkle.SidedProofVerifies | Atelier1/EX1.cpp:104-141 | the corrected proof of every transaction verifies against the root |
| HybridChain.TransactionString | Atelier1/EX4.cpp:36-40 | toString: id, sender and receiver, then the amount with two decimals, the formatting being the parameter fmt2 |
| HybridChain.TransactionLeaves | Atelier1/EX4.cpp:73-76 | one leaf per transaction |
| HybridChain.TransactionTree.constructor | Atelier1/EX4.cpp:73-78 | the leaves are the hashes of the transactions' strings, and the root is buildTree of them |
| HybridChain.TransactionTree.GetRoot | Atelier1/EX4.cpp:80 | getRoot returns the root of the level-by-level Merkle tree over the stored leaves, which the constructor keeps as buildTree of them |
| HybridChain.BuildTree | Atelier1/EX4.cpp:57-70 | buildTree: "" for no hashes, the hash itself for one, otherwise buildTree of the paired level (an odd last hash paired with itself); HybridChain.BuildTreeIsMerkleRoot states which root that is |
| HybridChain.BuildTreeIsMerkleRoot | Atelier1/EX4.cpp:57-70 | the recursive buildTree of this file computes the same root as the level-by-level tree of Atelier1/EX1.cpp |
| HybridChain.SingleTransactionRoot | Atelier1/EX4.cpp:237-240 | the genesis block's root, over one transaction, is that transaction's hash |
| HybridChain.PosCount | Atelier1/EX4.cpp:284-287 | a chain has no more signed blocks than blocks |
| HybridChain.PosCountAppend | Atelier1/EX4.cpp:284-287 | appending a signed block adds one to the count, and a mined block adds none |
| HybridChain.AppendKeepsValid | Atelier1/EX4.cpp:292-316 | appending a sealed, linked block keeps the chain valid, provided the block meets the difficulty when it is mined |
| HybridChain.BlockHash | Atelier1/EX4.cpp:134-138 | calculateHash: the digest of index, timestamp, previous hash, Merkle root, nonce and validator name, in that order; HybridChain.TamperedRootIsDetected relies on the root being covered |
| HybridChain.Block.Snapshot | Atelier1/EX4.cpp:134-138 | the copy that is pushed onto the chain is sealed exactly when the block's hash is calculateHash() |
| HybridChain.Block.constructor | Atelier1/EX4.cpp:119-132 | the fields as given; the Merkle root of the transactions; nonce 0; the hash of those fields |
| HybridChain.Block.MineBlock | Atelier1/EX4.cpp:141-149 | the hash meets the target; the nonce is the first at or after the starting one that meets it; difficulty 0 leaves the nonce unchanged |
| HybridChain.NewMinedBlock | Atelier1/EX4.cpp:256-257 | the block is mined at the least nonce meeting the difficulty, with its Merkle root and no validator |
| HybridChain.NewSignedBlock | Atelier1/EX4.cpp:279 | the block is sealed with nonce 0, the validator's name and its Merkle root |
| HybridChain.PowAppendKeepsWellFormed | Atelier1/EX4.cpp:262-264 | adding a mined block keeps the chain well formed and counts one more proof-of-work block |
| HybridChain.PosAppendKeepsWellFormed | Atelier1/EX4.cpp:284-287 | adding a signed block and crediting its validator keeps the chain well formed and counts one more proof-of-stake block |
| HybridChain.AppendKeepsIndices | Atelier1/EX4.cpp:256 | a block indexed by the chain length keeps index i at position i |
| HybridChain.Blockchain.constructor | Atelier1/EX4.cpp:226-244 | the four initial validators; zero block counts; one sealed genesis block with nonce 0, over the system transaction, which is not mined |
| HybridChain.Blockchain.AddBlockPoW | Atelier1/EX4.cpp:251-267 | one mined, linked block appended at the least nonce; the validators are unchanged; one more proof-of-work block |
| HybridChain.Blockchain.AddBlockPoS | Atelier1/EX4.cpp:270-290 | the validator is chosen by stake; one signed, linked block appended; that validator is credited; one more proof-of-stake block |
| HybridChain.Blockchain.IsChainValid | Atelier1/EX4.cpp:292-316 | true exactly when every block after genesis has its own hash and the previous hash, and mined blocks meet the difficulty |
| HybridChain.TamperedRootIsDetected | Atelier1/EX4.cpp:292-316 | when sha256 is injective, changing the Merkle root of a block after genesis makes the chain invalid |
| HybridChain.TransactionsAreNotChecked | Atelier1/EX4.cpp:292-316 | replacing the transactions of any block while its stored root stays neither makes a valid chain invalid nor the reverse: isChainValid never recomputes the root from the transactions |
| Stake.InitialValidators | Atelier1/EX3.cpp:114-117 | four validators with a total stake of 2000 and no blocks validated |
| Stake.SelectValidator | Atelier1/EX3.cpp:87-105 | the validator chosen is the first whose cumulative stake reaches the draw, or the first validator when none does |
| Stake.Cumulative | Atelier1/EX3.cpp:96-98 | the running cumulativeStake after the first k validators, in registry order; Stake.CumulativeMonotone and Stake.SelectionIsStakeInterval are about it |
| Stake.CumulativeMonotone | Atelier1/EX3.cpp:96-101 | cumulative stake never decreases along the list |
| Stake.SelectionUnique | Atelier1/EX3.cpp:87-105 | a draw selects exactly one validator |
| Stake.SelectionIsStakeInterval | Atelier1/EX3.cpp:87-105 | a draw inside the total stake selects k exactly when it falls in k's stake interval |
| Stake.ZeroStakeNeverSelected | Atelier1/EX3.cpp:96-102 | a validator without stake is never selected by a draw inside the total |
| Stake.DrawAboveTotalFallsBack | Atelier1/EX3.cpp:104 | a draw above the total stake selects the first validator |
| Stake.Credit | Atelier1/EX3.cpp:150 | crediting keeps the number of validators |
| Stake.TotalValidatedUpdate | Atelier1/EX3.cpp:150 | replacing one validator changes the total of validated blocks by that validator's difference |
| Stake.CreditAddsOne | Atelier1/EX3.cpp:150 | the credited validator gains one block, everything else is unchanged, and the total grows by one |
| Stake.CreditKeepsStakes | Atelier1/EX4.cpp:285 | crediting changes no cumulative stake, so later draws are unaffected |
| PosChain.CalculateHash | Atelier1/EX3.cpp:54-58 | calculateHash: the digest of index, previous hash, data, timestamp and validator name, in that order |
| PosChain.NewBlockPoS | Atelier1/EX3.cpp:46-58 | the block has the given fields, and its hash is calculateHash of them |
| PosChain.AddKeepsWellFormed | Atelier1/EX3.cpp:134-153 | adding a block signed by a registered validator and crediting them keeps the chain well formed |
| PosChain.BlockchainPoS.constructor | Atelier1/EX3.cpp:108-128 | the four initial validators and a genesis block signed by System with previous hash "0" |
| PosChain.BlockchainPoS.AddBlock | Atelier1/EX3.cpp:134-153 | the validator is chosen by stake; a block linked to the tip and signed by them is appended; they are credited |
| PosChain.BlockchainPoS.IsChainValid | Atelier1/EX3.cpp:155-171 | true exactly when every block after genesis has its own hash and the previous hash |
| PosChain.AnyLinkedBlockExtends | Atelier1/EX3.cpp:155-171 | any block built on the tip keeps a valid chain valid, whoever signs it |
| PowChain.BlockHash | EX2.cpp:36-40 | calculateHash: the digest of index, previous hash, data, timestamp and nonce, in that order, which is also what BlockPoW computes at Atelier1/EX3.cpp:217-221; PowChain.TamperedDataIsDetected relies on the data being covered |
| PowChain.AppendKeepsValid | EX2.cpp:109-140 | appending a sealed, linked block that meets the difficulty keeps the chain valid |
| PowChain.TamperedDataIsDetected | EX2.cpp:115-140 | when sha256 is injective, changing the data of a block after genesis makes the chain invalid |
| PowChain.GenesisIsNotChecked | EX2.cpp:116 | changing the genesis block's data leaves a valid chain valid |
| PowChain.Block.Snapshot | EX2.cpp:112 | the copy that is pushed is sealed exactly when the hash is calculateHash() |
| PowChain.Block.constructor | EX2.cpp:28-34 | the fields as given, nonce 0, and the hash of those fields |
| PowChain.Block.MineBlock | EX2.cpp:43-59 | the hash meets the target; the nonce is the first at or after the old one that meets it; difficulty 0 leaves the nonce unchanged; BlockPoW::mineBlock of Atelier1/EX3.cpp:223-229 is the same loop |
| PowChain.Blockchain.constructor | EX2.cpp:97-103 | one genesis block "Genesis Block", mined at the least nonce meeting the difficulty |
| PowChain.Blockchain.AddBlock | EX2.cpp:109-113 | one block appended, linked to the tip, with the next index, mined at the least nonce meeting the difficulty; BlockchainPoW of Atelier1/EX3.cpp:235-251 builds the same chain |
| PowChain.Blockchain.IsChainValid | EX2.cpp:115-140 | true exactly when every block after genesis has its own hash and the previous hash, and meets the difficulty |
| ModeChain.BlockContent | Atelier2/EX3.cpp:41-44 | the block content: index, timestamp, data, previous hash and nonce, in that order, as also at Atelier2/EX4.cpp:59-62 |
| ModeChain.BlockHash | Atelier2/EX3.cpp:41-51 | calculate_hash: sha256_simple of the content in SHA256 mode and the automaton hash otherwise, as also at Atelier2/EX4.cpp:59-69 |
| ModeChain.StopNonce | Atelier2/EX3.cpp:62-71 | the safety limit lies beyond the starting nonce |
| ModeChain.ProgressStep | Atelier2/EX3.cpp:62-71 | the progress counter counts the multiples of 10000 passed since the start, and the limit is not yet passed |
| ModeChain.CountTry | Atelier2/EX3.cpp:59-71 | one try: the next nonce, the updated progress, and giving up exactly at the safety limit |
| ModeChain.Block.HashWithNonce | Atelier2/EX3.cpp:41-51 | the hash of the block's content with a given nonce, in the block's hash mode |
| ModeChain.Block.Snapshot | Atelier2/EX3.cpp:128 | the copy that is pushed is sealed exactly when the hash is that of the current nonce |
| ModeChain.Block.constructor | Atelier2/EX3.cpp:28-32 | the fields as given, nonce 0, and the hash with nonce 0 |
| ModeChain.Block.MineBlock | Atelier2/EX3.cpp:53-73 | at least one try; every nonce skipped misses the target; unless the safety limit stopped it, the hash meets the target |
| ModeChain.ValidExactlyWhenAllMined | Atelier2/EX3.cpp:131-156 | a well-formed chain is valid exactly when every block after genesis meets the difficulty |
| ModeChain.AppendKeepsWellFormed | Atelier2/EX3.cpp:122-129 | appending a sealed block linked to the tip keeps the chain well formed, mined or not |
| ModeChain.Blockchain.constructor | Atelier2/EX3.cpp:100-106 | one genesis block in the current mode with nonce 0, difficulty 2 and mode SHA-256 by default |
| ModeChain.Blockchain.SetHashMode | Atelier2/EX3.cpp:108-112 | the mode changes and the chain does not |
| ModeChain.Blockchain.AddBlock | Atelier2/EX3.cpp:122-129 | one block appended in the current mode, linked to the tip, whatever mining ended with |
| ModeChain.Blockchain.IsChainValid | Atelier2/EX3.cpp:131-156 | true exactly when every block after genesis has its hash, the previous hash and the difficulty |
| StatsChain.MiningStats.constructor | Atelier2/EX4.cpp:26 | the counters start at 0 |
| StatsChain.Block.HashWithNonce | Atelier2/EX4.cpp:59-69 | the hash of the block's content with a given nonce |
| StatsChain.Block.Snapshot | Atelier2/EX4.cpp:122 | the copy that is pushed is sealed exactly when the hash is that of the current nonce |
| StatsChain.Block.constructor | Atelier2/EX4.cpp:47-50 | the fields as given, nonce 0, and an empty hash |
| StatsChain.Block.MineBlockWithStats | Atelier2/EX4.cpp:72-88 | the hash meets the target at the first nonce after the old one; the iterations returned are the nonces tried |
| StatsChain.FirstBlockLinksToEmpty | Atelier2/EX4.cpp:100-113 | the first mined block links to the genesis block's empty hash |
| StatsChain.AppendKeepsWellFormed | Atelier2/EX4.cpp:110-122 | appending a sealed, linked block meeting the difficulty keeps the chain well formed |
| StatsChain.TestBlockchain.constructor | Atelier2/EX4.cpp:100-103 | one genesis block with nonce 0 and an empty hash |
| StatsChain.TestBlockchain.AddBlockWithStats | Atelier2/EX4.cpp:110-122 | one mined block appended, linked to the tip; iterations are added to the statistics and one more block is counted |
| Automaton.Neighbourhood | Atelier2/EX1.cpp:4-7 | the three cells form a pattern number below 8 |
| Automaton.ApplyRule | Atelier2/EX1.cpp:4-7 | apply_rule: the pattern number left·4 + centre·2 + right selects a bit of the rule; Automaton.ApplyRuleIsBit states it |
| Automaton.ApplyRuleIsBit | Atelier2/EX1.cpp:4-7 | the new cell is the rule's bit at the pattern number of its neighbourhood |
| Automaton.Rule30IsXorOr | Atelier2/EX1.cpp:4-7 | rule 30 is left XOR (centre OR right) |
| Automaton.CyclicNeighbours | Atelier2/EX1.cpp:21-23 | the wrapped left and right neighbour indices |
| Automaton.WrapMod | Atelier2/EX1.cpp:21-23 | the remainder is the number minus the multiple it passed |
| Automaton.Iterate | Atelier2/EX1.cpp:31-35 | evolving keeps the ring size |
| Automaton.NextState | Atelier2/EX1.cpp:16-28 | one evolve step: cell i is apply_rule of its left neighbour, itself and its right neighbour, the ends wrapping round; Automaton.NextStateLength and Automaton.NextStateCommutesWithRotation are about it |
| Automaton.NextStateLength | Atelier2/EX1.cpp:16-28 | one step keeps the ring size, and an empty ring stays empty |
| Automaton.IterateAdd | Atelier2/EX1.cpp:31-35 | a generations followed by b generations make a + b generations |
| Automaton.NextStateCommutesWithRotation | Atelier2/EX1.cpp:20-26 | the ring has no edges: rotating and then stepping equals stepping and then rotating |
| Automaton.RotatedCell | Atelier2/EX1.cpp:20-26 | cell i after rotating and stepping is cell i+1 of the stepped ring |
| Automaton.DeadRingIsStable | Atelier2/EX1.cpp:20-26 | under a rule that maps the all-zero pattern to 0, a dead ring stays dead |
| Automaton.CellularAutomaton1D.constructor | Atelier2/EX1.cpp:9 | the rule as given (30 by default) and an empty state |
| Automaton.CellularAutomaton1D.InitState | Atelier2/EX1.cpp:11-13 | the state becomes the given cells |
| Automaton.CellularAutomaton1D.Evolve | Atelier2/EX1.cpp:15-29 | the state becomes one step of the rule on the ring |
| Automaton.CellularAutomaton1D.EvolveGenerations | Atelier2/EX1.cpp:31-35 | the state becomes the given number of steps of it, and none for a negative count |
| Automaton.CellularAutomaton1D.GetState | Atelier2/EX1.cpp:37-39 | the state as it is |
| CaHash.ByteBits | Atelier2/EX2.cpp:10-12 | a byte gives eight bits |
| CaHash.Bits | Atelier2/EX2.cpp:7-15 | a string gives eight bits per byte |
| CaHash.BitsAt | Atelier2/EX2.cpp:7-15 | bit 8i+j is bit j of byte i, counted from the most significant |
| CaHash.ByteRoundTrip | Atelier2/EX2.cpp:10-12 | packing the eight bits of a byte gives the byte back |
| CaHash.Unpack | Atelier2/EX2.cpp:7-15 | packing 8n bits gives n bytes |
| CaHash.BitsRoundTrip | Atelier2/EX2.cpp:7-15 | packing string_to_bits of a string gives the string back |
| CaHash.AppendByteBits | Atelier2/EX2.cpp:10-12 | the inner loop appends the byte's eight bits |
| CaHash.StringToBits | Atelier2/EX2.cpp:7-15 | string_to_bits returns Bits |
| CaHash.Padded | Atelier2/EX2.cpp:35-37 | the bits are kept, and fewer than 512 are padded to exactly 512 |
| CaHash.PaddingCells | Atelier2/EX2.cpp:35-37 | padding cell k is set exactly when k is a multiple of 3 |
| CaHash.Nibble | Atelier2/EX2.cpp:21-25 | j sampled bits make a value below 2^j |
| CaHash.ExtractedHash | Atelier2/EX2.cpp:17-30 | 64 lower-case hex digits, digit i being the value of the four cells sampled for it |
| CaHash.ExtractHash | Atelier2/EX2.cpp:17-30 | extract_hash returns ExtractedHash |
| CaHash.ToInt32 | Atelier2/EX2.cpp:42-43 | the conversion of size_t to int gives a 32-bit value, and keeps values that fit |
| CaHash.Generations | Atelier2/EX2.cpp:42-43 | for a step count that fits in int, max(200, steps) generations |
| CaHash.AcHashRunsAtLeast200 | Atelier2/EX2.cpp:42 | for a step count that fits in int, at least 200 generations are run |
| CaHash.AcHashValue | Atelier2/EX2.cpp:32-46 | the hash is 64 lower-case hex digits |
| CaHash.AcHash | Atelier2/EX2.cpp:32-46 | ac_hash returns AcHashValue |
| SimpleHash.SignedChar | Atelier2/EX2.cpp:53-54 | a char is read as a signed value from −128 to 127 |
| SimpleHash.Djb | Atelier2/EX2.cpp:49-53 | the djb-style accumulator is a 64-bit value |
| SimpleHash.Poly31 | Atelier2/EX2.cpp:50-54 | the base-31 accumulator is a 64-bit value |
| SimpleHash.Xor | Atelier2/EX2.cpp:60 | XOR of n-bit values is an n-bit value |
| SimpleHash.XorSymmetric | Atelier2/EX2.cpp:60 | XOR does not depend on the order of its operands |
| SimpleHash.Sha256Simple | Atelier2/EX2.cpp:48-64 | sha256_simple returns the four hex fields of the two accumulators |
| SimpleHash.WordRoundTrip | Atelier2/EX2.cpp:58-61 | 16 hex digits of a 64-bit value read back as the value |
| SimpleHash.Fields | Atelier2/EX2.cpp:57-63 | the output stream of sha256_simple: hash, hash2, their XOR and their wrapped sum, 16 zero-padded hex digits each |
| SimpleHash.FieldsRoundTrip | Atelier2/EX2.cpp:57-63 | the result is 64 lower-case hex digits, and its four fields read back as h, h2, h^h2 and h+h2 modulo 2^64 |
| Hex.NibbleBits | Atelier2/EX5.cpp:27-29 | a hex digit gives four bits |
| Hex.NibbleBitsValue | Atelier2/EX5.cpp:27-29 | the four bits are the digit's value, most significant first |
| Hex.HexBits | Atelier2/EX5.cpp:12-32 | four bits per hex digit of the string |
| Hex.AppendNibble | Atelier2/EX5.cpp:27-29 | the inner loop appends the digit's four bits |
| Hex.HexToBits | Atelier2/EX5.cpp:12-32 | hex_to_bits returns HexBits; its copy at Atelier2/EX6.cpp:14-34 is the same function |
| Hex.AllDigitsCount | Atelier2/EX5.cpp:12-32 | a string of hex digits only gives four bits per character |
| Hex.CaseInsensitive | Atelier2/EX5.cpp:16-21 | upper- and lower-case digits give the same bits |
| Hex.NonDigitSkipped | Atelier2/EX5.cpp:22-23 | a character that is not a hex digit adds no bits |
| Avalanche.Hamming | Atelier2/EX5.cpp:44-49 | no more differing positions than bits |
| Avalanche.HammingSymmetric | Atelier2/EX5.cpp:44-49 | the count does not depend on which hash comes first |
| Avalanche.HammingZeroIffEqual | Atelier2/EX5.cpp:44-49 | no differing bit exactly when the bit strings are equal |
| Avalanche.HammingSinglePosition | Atelier2/EX5.cpp:44-49 | strings that differ at one position only are one bit apart |
| Avalanche.CountDifferences | Atelier2/EX5.cpp:44-49 | the counting loop returns the Hamming distance |
| Avalanche.DifferentBits | Atelier2/EX5.cpp:35-51 | bit strings of different lengths count 0, equal lengths count their Hamming distance |
| Avalanche.Flipped | Atelier2/EX5.cpp:55-71 | inside the string, only byte k/8 changes, by the mask of bit k%8; beyond it, the string is unchanged |
| Avalanche.FlipBitInString | Atelier2/EX5.cpp:55-71 | flip_bit_in_string returns Flipped |
| Avalanche.FlipInvolution | Atelier2/EX5.cpp:68 | flipping the same bit twice restores the string |
| Avalanche.XorByteBit | Atelier2/EX5.cpp:68 | bit i of an XOR is the XOR of the bits i |
| Avalanche.FlipByteBit | Atelier2/EX5.cpp:68 | XOR with the mask of bit j changes bit j of the byte and no other |
| Avalanche.FlipAtPosition | Atelier2/EX5.cpp:55-71 | bit p of the flipped string differs from the input exactly when p is k |
| Avalanche.FlipChangesExactlyBitK | Atelier2/EX5.cpp:55-71 | string_to_bits of the flipped string differs from the original at position k and nowhere else |
| Avalanche.FlipIsOneBitApart | Atelier2/EX5.cpp:55-71 | one flipped message bit is a Hamming distance of exactly 1 |
| Distribution.Ones | Atelier2/EX6.cpp:131-137 | no more ones than bits |
| Distribution.TotalOnes | Atelier2/EX6.cpp:129-138 | no more ones than bits over all hashes |
| Distribution.BitDistributionResult.constructor | Atelier2/EX6.cpp:58-60 | all counters start at 0 |
| Distribution.BitDistributionResult.Tally | Atelier2/EX6.cpp:131-138 | the bits are added to the total, and the ones and zeros to their counters |
| Distribution.AnalyzeBitDistribution | Atelier2/EX6.cpp:110-149 | the number of hashes, the number of their bits and the ones among them; ones and zeros add up to the total |
| Distribution.FullHashesGive256Bits | Atelier2/EX6.cpp:129-138 | hashes of 64 hex digits give 256 bits each |
| Distribution.AcHashSamplesGive256Bits | Atelier2/EX6.cpp:121-131 | n ac_hash samples give 256n bits |
| Distribution.SimpleSamplesGive256Bits | Atelier2/EX6.cpp:163-168 | n sha256_simple samples give 256n bits |
| Distribution.PositionCount | Atelier2/EX6.cpp:247-251 | a position is set in no more hashes than there are |
| Distribution.UnreachedPositionStaysZero | Atelier2/EX6.cpp:247 | a position past every hash's bits is never counted |
| Distribution.CountPositions | Atelier2/EX6.cpp:247-251 | one hash adds one to each of the first 256 positions where its bit is set |
| Distribution.AnalyzeBitPositions | Atelier2/EX6.cpp:232-251 | 256 counters, counter p being the number of hashes whose bit p is set |
| Text.Repeat | EX2.cpp:44 | string(n, c) is n copies of c |
| Text.IntToString | EX2.cpp:38 | `ss << n` of an integer: an optional minus sign, then the decimal digits; never empty |
| Text.Prefix | EX2.cpp:51 | substr(0, n) is the first n characters, or the whole string when it is shorter |
| Text.SubstrTestIsPrefix | EX2.cpp:51 | the mining test hash.substr(0, d) == string(d, '0') holds exactly when the hash has d characters and they are all '0' |
| Text.HexDigits | Atelier2/EX2.cpp:58-61 | a fixed-width field of lower-case hex digits |
| Text.HexDigitsRoundTrip | Atelier2/EX2.cpp:58-61 | a value that fits reads back from its hex digits |
| Sha256Core.Mask8 | picosha2.h:44-47 | the low byte |
| Sha256Core.Mask32 | picosha2.h:49-52 | the result is a 32-bit word |
| Sha256Core.Mask32IsMod | picosha2.h:49-52 | masking is the remainder modulo 2^32, and a 32-bit word is its own mask |
| Sha256Core.Ch | picosha2.h:69-72 | ch, with `~x` the complement of the 64-bit word; Sha256Core.ChChooses states it bit by bit |
| Sha256Core.Maj | picosha2.h:74-77 | maj; Sha256Core.MajIsMajority states it bit by bit |
| Sha256Core.ChChooses | picosha2.h:69-72 | each bit of ch is y's bit where x is set and z's bit where it is not |
| Sha256Core.MajIsMajority | picosha2.h:74-77 | each bit of maj is the majority of the three bits |
| Sha256Core.ChMajAreWords | picosha2.h:69-77 | ch and maj of 32-bit words are 32-bit words |
| Sha256Core.Rotr | picosha2.h:79-82 | rotr gives a 32-bit word |
| Sha256Core.RotrIsRotation | picosha2.h:79-82 | on a 32-bit word, bit i of rotr(x, n) is bit (i+n) mod 32 of x |
| Sha256Core.RotrBit | picosha2.h:79-82 | the bits of the shift-or form of rotr, for any input |
| Sha256Core.Bsig0 | picosha2.h:84-87 | bsig0, the XOR of three rotations; Sha256Core.Bsig0Bits states which |
| Sha256Core.Bsig1 | picosha2.h:89-92 | bsig1, the XOR of three rotations; Sha256Core.Bsig1Bits states which |
| Sha256Core.Ssig0 | picosha2.h:99-102 | ssig0, two rotations and a shift; Sha256Core.Ssig0Bits states which |
| Sha256Core.Ssig1 | picosha2.h:104-107 | ssig1, two rotations and a shift; Sha256Core.Ssig1Bits states which |
| Sha256Core.Bsig0Bits | picosha2.h:84-87 | Σ0 is the XOR of the rotations by 2, 13 and 22 |
| Sha256Core.Bsig1Bits | picosha2.h:89-92 | Σ1 is the XOR of the rotations by 6, 11 and 25 |
| Sha256Core.Ssig0Bits | picosha2.h:99-102 | σ0 is the XOR of the rotations by 7 and 18 and the shift by 3 |
| Sha256Core.Ssig1Bits | picosha2.h:104-107 | σ1 is the XOR of the rotations by 17 and 19 and the shift by 10 |
| Sha256Core.SigmasAreWords | picosha2.h:84-107 | the four sigma functions keep 32-bit words 32-bit |
| Sha256Core.BytesOf | picosha2.h:266 | n bytes |
| Sha256Core.BytesOfValue | picosha2.h:264-267 | the big-endian value of the n bytes of x is x modulo 2^(8n) |
| Sha256Core.BlockWordValue | picosha2.h:114-116 | the shifted-or word built from four block bytes is their big-endian value |
| Sha256Core.BigEndianBound | picosha2.h:114-116 | n bytes have a big-endian value below 2^(8n) |
| Sha256Core.Extend | picosha2.h:117-119 | the schedule has 64 words |
| Sha256Core.ExtendKeepsPrefix | picosha2.h:117-119 | extending keeps the words already present |
| Sha256Core.BlockWords | picosha2.h:114-116 | n words loaded |
| Sha256Core.BlockWordsAt | picosha2.h:114-116 | loaded word i is the block's word i |
| Sha256Core.Schedule | picosha2.h:112-119 | the schedule of a block has 64 words |
| Sha256Core.ScheduleRecurrence | picosha2.h:114-119 | the first 16 words are the block's big-endian words, and word t is σ1(w[t−2]) + w[t−7] + σ0(w[t−15]) + w[t−16] modulo 2^32 |
| Sha256Core.ScheduleIsWords | picosha2.h:114-119 | every word of a block's schedule is a 32-bit word |
| Sha256Core.ScheduleSumsInRange | picosha2.h:117-119 | the unmasked sum σ1(w[t−2]) + w[t−7] + σ0(w[t−15]) + w[t−16] never reaches 2^64 |
| Sha256Core.Round | picosha2.h:130-141 | one round: temp1 and temp2 are unmasked sums and only a and e are masked to 32 bits; Sha256Core.RoundStaysInRange bounds its sums |
| Sha256Core.RoundStaysInRange | picosha2.h:130-141 | one round on 32-bit words never sums past 2^64 and gives 32-bit words |
| Sha256Core.RoundsAreWords | picosha2.h:121-141 | over a schedule of 32-bit words, every round of the loop starts and ends with 32-bit working variables, the round constants of picosha2.h:54-63 being 32-bit |
| Sha256Core.RoundsStayInRange | picosha2.h:121-141 | over a schedule of 32-bit words, none of the 64 rounds sums past 2^64 |
| Sha256Core.AddWords | picosha2.h:142-152 | each digest word is the sum of the old word and the round word modulo 2^32 |
| Sha256Core.Compress | picosha2.h:109-153 | compressing a block gives eight 32-bit words |
| Sha256Core.DigestSumsInRange | picosha2.h:142-149 | `message_digest[i] += …` of 32-bit words stays below 2^64 |
| Sha256Core.CompressStaysInRange | picosha2.h:109-153 | for a digest of 32-bit words, no schedule sum, no round sum and no digest addition of hash256_block reaches 2^64, so its 64-bit arithmetic never wraps |
| Sha256Core.LoadWord | picosha2.h:115 | the shifted-or expression is the block's word i |
| Sha256Core.ScheduleWord | picosha2.h:118 | the masked sum of σ1, σ0 and two earlier words |
| Sha256Core.LoadWords | picosha2.h:114-116 | the first loop fills the first 16 words of the block |
| Sha256Core.ExtendWords | picosha2.h:117-119 | the second loop completes the schedule from those 16 words |
| Sha256Core.LoadSchedule | picosha2.h:112-119 | the array holds the block's schedule |
| Sha256Core.RoundStep | picosha2.h:130-141 | the eight updated variables are one round |
| Sha256Core.RunRounds | picosha2.h:130-141 | the loop performs the 64 rounds |
| Sha256Core.AddToDigest | picosha2.h:142-152 | the digest becomes the word-wise sum with the rounds' result |
| Sha256Core.Hash256Block | picosha2.h:109-153 | the digest becomes the compression of the old digest with the block |
| Picosha2.CompressAll | picosha2.h:255-258 | compressing the whole blocks of a message leaves eight words |
| Picosha2.CompressAllIsWords | picosha2.h:65-67 | the initial hash value and every digest the block loop of picosha2.h:255-258 reaches are 32-bit words, so Sha256Core.CompressStaysInRange applies to every block |
| Picosha2.CompressAllAppend | picosha2.h:252-260 | compressing whole blocks in two parts equals compressing them at once |
| Picosha2.CompressAllBlock | picosha2.h:256 | one more block is one more compression |
| Picosha2.WholePart | picosha2.h:255-258 | the whole-block prefix, missing less than one block |
| Picosha2.Rest | picosha2.h:259 | the remainder is less than one block, and the whole part followed by it is the data |
| Picosha2.SplitIsUnique | picosha2.h:252-260 | whole blocks followed by less than a block split back into those two parts |
| Picosha2.PadZeros | picosha2.h:270-272 | fewer than 64 zero bytes, bringing the length with 0x80 to 56 modulo 64 |
| Picosha2.PadZerosFacts | picosha2.h:269-272 | picosha2's zero count is that of PadZeros, and 56 modulo 64 is first reached there |
| Picosha2.LengthBytes | picosha2.h:265-267 | the length field is eight bytes |
| Picosha2.SizeBits | picosha2.h:264 | the bit count, as an unsigned 64-bit value |
| Picosha2.LengthBytesValue | picosha2.h:264-267 | the eight length bytes read back big-endian as the bit count |
| Picosha2.Tail | picosha2.h:221-226 | the rest of the input, 0x80, zeros and the length bytes, filling whole blocks |
| Picosha2.Padded | picosha2.h:262-273 | a padded message is whole blocks |
| Picosha2.AsWrittenPadded | picosha2.h:282-284 | picosha2's padded message is whole blocks |
| Picosha2.FipsPadded | picosha2.h:262-273 | section 5.1.1 padding of FIPS 180-4 fills whole blocks |
| Picosha2.PaddedLengthField | picosha2.h:264-267 | the last eight bytes hold the length given |
| Picosha2.PaddedPrefix | picosha2.h:262-273 | a padded message starts with the message and 0x80 |
| Picosha2.FipsPaddedShape | picosha2.h:262-273 | the FIPS padding is the message, 0x80, fewer than 64 zeros reaching 56 modulo 64, and 8·len |
| Picosha2.ShortMessagesAgree | picosha2.h:264 | below one block, picosha2's padding is FIPS padding |
| Picosha2.AsWrittenLengthField | picosha2.h:264-267 | picosha2's length field holds 8·(len mod 64) |
| Picosha2.AsWrittenDiffers | picosha2.h:264 | from 64 bytes on, picosha2's padding is not FIPS padding |
| Picosha2.DigestBytes | picosha2.h:228-236 | four bytes per digest word |
| Picosha2.DigestBytesAt | picosha2.h:231-235 | bytes 4j to 4j+3 are word j, high byte first |
| Picosha2.DigestBytesRoundTrip | picosha2.h:228-236 | each four-byte group reads back as its 32-bit word |
| Picosha2.Take | picosha2.h:232 | output stops at the end of the buffer |
| Picosha2.HexString | picosha2.h:157-168 | two lower-case hex digits per byte |
| Picosha2.ParsePairsAppend | picosha2.h:164-167 | reading pairs of hex digits extends by one byte per pair |
| Picosha2.HexStringRoundTrip | picosha2.h:157-168 | reading the hex string back in pairs gives the bytes |
| Picosha2.Hash256OneByOne.constructor | picosha2.h:203-206 | an empty buffer, no blocks and the initial hash value |
| Picosha2.Hash256OneByOne.Init | picosha2.h:208-212 | the buffer is cleared, and the digest is reset to the initial hash value |
| Picosha2.Hash256OneByOne.AddToBuffer | picosha2.h:239-250 | the data is appended to the buffer |
| Picosha2.Hash256OneByOne.ProcessBuffer | picosha2.h:252-260 | the whole blocks of the buffer are compressed, and the rest stays buffered |
| Picosha2.Hash256OneByOne.HashBlocks | picosha2.h:255-258 | the digest is the compression of everything processed, including the buffer's whole blocks |
| Picosha2.Hash256OneByOne.HashBlockAt | picosha2.h:256-257 | one block is compressed into the digest |
| Picosha2.Hash256OneByOne.WholeBlocksEnd | picosha2.h:255-259 | where the loop stops is the split into whole part and rest |
| Picosha2.Hash256OneByOne.Process | picosha2.h:214-219 | the data joins the input; whole blocks are compressed and the rest stays buffered |
| Picosha2.Hash256OneByOne.AppendPadding | picosha2.h:262-273 | 0x80 and the zero bytes are appended, and the length bytes returned |
| Picosha2.Hash256OneByOne.PadBuffer | picosha2.h:262-273 | as written: the length bytes are those of 8 × the buffer's size |
| Picosha2.Hash256OneByOne.Finish | picosha2.h:221-226 | as written: the buffer and its padding, with the buffer's length field, are compressed |
| Picosha2.Hash256OneByOne.PadBufferWithLength | picosha2.h:262-273 | corrected: the length bytes are those of 8 × the whole message length |
| Picosha2.Hash256OneByOne.FinishWithLength | picosha2.h:221-226 | corrected: the buffer is padded with the whole message length and compressed |
| Picosha2.Hash256OneByOne.GetHashBytes | picosha2.h:228-236 | the digest's big-endian bytes, as many as fit the output |
| Picosha2.Hash256OneByOne.WordBytes | picosha2.h:231-235 | the inner loop writes one word's four bytes, high byte first |
| Picosha2.AsWrittenHash | picosha2.h:279-286 | 32 bytes |
| Picosha2.Sha256 | picosha2.h:279-286 | corrected: 32 bytes |
| Picosha2.CalcHash | picosha2.h:279-286 | the object run over the message as written gives AsWrittenHash |
| Picosha2.Hash256Bytes | picosha2.h:320-325 | hash256 of a string gives the 32 digest bytes AsWrittenHash |
| Picosha2.CalcHashFips | picosha2.h:279-286 | the object with the corrected finish gives the padded-message hash Sha256 |
| Picosha2.ShortHashesAgree | picosha2.h:279-286 | below one block, the hash as written is the corrected hash |
| Picosha2.BytesToHexString | picosha2.h:170-176 | the hex string of the bytes |
| Picosha2.Hash256HexString | picosha2.h:288-312 | 64 lower-case hex digits of the hash as written |

## Left out

- Output of every kind is left out, because it changes no state of the core:
  - `display`, `displayChain`, `displayValidatorStats`, `print` and `print_chain`;
  - messages to `cout` and `cerr`, and progress dots;
  - the `hash_mode_to_string` labels.
- The drivers are not modelled. These are `main`, `comparePoWvsPoS`, the `test_*` and `run_comprehensive_tests` functions of `Atelier2`, and the comparison tables they print.
- Timing is left out because clocks are outside the model. This covers `high_resolution_clock`, the mining durations, `totalPoWTime`/`totalPoSTime`, `total_time_ms` and the per-block averages.
- Wall-clock timestamps are parameters.
  - `Atelier1/*` and `EX2.cpp` take milliseconds since the epoch.
  - `Atelier2/*` take the `strftime` text.
- Randomness is left out.
  - The `mt19937` generator and the `uniform_real_distribution` draw of `Atelier1/EX3.cpp` and `Atelier1/EX4.cpp` are replaced by the draw `r`, which is a parameter.
  - `generate_random_message` in `Atelier2/EX6.cpp` is replaced by hashes the caller supplies.
- Floating point is left out.
  - Stakes are natural numbers, and a transaction's amount reaches its string through a formatting parameter `fmt2`.
  - The bit-difference percentage, `calculate_percentages`, `is_balanced` and the chi-square-like figures of `Atelier2/EX5.cpp` and `Atelier2/EX6.cpp` are not modelled.
- The Merkle tree and the chain models are not tied to the picosha2 model: their `sha256(string)` is the parameter `Hash`, so they do not promise anything that depends on the digest being picosha2's.
- `C++ int` overflow of nonces, indices and counters is not modelled, because the model's integers are unbounded. The C++ program would overflow only after 2^31 tries.
- A negative difficulty is not covered: the chains take `difficulty` as a natural number, where the source's `int difficulty` would make `std::string target(difficulty, '0')` throw. Every chain in the source is built with a non-negative constant.
- PowChain.Block.MineBlock: the source search runs forever when no nonce meets the target. The model covers only runs that end, given by a ghost `solution` nonce.
  - The same holds for HybridChain.Block.MineBlock, StatsChain.Block.MineBlockWithStats, PowChain.Blockchain.constructor, PowChain.Blockchain.AddBlock, HybridChain.Blockchain.AddBlockPoW and StatsChain.TestBlockchain.AddBlockWithStats.
- StatsChain.TestBlockchain.AddBlockWithStats: it requires `solution > 0`. `mine_block_with_stats` is a `do … while` loop, so it never tries nonce 0.
- CaHash.ExtractHash: it requires a non-empty ring. The source divides by the ring's size and would fail on an empty one. `ac_hash` always passes one of at least 512 cells.
- `Atelier2/EX1.h` and `Atelier2/EX2.h` hold only declarations. The default rule 30 of `EX1.h` is the constructor's default.
- picosha2's iterator and template genericity is reduced to byte sequences. The `std::ostream` flags saved by the hex output, the `hash256_hex_string` overloads that write to an ostream, and the iterator-pair `hash256` overloads are modelled only in their string form.
- Trivial getters have no members of their own; the model reads the field directly: `getHash` (`EX2.cpp:71`, `Atelier1/EX3.cpp:61` and `231`, `Atelier1/EX4.cpp:159`), `getLastBlock` (`EX2.cpp:105`, `Atelier1/EX3.cpp:130`, `Atelier1/EX4.cpp:246`), `getChainLength` (`EX2.cpp:152`, `Atelier1/EX3.cpp:195`, `Atelier1/EX4.cpp:383`), `getValidator` (`Atelier1/EX3.cpp:65`, `Atelier1/EX4.cpp:164`), `getMerkleRoot` (`Atelier1/EX4.cpp:161`), `get_hash_mode` (`Atelier2/EX3.cpp:114`) and `get_latest_block` (`Atelier2/EX3.cpp:118`, `Atelier2/EX4.cpp:105`). The other getters have members: `getRoot` of `Atelier1/EX1.cpp:76` is Merkle.MerkleTree.GetRoot, `getRoot` of `Atelier1/EX4.cpp:80` is HybridChain.TransactionTree.GetRoot, and `get_state` of `Atelier2/EX1.cpp:37` is Automaton.CellularAutomaton1D.GetState.
- The `size_t` wrap-around in `(i - 1 + n) % n` of `Atelier2/EX1.cpp` is proved to give the same neighbour as the integer expression (`Automaton.CyclicNeighbours`), so the model uses integers.

## Findings

| source | as written | input that shows it | evidently intended | confidence | as-written member | corrected member |
|---|---|---|---|---|---|---|
| picosha2.h:264 | `finish` writes the length field from the size of the buffer, which holds only the bytes after the last whole block, so the field is 8·(len mod 64) bits | any message of 64 bytes or more, e.g. 64 zero bytes, whose field says 0 bits instead of 512 | the field holds 8·len bits of the whole message (section 5.1.1 of FIPS 180-4) | not executed | Picosha2.AsWrittenDiffers | Picosha2.CalcHashFips |
| Atelier1/EX1.cpp:136 | `verifyProof` always folds `sha256(p + cur)`, putting the sibling on the left whatever side it is on | transactions "a" and "b", proof of index 0, which is [sha256(b)]: the fold computes sha256(sha256(b) + sha256(a)) where the root is sha256(sha256(a) + sha256(b)); with the identity as digest, "ba" against "ab" | each step folds the sibling on the side it occupies, so every generated proof verifies | not executed | Merkle.LeftFoldRejectsLeftLeaf | Merkle.SidedProofVerifies |
