/** The Merkle tree of Atelier1/EX1.cpp: leaves are the digests of the
    transactions, each level pairs adjacent nodes (an unpaired last node is
    paired with itself), a proof is the list of siblings on the path to the
    root, and the verifier always folds the sibling on the LEFT.
    The digest function is a parameter: every statement holds for any hash. */
module Merkle {
  import opened Text

  type Hash = string -> string

  function HashPair(H: Hash, left: string, right: string): string {
    H(left + right)
  }

  /** The right partner of node 2k in a level: node 2k+1, or 2k itself when unpaired. */
  function Partner(level: seq<string>, k: nat): string
    requires 2 * k < |level|
  {
    if 2 * k + 1 < |level| then level[2 * k + 1] else level[2 * k]
  }

  /** One pass of the pairing loop: node k of the next level. */
  function PairLevel(H: Hash, level: seq<string>): (r: seq<string>)
    ensures |r| == (|level| + 1) / 2
  {
    seq((|level| + 1) / 2, k requires 0 <= k < (|level| + 1) / 2 => HashPair(H, level[2 * k], Partner(level, k)))
  }

  /** All levels from `level` up to the one-node root level. */
  function LevelsFrom(H: Hash, level: seq<string>): (r: seq<seq<string>>)
    requires |level| >= 1
    ensures |r| >= 1 && r[0] == level && |r[|r| - 1]| == 1
    decreases |level|
  {
    if |level| == 1 then [level] else [level] + LevelsFrom(H, PairLevel(H, level))
  }

  /** The single node the pairing of `level` ends in. */
  function Top(H: Hash, level: seq<string>): string
    requires |level| >= 1
    decreases |level|
  {
    if |level| == 1 then level[0] else Top(H, PairLevel(H, level))
  }

  /** The root of the tree over the given leaves; "" for no leaves. */
  function RootOf(H: Hash, leaves: seq<string>): string {
    if leaves == [] then "" else Top(H, leaves)
  }

  /** The shape of the levels: the first is the input (see LevelsFrom), each
      next one is the pairing of the previous, every level but the last has
      more than one node, and the last is the one-node level holding Top. */
  lemma {:induction false} LevelsLinked(H: Hash, level: seq<string>)
    requires |level| >= 1
    ensures var L := LevelsFrom(H, level);
      && (forall j :: 0 <= j < |L| - 1 ==> |L[j]| > 1 && L[j + 1] == PairLevel(H, L[j]))
      && L[|L| - 1] == [Top(H, level)]
    decreases |level|
  {
    if |level| > 1 {
      var next := PairLevel(H, level);
      LevelsLinked(H, next);
      var L := LevelsFrom(H, level);
      assert L[1..] == LevelsFrom(H, next);
      forall j | 0 <= j < |L| - 1
        ensures |L[j]| > 1 && L[j + 1] == PairLevel(H, L[j])
      {
        if j > 0 {
          assert L[j] == L[1..][j - 1] && L[j + 1] == L[1..][j];
        }
      }
    }
  }

  /** The levels are the only list that starts with the input, pairs each
      level into the next, and stops exactly at the first one-node level. */
  lemma {:induction false} LevelsUnique(H: Hash, L: seq<seq<string>>)
    requires |L| >= 1 && |L[0]| >= 1 && |L[|L| - 1]| == 1
    requires forall j :: 0 <= j < |L| - 1 ==> |L[j]| > 1 && L[j + 1] == PairLevel(H, L[j])
    ensures L == LevelsFrom(H, L[0])
    ensures L[|L| - 1] == [Top(H, L[0])]
    decreases |L|
  {
    if |L| > 1 {
      var rest := L[1..];
      forall j | 0 <= j < |rest| - 1
        ensures |rest[j]| > 1 && rest[j + 1] == PairLevel(H, rest[j])
      {
        assert rest[j] == L[j + 1] && rest[j + 1] == L[j + 2];
      }
      LevelsUnique(H, rest);
      assert rest[0] == PairLevel(H, L[0]);
      assert L == [L[0]] + rest;
    } else {
      assert L[0] == [L[0][0]];
    }
  }

  /** The number of levels the pairing of n nodes produces. */
  function Depth(n: nat): (d: nat)
    ensures d >= 1
  {
    if n <= 1 then 1 else 1 + Depth((n + 1) / 2)
  }

  /** LevelsFrom builds Depth(n) levels from n nodes. */
  lemma {:induction false} LevelsDepth(H: Hash, level: seq<string>)
    requires |level| >= 1
    ensures |LevelsFrom(H, level)| == Depth(|level|)
    decreases |level|
  {
    if |level| > 1 {
      LevelsDepth(H, PairLevel(H, level));
    }
  }

  /** Depth(n) is ceil(log2 n) + 1: n <= 2^(Depth(n)-1), and 2^(Depth(n)-2) < n
      when there are two levels or more. */
  lemma {:induction false} DepthBounds(n: nat)
    requires n >= 1
    ensures n <= Pow2(Depth(n) - 1) && (Depth(n) >= 2 ==> Pow2(Depth(n) - 2) < n)
  {
    if n > 1 {
      var m := (n + 1) / 2;
      DepthBounds(m);
      HalvingBounds(n, m, Depth(m));
    }
  }

  /** The arithmetic of one level of DepthBounds: if m = ceil(n/2) lies in
      (2^(k-2), 2^(k-1)], then n lies in (2^(k-1), 2^k]. */
  lemma HalvingBounds(n: nat, m: nat, k: nat)
    requires n > 1 && m == (n + 1) / 2 && k >= 1
    requires m <= Pow2(k - 1) && (k >= 2 ==> Pow2(k - 2) < m) && (k == 1 ==> m == 1)
    ensures n <= Pow2(k) && Pow2(k - 1) < n
  {
    assert Pow2(k) == 2 * Pow2(k - 1);
    if k >= 2 {
      assert Pow2(k - 1) == 2 * Pow2(k - 2);
    }
  }

  /** The index of the sibling the C++ reads: idx+1 for even idx, idx-1 for odd. */
  function PairIndex(idx: nat): int {
    if idx % 2 == 0 then idx + 1 else idx - 1
  }

  /** One proof entry: the sibling's digest, or the node's own digest when the
      sibling is off the end of the level. */
  function Sibling(level: seq<string>, idx: nat): string
    requires idx < |level|
  {
    if PairIndex(idx) < |level| then level[PairIndex(idx)] else level[idx]
  }

  /** The proof generated for node idx of `level`, one sibling per level below the root. */
  function PathProof(H: Hash, level: seq<string>, idx: nat): (r: seq<string>)
    requires idx < |level|
    ensures |r| == |LevelsFrom(H, level)| - 1
    decreases |level|
  {
    if |level| == 1 then [] else [Sibling(level, idx)] + PathProof(H, PairLevel(H, level), idx / 2)
  }

  /** The step of the proof loop: appending the sibling on level `level` and
      moving to the parent index keeps the proof gathered so far a prefix of
      the whole path. */
  lemma SiblingStep(H: Hash, lv: seq<seq<string>>, level: nat, index: nat, proof: seq<string>, target: seq<string>)
    requires level < |lv| - 1 && index < |lv[level]|
    requires forall j :: 0 <= j < |lv| - 1 ==> |lv[j]| > 1 && lv[j + 1] == PairLevel(H, lv[j])
    requires proof + PathProof(H, lv[level], index) == target
    ensures index / 2 < |lv[level + 1]|
    ensures PairIndex(index) < |lv[level]| ==> 0 <= PairIndex(index)
    ensures (proof + [Sibling(lv[level], index)]) + PathProof(H, lv[level + 1], index / 2) == target
  {
    var current, next := lv[level], lv[level + 1];
    assert |current| > 1 && next == PairLevel(H, current);
    PathProofStep(H, current, next, index);
    var rest := PathProof(H, next, index / 2);
    assert PathProof(H, current, index) == [Sibling(current, index)] + rest;
    assert (proof + [Sibling(current, index)]) + rest == proof + ([Sibling(current, index)] + rest);
  }

  /** One loop step of the proof generation: the first entry is the sibling,
      the rest is the proof one level up. */
  lemma PathProofStep(H: Hash, level: seq<string>, next: seq<string>, idx: nat)
    requires idx < |level| && |level| > 1 && next == PairLevel(H, level)
    ensures idx / 2 < |next|
    ensures PathProof(H, level, idx) == [Sibling(level, idx)] + PathProof(H, next, idx / 2)
  {
  }

  /** The verifier's fold: every step hashes the proof entry in FRONT of the current digest. */
  function FoldLeft(H: Hash, current: string, proof: seq<string>): string
    decreases |proof|
  {
    if proof == [] then current else FoldLeft(H, HashPair(H, proof[0], current), proof[1..])
  }

  /** At every level of a tree with n nodes at the bottom, the path index is odd
      (its sibling really is on the left) or it is the unpaired last node. */
  predicate LeftFoldable(n: nat, idx: nat)
    decreases n
  {
    n <= 1 || ((idx % 2 == 1 || idx + 1 == n) && LeftFoldable((n + 1) / 2, idx / 2))
  }

  /** An odd node is the right child: its parent hashes its left sibling in front of it. */
  lemma PairOfOdd(H: Hash, level: seq<string>, idx: nat)
    requires idx < |level| && idx % 2 == 1
    ensures idx / 2 < |PairLevel(H, level)|
    ensures PairLevel(H, level)[idx / 2] == HashPair(H, Sibling(level, idx), level[idx])
  {
    var k := idx / 2;
    assert 2 * k + 1 == idx;
  }

  /** An even node is the left child: its parent hashes it in front of its
      sibling, or in front of itself when it has none. */
  lemma PairOfEven(H: Hash, level: seq<string>, idx: nat)
    requires idx < |level| && idx % 2 == 0
    ensures idx / 2 < |PairLevel(H, level)|
    ensures PairLevel(H, level)[idx / 2] == HashPair(H, level[idx], Sibling(level, idx))
  {
    var k := idx / 2;
    assert 2 * k == idx;
  }

  /** The round trip that does hold for the left-only verifier: exactly the
      paths whose siblings are all on the left (or are the node itself). */
  lemma {:induction false} LeftFoldRoundTrip(H: Hash, level: seq<string>, idx: nat)
    requires idx < |level| && LeftFoldable(|level|, idx)
    ensures FoldLeft(H, level[idx], PathProof(H, level, idx)) == Top(H, level)
    decreases |level|
  {
    if |level| > 1 {
      var next := PairLevel(H, level);
      var k := idx / 2;
      if idx % 2 == 1 {
        PairOfOdd(H, level, idx);
      } else {
        PairOfEven(H, level, idx);
      }
      PathProofStep(H, level, next, idx);
      LeftFoldRoundTrip(H, next, k);
    }
  }

  /** A leaf digest is in the tree's leaf list. */
  predicate InLeaves(leaves: seq<string>, d: string) {
    exists i :: 0 <= i < |leaves| && leaves[i] == d
  }

  class MerkleTree {
    const sha256: Hash
    var leaves: seq<string>
    var levels: seq<seq<string>>
    var root: string

    ghost predicate Valid()
      reads this
    {
      && levels == (if leaves == [] then [] else LevelsFrom(sha256, leaves))
      && root == RootOf(sha256, leaves)
    }

    /** Leaf i is the digest of transaction i, in input order; then the tree is built. */
    constructor (sha256: Hash, transactions: seq<string>)
      ensures Valid() && this.sha256 == sha256
      ensures |leaves| == |transactions|
      ensures forall i :: 0 <= i < |transactions| ==> leaves[i] == sha256(transactions[i])
      ensures transactions == [] ==> root == "" && levels == []
    {
      this.sha256 := sha256;
      var ls: seq<string> := [];
      var i := 0;
      while i < |transactions|
        invariant 0 <= i <= |transactions|
        invariant |ls| == i
        invariant forall j :: 0 <= j < i ==> ls[j] == sha256(transactions[j])
      {
        ls := ls + [sha256(transactions[i])];
        i := i + 1;
      }
      leaves := ls;
      levels := [];
      root := "";
      new;
      BuildTree();
    }

    /** Builds every level bottom-up; with no leaves only the root is set, to "". */
    method BuildTree()
      modifies this
      ensures leaves == old(leaves)
      ensures leaves == [] ==> root == "" && levels == old(levels)
      ensures leaves != [] ==> levels == LevelsFrom(sha256, leaves) && root == RootOf(sha256, leaves)
    {
      if leaves == [] {
        root := "";
        return;
      }
      var H := sha256;
      var ls := leaves;
      var currentLevel := ls;
      var built := [ls];
      while |currentLevel| > 1
        invariant |currentLevel| >= 1
        invariant |built| >= 1 && built[0] == ls && built[|built| - 1] == currentLevel
        invariant forall j :: 0 <= j < |built| - 1 ==> |built[j]| > 1 && built[j + 1] == PairLevel(H, built[j])
        invariant leaves == ls && sha256 == H
        decreases |currentLevel|
      {
        var nextLevel := NextLevel(H, currentLevel);
        built := built + [nextLevel];
        currentLevel := nextLevel;
      }
      LevelsUnique(H, built);
      levels := built;
      root := currentLevel[0];
    }

    /** The inner loop of buildTree: hash node i with node i+1, or with itself
        when it is the last of an odd-sized level. */
    static method NextLevel(H: Hash, currentLevel: seq<string>) returns (nextLevel: seq<string>)
      ensures nextLevel == PairLevel(H, currentLevel)
    {
      nextLevel := [];
      var i := 0;
      while i < |currentLevel|
        invariant 0 <= i <= |currentLevel| + 1 && i == 2 * |nextLevel|
        invariant forall k :: 0 <= k < |nextLevel| ==> nextLevel[k] == HashPair(H, currentLevel[2 * k], Partner(currentLevel, k))
      {
        if i + 1 < |currentLevel| {
          nextLevel := nextLevel + [HashPair(H, currentLevel[i], currentLevel[i + 1])];
        } else {
          nextLevel := nextLevel + [HashPair(H, currentLevel[i], currentLevel[i])];
        }
        i := i + 2;
      }
    }

    function GetRoot(): (r: string)
      reads this
      requires Valid()
      ensures r == RootOf(sha256, leaves)
    {
      root
    }

    /** True exactly when the digest of the transaction is one of the leaves. */
    method VerifyTransaction(transaction: string) returns (found: bool)
      ensures found <==> InLeaves(leaves, sha256(transaction))
    {
      var txHash := sha256(transaction);
      var i := 0;
      while i < |leaves|
        invariant 0 <= i <= |leaves|
        invariant forall j :: 0 <= j < i ==> leaves[j] != txHash
      {
        if leaves[i] == txHash {
          return true;
        }
        i := i + 1;
      }
      return false;
    }

    /** Empty for an index out of range; otherwise one sibling per level below the root. */
    method GenerateProof(txIndex: int) returns (proof: seq<string>)
      requires Valid()
      ensures txIndex < 0 || txIndex >= |leaves| ==> proof == []
      ensures 0 <= txIndex < |leaves| ==> proof == PathProof(sha256, leaves, txIndex)
      ensures 0 <= txIndex < |leaves| ==> |proof| == |levels| - 1
    {
      proof := [];
      if txIndex < 0 || txIndex >= |leaves| {
        return;
      }
      LevelsLinked(sha256, leaves);
      proof := CollectSiblings(sha256, levels, txIndex);
    }

    /** The loop of generateProof over the stored levels: the sibling of the
        current node on each level, the index halving on the way up. */
    static method CollectSiblings(H: Hash, lv: seq<seq<string>>, txIndex: nat) returns (proof: seq<string>)
      requires |lv| >= 1 && txIndex < |lv[0]| && |lv[|lv| - 1]| == 1
      requires forall j :: 0 <= j < |lv| - 1 ==> |lv[j]| > 1 && lv[j + 1] == PairLevel(H, lv[j])
      ensures proof == PathProof(H, lv[0], txIndex)
    {
      ghost var target := PathProof(H, lv[0], txIndex);
      proof := [];
      var index: nat := txIndex;
      var level := 0;
      while level < |lv| - 1
        invariant 0 <= level <= |lv| - 1
        invariant index < |lv[level]|
        invariant proof + PathProof(H, lv[level], index) == target
      {
        var entry := SiblingEntry(lv[level], index);
        SiblingStep(H, lv, level, index, proof, target);
        proof := proof + [entry];
        index := index / 2;
        level := level + 1;
      }
      assert PathProof(H, lv[level], index) == [];
    }

    /** The entry one pass of the proof loop appends: the node at the pair
        index, or the node itself when the pair index is past the end. */
    static method SiblingEntry(current: seq<string>, index: nat) returns (entry: string)
      requires index < |current|
      ensures entry == Sibling(current, index)
    {
      var pairIndex := PairIndex(index);
      entry := if pairIndex < |current| then current[pairIndex] else current[index];
    }

    /** Folds every proof entry on the left and compares with the expected root. */
    static method VerifyProof(sha256: Hash, transaction: string, proof: seq<string>, root: string) returns (ok: bool)
      ensures ok <==> FoldLeft(sha256, sha256(transaction), proof) == root
    {
      var currentHash := sha256(transaction);
      var i := 0;
      while i < |proof|
        invariant 0 <= i <= |proof|
        invariant FoldLeft(sha256, currentHash, proof[i..]) == FoldLeft(sha256, sha256(transaction), proof)
      {
        var p := proof[i];
        assert proof[i..][1..] == proof[i + 1..];
        currentHash := HashPair(sha256, p, currentHash);
        i := i + 1;
      }
      ok := currentHash == root;
    }
  }

  /** With the tree's own proof and root, the left-only verifier accepts
      transaction i whenever every step of its path is a left sibling or a
      self-pairing. */
  lemma GeneratedProofVerifies(H: Hash, transactions: seq<string>, i: nat)
    requires i < |transactions|
    requires LeftFoldable(|transactions|, i)
    ensures var leaves := seq(|transactions|, j requires 0 <= j < |transactions| => H(transactions[j]));
      FoldLeft(H, H(transactions[i]), PathProof(H, leaves, i)) == RootOf(H, leaves)
  {
    var leaves := seq(|transactions|, j requires 0 <= j < |transactions| => H(transactions[j]));
    LeftFoldRoundTrip(H, leaves, i);
  }

  // ---------------------------------------------------------------------
  // The verifier the code evidently intended: each proof entry records on
  // which side the sibling sits, and the fold respects it.

  datatype Side = Left | Right

  datatype ProofStep = ProofStep(digest: string, side: Side)

  /** Like PathProof, with the side recorded: odd nodes have their sibling on
      the left, even nodes (including an unpaired last node) on the right. */
  function SidedPathProof(H: Hash, level: seq<string>, idx: nat): (r: seq<ProofStep>)
    requires idx < |level|
    ensures |r| == |LevelsFrom(H, level)| - 1
    decreases |level|
  {
    if |level| == 1 then []
    else [ProofStep(Sibling(level, idx), if idx % 2 == 1 then Left else Right)]
         + SidedPathProof(H, PairLevel(H, level), idx / 2)
  }

  function FoldSided(H: Hash, current: string, proof: seq<ProofStep>): string
    decreases |proof|
  {
    if proof == [] then current
    else FoldSided(H,
      if proof[0].side == Left then HashPair(H, proof[0].digest, current)
      else HashPair(H, current, proof[0].digest),
      proof[1..])
  }

  /** The sided verifier: fold with sides, then compare with the root. */
  predicate VerifySidedProof(H: Hash, transaction: string, proof: seq<ProofStep>, root: string) {
    FoldSided(H, H(transaction), proof) == root
  }

  /** Every node of every tree reaches the root through its sided proof. */
  lemma {:induction false} SidedFoldRoundTrip(H: Hash, level: seq<string>, idx: nat)
    requires idx < |level|
    ensures FoldSided(H, level[idx], SidedPathProof(H, level, idx)) == Top(H, level)
    decreases |level|
  {
    if |level| > 1 {
      var next := PairLevel(H, level);
      var k := idx / 2;
      if idx % 2 == 1 {
        PairOfOdd(H, level, idx);
      } else {
        PairOfEven(H, level, idx);
      }
      var proof := SidedPathProof(H, level, idx);
      assert proof == [proof[0]] + SidedPathProof(H, next, k);
      SidedFoldRoundTrip(H, next, k);
    }
  }

  /** The intended round trip: every transaction of the list verifies against
      the root with its sided proof. */
  lemma SidedProofVerifies(H: Hash, transactions: seq<string>, i: nat)
    requires i < |transactions|
    ensures var leaves := seq(|transactions|, j requires 0 <= j < |transactions| => H(transactions[j]));
      VerifySidedProof(H, transactions[i], SidedPathProof(H, leaves, i), RootOf(H, leaves))
  {
    var leaves := seq(|transactions|, j requires 0 <= j < |transactions| => H(transactions[j]));
    SidedFoldRoundTrip(H, leaves, i);
  }

  /** The left-only verifier rejects the left leaf of a two-leaf tree whenever
      the digest is the identity map: the fold computes "ba" where the root is "ab". */
  lemma LeftFoldRejectsLeftLeaf()
    ensures var H: Hash := (s: string) => s;
      var leaves := [H("a"), H("b")];
      FoldLeft(H, H("a"), PathProof(H, leaves, 0)) != RootOf(H, leaves)
  {
    var H: Hash := (s: string) => s;
    var leaves := [H("a"), H("b")];
    assert leaves == ["a", "b"];
    var next := PairLevel(H, leaves);
    assert |next| == 1 && next[0] == HashPair(H, "a", Partner(leaves, 0));
    assert Partner(leaves, 0) == "b";
    assert HashPair(H, "a", "b") == H("a" + "b") == "a" + "b" == "ab";
    assert next == ["ab"];
    assert RootOf(H, leaves) == Top(H, next) == "ab";
    assert PathProof(H, leaves, 0) == ["b"];
    assert FoldLeft(H, "a", ["b"]) == FoldLeft(H, "ba", []) == "ba";
    assert "ba" != "ab" by { assert "ba"[0] != "ab"[0]; }
  }

  /** The same rejection for every collision-free digest whose outputs for the
      two transactions have the same length, as SHA-256's hex digests do: the
      fold computes H(H(b) + H(a)) where the root is H(H(a) + H(b)). */
  lemma InjectiveLeftFoldRejectsLeftLeaf(H: Hash, a: string, b: string)
    requires forall x: string, y: string :: H(x) == H(y) ==> x == y
    requires a != b && |H(a)| == |H(b)|
    ensures var leaves := [H(a), H(b)];
      FoldLeft(H, H(a), PathProof(H, leaves, 0)) != RootOf(H, leaves)
  {
    var leaves := [H(a), H(b)];
    var next := PairLevel(H, leaves);
    assert Partner(leaves, 0) == H(b);
    assert next == [HashPair(H, H(a), H(b))];
    assert RootOf(H, leaves) == Top(H, next) == H(H(a) + H(b));
    assert PathProof(H, leaves, 0) == [H(b)];
    assert FoldLeft(H, H(a), [H(b)]) == FoldLeft(H, H(H(b) + H(a)), []) == H(H(b) + H(a));
    assert (H(b) + H(a))[..|H(b)|] == H(b) && (H(a) + H(b))[..|H(a)|] == H(a);
  }
}
