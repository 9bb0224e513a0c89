/** Stake-weighted validator selection shared by the proof-of-stake chains of
    Atelier1/EX3.cpp and Atelier1/EX4.cpp: a linear scan over the registry
    accumulates stakes and picks the first validator whose cumulative stake
    reaches the drawn value, falling back to the first validator. */
module Stake {

  datatype Validator = Validator(name: string, stake: nat, blocksValidated: nat)

  /** Sum of the first k stakes, in registry order. */
  function Cumulative(vs: seq<Validator>, k: nat): nat
    requires k <= |vs|
  {
    if k == 0 then 0 else Cumulative(vs, k - 1) + vs[k - 1].stake
  }

  function TotalStake(vs: seq<Validator>): nat {
    Cumulative(vs, |vs|)
  }

  /** Sum of every validator's blocksValidated counter. */
  function TotalValidated(vs: seq<Validator>): nat {
    if vs == [] then 0 else TotalValidated(vs[..|vs| - 1]) + vs[|vs| - 1].blocksValidated
  }

  /** The registry both chains start with: Alice 1000, Bob 500, Charlie 300,
      Dave 200, every counter at 0. */
  function InitialValidators(): (vs: seq<Validator>)
    ensures |vs| == 4 && TotalStake(vs) == 2000 && TotalValidated(vs) == 0
  {
    var vs := [Validator("Alice", 1000, 0), Validator("Bob", 500, 0), Validator("Charlie", 300, 0), Validator("Dave", 200, 0)];
    assert Cumulative(vs, 1) == 1000 && Cumulative(vs, 2) == 1500 && Cumulative(vs, 3) == 1800;
    assert vs[..1][..0] == [] && vs[..2][..1] == vs[..1] && vs[..3][..2] == vs[..2] && vs[..4][..3] == vs[..3];
    assert TotalValidated(vs[..1]) == 0;
    assert TotalValidated(vs[..2]) == 0;
    assert TotalValidated(vs[..3]) == 0;
    assert vs[..4] == vs;
    vs
  }

  /** k is what the scan returns for draw r: every earlier validator's
      cumulative stake is below r, and either k's reaches r or none does and
      k is the fallback 0. */
  predicate IsSelection(vs: seq<Validator>, r: int, k: nat) {
    && k < |vs|
    && (forall j :: 1 <= j <= k ==> Cumulative(vs, j) < r)
    && (r <= Cumulative(vs, k + 1) || (k == 0 && forall j :: 1 <= j <= |vs| ==> Cumulative(vs, j) < r))
  }

  /** selectValidator: the linear scan with the validators[0] fallback. The
      draw r is supplied by the caller. */
  method SelectValidator(vs: seq<Validator>, r: int) returns (k: nat)
    requires |vs| >= 1
    ensures IsSelection(vs, r, k)
  {
    var cumulativeStake := 0;
    var i := 0;
    while i < |vs|
      invariant 0 <= i <= |vs|
      invariant cumulativeStake == Cumulative(vs, i)
      invariant forall j :: 1 <= j <= i ==> Cumulative(vs, j) < r
    {
      cumulativeStake := cumulativeStake + vs[i].stake;
      if r <= cumulativeStake {
        return i;
      }
      i := i + 1;
    }
    return 0;
  }

  lemma {:induction false} CumulativeMonotone(vs: seq<Validator>, j: nat, k: nat)
    requires j <= k <= |vs|
    ensures Cumulative(vs, j) <= Cumulative(vs, k)
    decreases k
  {
    if j < k {
      CumulativeMonotone(vs, j, k - 1);
    }
  }

  /** The scan is deterministic: a draw has one selection. */
  lemma SelectionUnique(vs: seq<Validator>, r: int, k1: nat, k2: nat)
    requires IsSelection(vs, r, k1) && IsSelection(vs, r, k2)
    ensures k1 == k2
  {
  }

  /** The weighting: for a draw 0 < r <= total stake, validator k is selected
      exactly when r lies in (Cumulative(k), Cumulative(k+1)], an interval as
      wide as k's stake. */
  lemma SelectionIsStakeInterval(vs: seq<Validator>, r: int, k: nat)
    requires 0 < r <= TotalStake(vs) && k < |vs|
    ensures IsSelection(vs, r, k) <==> Cumulative(vs, k) < r <= Cumulative(vs, k + 1)
  {
    assert Cumulative(vs, |vs|) == TotalStake(vs);
    if Cumulative(vs, k) < r <= Cumulative(vs, k + 1) {
      forall j | 1 <= j <= k ensures Cumulative(vs, j) < r {
        CumulativeMonotone(vs, j, k);
      }
    }
  }

  /** For a draw in (0, total stake] a validator with no stake is never chosen. */
  lemma ZeroStakeNeverSelected(vs: seq<Validator>, r: int, k: nat)
    requires 0 < r <= TotalStake(vs) && IsSelection(vs, r, k)
    ensures vs[k].stake > 0
  {
    SelectionIsStakeInterval(vs, r, k);
  }

  /** A draw above the total stake falls back to the first validator. */
  lemma DrawAboveTotalFallsBack(vs: seq<Validator>, r: int)
    requires |vs| >= 1 && r > TotalStake(vs)
    ensures IsSelection(vs, r, 0)
  {
    forall j | 1 <= j <= |vs| ensures Cumulative(vs, j) < r {
      CumulativeMonotone(vs, j, |vs|);
    }
  }

  /** The registry keeps its names and stakes; only counters move. */
  predicate SameRegistry(vs: seq<Validator>, ws: seq<Validator>) {
    |vs| == |ws| && forall j :: 0 <= j < |vs| ==> vs[j].name == ws[j].name && vs[j].stake == ws[j].stake
  }

  /** `blocksValidated++` on the selected validator. */
  function Credit(vs: seq<Validator>, k: nat): (ws: seq<Validator>)
    requires k < |vs|
    ensures |ws| == |vs|
  {
    vs[k := vs[k].(blocksValidated := vs[k].blocksValidated + 1)]
  }

  lemma {:induction false} TotalValidatedUpdate(vs: seq<Validator>, k: nat, v: Validator)
    requires k < |vs|
    ensures TotalValidated(vs[k := v]) == TotalValidated(vs) - vs[k].blocksValidated + v.blocksValidated
    decreases |vs|
  {
    var ws := vs[k := v];
    assert ws[..|ws| - 1] == if k == |vs| - 1 then vs[..|vs| - 1] else vs[..|vs| - 1][k := v];
    if k < |vs| - 1 {
      TotalValidatedUpdate(vs[..|vs| - 1], k, v);
    }
  }

  /** Crediting one validator adds exactly one to the sum of counters and
      changes no name, no stake and no other counter. */
  lemma CreditAddsOne(vs: seq<Validator>, k: nat)
    requires k < |vs|
    ensures TotalValidated(Credit(vs, k)) == TotalValidated(vs) + 1
    ensures forall j :: 0 <= j < |vs| ==> Credit(vs, k)[j].name == vs[j].name && Credit(vs, k)[j].stake == vs[j].stake
    ensures forall j :: 0 <= j < |vs| && j != k ==> Credit(vs, k)[j] == vs[j]
    ensures Credit(vs, k)[k].blocksValidated == vs[k].blocksValidated + 1
  {
    TotalValidatedUpdate(vs, k, vs[k].(blocksValidated := vs[k].blocksValidated + 1));
  }

  /** Crediting leaves every cumulative stake as it was. */
  lemma {:induction false} CreditKeepsStakes(vs: seq<Validator>, k: nat, j: nat)
    requires k < |vs| && j <= |vs|
    ensures Cumulative(Credit(vs, k), j) == Cumulative(vs, j)
    decreases j
  {
    if j > 0 {
      CreditKeepsStakes(vs, k, j - 1);
    }
  }
}
