/** The one-dimensional cellular automaton of Atelier2/EX1.cpp: a ring of
    boolean cells, each next cell the bit of the rule number selected by its
    left neighbour, itself and its right neighbour. */
module Automaton {
  import WordOps

  function BitValue(b: bool): bv32 {
    if b then 1 else 0
  }

  /** apply_rule: index = (left << 2) | (center << 1) | right, and the result
      is bit `index` of the rule. */
  function ApplyRule(rule: bv32, left: bool, center: bool, right: bool): bool {
    var index := (BitValue(left) << 2) | (BitValue(center) << 1) | BitValue(right);
    (rule >> index) & 1 == 1
  }

  /** Bit k of the rule, read with a mask. */
  function Bit(rule: bv32, k: nat): bool
    requires k < 32
  {
    rule & (1 << k) != 0
  }

  function Neighbourhood(left: bool, center: bool, right: bool): (k: nat)
    ensures k < 8
  {
    (if left then 4 else 0) + (if center then 2 else 0) + (if right then 1 else 0)
  }

  /** apply_rule(l, c, r) is bit number 4l + 2c + r of the rule. */
  lemma ApplyRuleIsBit(rule: bv32, left: bool, center: bool, right: bool)
    ensures ApplyRule(rule, left, center, right) == Bit(rule, Neighbourhood(left, center, right))
  {
    var k := Neighbourhood(left, center, right);
    assert (BitValue(left) << 2) | (BitValue(center) << 1) | BitValue(right) == k as bv32;
    if k == 0 {
    } else if k == 1 {
    } else if k == 2 {
    } else if k == 3 {
    } else if k == 4 {
    } else if k == 5 {
    } else if k == 6 {
    } else {
    }
  }

  /** Under the default rule 30 a cell becomes left XOR (center OR right). */
  lemma Rule30IsXorOr(left: bool, center: bool, right: bool)
    ensures ApplyRule(30, left, center, right) == (left != (center || right))
  {
  }

  /** The left and right neighbours of cell i on a ring of n cells. */
  function Prev(i: nat, n: nat): nat
    requires i < n
  {
    if i == 0 then n - 1 else i - 1
  }

  function Next(i: nat, n: nat): nat
    requires i < n
  {
    if i + 1 == n then 0 else i + 1
  }

  /** The source's index arithmetic, (i - 1 + n) % n and (i + 1) % n, names
      exactly those neighbours. */
  lemma CyclicNeighbours(i: nat, n: nat)
    requires i < n
    ensures (i - 1 + n) % n == Prev(i, n) && (i + 1) % n == Next(i, n)
  {
    if i == 0 {
      WrapMod(n - 1, n, 0);
    } else {
      WrapMod(i - 1 + n, n, 1);
    }
    if i + 1 == n {
      WrapMod(i + 1, n, 1);
    } else {
      WrapMod(i + 1, n, 0);
    }
  }

  /** A number between q n and (q + 1) n leaves q n - x as its remainder. */
  lemma WrapMod(x: nat, n: nat, q: nat)
    requires n > 0 && q * n <= x < q * n + n
    ensures x % n == x - q * n
  {
    WordOps.DivModUnique(x, n, q, x - q * n);
  }

  /** One generation on a ring: cell i is computed from the old cells to its
      left, itself and to its right, the ends wrapping round. */
  function NextState(rule: bv32, s: seq<bool>): (r: seq<bool>)
  {
    seq(|s|, i requires 0 <= i < |s| => ApplyRule(rule, s[Prev(i, |s|)], s[i], s[Next(i, |s|)]))
  }

  /** g generations. */
  function Iterate(rule: bv32, s: seq<bool>, g: nat): (r: seq<bool>)
    ensures |r| == |s|
    decreases g
  {
    if g == 0 then s else Iterate(rule, NextState(rule, s), g - 1)
  }

  /** evolve keeps the number of cells, and an empty ring stays empty. */
  lemma NextStateLength(rule: bv32, s: seq<bool>)
    ensures |NextState(rule, s)| == |s|
    ensures s == [] ==> NextState(rule, s) == s
  {
  }

  /** a generations then b generations are a + b generations. */
  lemma {:induction false} IterateAdd(rule: bv32, s: seq<bool>, a: nat, b: nat)
    ensures Iterate(rule, Iterate(rule, s, a), b) == Iterate(rule, s, a + b)
    decreases a
  {
    if a > 0 {
      IterateAdd(rule, NextState(rule, s), a - 1, b);
    }
  }

  /** The ring is homogeneous: rotating the cells by one and then evolving is
      evolving and then rotating. */
  function RotateLeft(s: seq<bool>): seq<bool> {
    if s == [] then s else s[1..] + [s[0]]
  }

  lemma NextStateCommutesWithRotation(rule: bv32, s: seq<bool>)
    ensures NextState(rule, RotateLeft(s)) == RotateLeft(NextState(rule, s))
  {
    if s != [] {
      var n := |s|;
      var t := RotateLeft(s);
      var u := NextState(rule, s);
      forall i | 0 <= i < n
        ensures NextState(rule, t)[i] == RotateLeft(u)[i]
      {
        RotatedCell(rule, s, i);
      }
    }
  }

  /** Cell i of the rotated ring evolves like cell i + 1 of the original. */
  lemma RotatedCell(rule: bv32, s: seq<bool>, i: nat)
    requires i < |s|
    ensures |NextState(rule, RotateLeft(s))| == |s|
    ensures NextState(rule, RotateLeft(s))[i] == NextState(rule, s)[Next(i, |s|)]
  {
    var n := |s|;
    var t := RotateLeft(s);
    assert |t| == n;
    assert t[i] == s[Next(i, n)];
    assert t[Prev(i, n)] == s[i];
    assert t[Next(i, n)] == s[Next(Next(i, n), n)];
    assert Prev(Next(i, n), n) == i;
  }

  /** A rule whose bit 0 is clear maps the all-dead ring to itself. */
  lemma DeadRingIsStable(rule: bv32, n: nat)
    requires rule & 1 == 0
    ensures NextState(rule, seq(n, i => false)) == seq(n, i => false)
  {
  }

  class CellularAutomaton1D {
    var state: seq<bool>
    var currentRule: bv32

    /** The rule defaults to 30; the ring starts empty. */
    constructor (rule: bv32 := 30)
      ensures currentRule == rule && state == []
    {
      currentRule := rule;
      state := [];
    }

    /** init_state replaces the whole ring. */
    method InitState(initialState: seq<bool>)
      modifies this
      ensures state == initialState && currentRule == old(currentRule)
    {
      state := initialState;
    }

    /** One generation: every new cell is computed from the old ring into a
        fresh buffer, which then replaces the ring; an empty ring is left as is. */
    method Evolve()
      modifies this
      ensures state == NextState(currentRule, old(state)) && currentRule == old(currentRule)
    {
      if |state| == 0 {
        return;
      }
      var n := |state|;
      var newState := new bool[n];
      var i := 0;
      while i < n
        invariant 0 <= i <= n
        invariant state == old(state) && currentRule == old(currentRule)
        invariant forall k :: 0 <= k < i ==> newState[k] == NextState(currentRule, state)[k]
      {
        CyclicNeighbours(i, n);
        var left := state[(i - 1 + n) % n];
        var center := state[i];
        var right := state[(i + 1) % n];
        newState[i] := ApplyRule(currentRule, left, center, right);
        i := i + 1;
      }
      state := newState[..];
    }

    /** `generations` calls of evolve; none when it is zero or negative. */
    method EvolveGenerations(generations: int)
      modifies this
      ensures state == Iterate(currentRule, old(state), if generations < 0 then 0 else generations)
      ensures currentRule == old(currentRule)
    {
      ghost var g: nat := if generations < 0 then 0 else generations;
      var i := 0;
      while i < generations
        invariant 0 <= i <= g
        invariant currentRule == old(currentRule)
        invariant state == Iterate(currentRule, old(state), i)
      {
        Evolve();
        IterateAdd(currentRule, old(state), i, 1);
        i := i + 1;
      }
    }

    function GetState(): (s: seq<bool>)
      reads this
      ensures |s| == |state|
    {
      state
    }
  }
}
