/** The unsigned operations picosha2.h applies to its 64-bit `word_t`, on
    natural numbers. Each operator is defined one bit at a time, and `Bit`
    reads bit i of a number; the lemmas give every operator's effect on a
    single bit, and relate shifts and masks to division and remainder. */
module WordOps {
  import opened Text

  /** Bit i of x. */
  function Bit(x: nat, i: nat): bool {
    if i == 0 then x % 2 == 1 else Bit(x / 2, i - 1)
  }

  /** `x & (2^w - 1)`: the low w bits of x. */
  function Low(x: nat, w: nat): nat {
    if w == 0 then 0 else 2 * Low(x / 2, w - 1) + x % 2
  }

  /** `x >> n`. */
  function Shr(x: nat, n: nat): nat {
    if n == 0 then x else Shr(x / 2, n - 1)
  }

  /** `x << n`, before any truncation to the word width. */
  function Shl(x: nat, n: nat): nat
    decreases n
  {
    if n == 0 then x else Shl(2 * x, n - 1)
  }

  /** `x & y`. */
  function And(x: nat, y: nat): nat
    decreases x
  {
    if x == 0 || y == 0 then 0 else 2 * And(x / 2, y / 2) + (if x % 2 == 1 && y % 2 == 1 then 1 else 0)
  }

  /** `x | y`. */
  function Or(x: nat, y: nat): nat
    decreases x + y
  {
    if x == 0 then y else if y == 0 then x else 2 * Or(x / 2, y / 2) + (if x % 2 == 1 || y % 2 == 1 then 1 else 0)
  }

  /** `x ^ y`. */
  function Xor(x: nat, y: nat): nat
    decreases x + y
  {
    if x == 0 then y else if y == 0 then x else 2 * Xor(x / 2, y / 2) + (if (x % 2 == 1) != (y % 2 == 1) then 1 else 0)
  }

  /** `~x` on a w-bit word. */
  function Not(x: nat, w: nat): nat {
    if w == 0 then 0 else 2 * Not(x / 2, w - 1) + (1 - x % 2)
  }

  lemma {:induction false} ZeroBit(i: nat)
    ensures !Bit(0, i)
  {
    if i > 0 {
      ZeroBit(i - 1);
    }
  }

  lemma {:induction false} LowBit(x: nat, w: nat, i: nat)
    ensures Bit(Low(x, w), i) == (i < w && Bit(x, i))
  {
    if w == 0 {
      ZeroBit(i);
    } else if i > 0 {
      LowBit(x / 2, w - 1, i - 1);
    }
  }

  lemma {:induction false} ShrBit(x: nat, n: nat, i: nat)
    ensures Bit(Shr(x, n), i) == Bit(x, i + n)
  {
    if n > 0 {
      ShrBit(x / 2, n - 1, i);
      ShiftedBitIndex(x, i + n - 1);
    }
  }

  /** Bit i + 1 of x is bit i of x / 2. */
  lemma ShiftedBitIndex(x: nat, i: nat)
    ensures Bit(x, i + 1) == Bit(x / 2, i)
  {
  }

  lemma {:induction false} ShlBit(x: nat, n: nat, i: nat)
    ensures Bit(Shl(x, n), i) == (i >= n && Bit(x, i - n))
    decreases n
  {
    if n > 0 {
      ShlBit(2 * x, n - 1, i);
      if i >= n {
        assert Bit(2 * x, i - n + 1) == Bit(x, i - n) by {
          ShiftedBitIndex(2 * x, i - n);
        }
      }
    }
  }

  lemma {:induction false} AndBit(x: nat, y: nat, i: nat)
    ensures Bit(And(x, y), i) == (Bit(x, i) && Bit(y, i))
    decreases x
  {
    if x == 0 || y == 0 {
      ZeroBit(i);
    } else if i > 0 {
      AndBit(x / 2, y / 2, i - 1);
    }
  }

  lemma {:induction false} OrBit(x: nat, y: nat, i: nat)
    ensures Bit(Or(x, y), i) == (Bit(x, i) || Bit(y, i))
    decreases x + y
  {
    if x == 0 || y == 0 {
      ZeroBit(i);
    } else if i > 0 {
      OrBit(x / 2, y / 2, i - 1);
    }
  }

  lemma {:induction false} XorBit(x: nat, y: nat, i: nat)
    ensures Bit(Xor(x, y), i) == (Bit(x, i) != Bit(y, i))
    decreases x + y
  {
    if x == 0 || y == 0 {
      ZeroBit(i);
    } else if i > 0 {
      XorBit(x / 2, y / 2, i - 1);
    }
  }

  lemma {:induction false} NotBit(x: nat, w: nat, i: nat)
    ensures Bit(Not(x, w), i) == (i < w && !Bit(x, i))
  {
    if w == 0 {
      ZeroBit(i);
    } else if i > 0 {
      NotBit(x / 2, w - 1, i - 1);
    }
  }

  /** Numbers with the same bits are equal. */
  lemma {:induction false} BitsDetermine(x: nat, y: nat)
    requires forall i: nat :: Bit(x, i) == Bit(y, i)
    ensures x == y
    decreases x + y
  {
    if x != 0 || y != 0 {
      assert Bit(x, 0) == Bit(y, 0);
      forall i: nat ensures Bit(x / 2, i) == Bit(y / 2, i) {
        assert Bit(x, i + 1) == Bit(y, i + 1);
      }
      if x / 2 < x || y / 2 < y {
        BitsDetermine(x / 2, y / 2);
      }
    }
  }

  /** The low w bits are less than 2^w. */
  lemma {:induction false} LowBound(x: nat, w: nat)
    ensures Low(x, w) < Pow2(w)
  {
    if w > 0 {
      LowBound(x / 2, w - 1);
    }
  }

  /** No bit at or above w is set in a number below 2^w. */
  lemma {:induction false} HighBitsClear(x: nat, w: nat, i: nat)
    requires x < Pow2(w) && i >= w
    ensures !Bit(x, i)
  {
    if w == 0 {
      ZeroBit(i);
    } else {
      HighBitsClear(x / 2, w - 1, i - 1);
    }
  }

  /** A number without any bit at or above w is below 2^w. */
  lemma NoHighBits(x: nat, w: nat)
    requires forall i: nat :: i >= w ==> !Bit(x, i)
    ensures x < Pow2(w)
  {
    forall i: nat ensures Bit(Low(x, w), i) == Bit(x, i) {
      LowBit(x, w, i);
    }
    BitsDetermine(Low(x, w), x);
    LowBound(x, w);
  }

  /** x % m and x / m are the remainder and quotient of any such split. */
  lemma DivModUnique(x: nat, m: nat, q: nat, r: nat)
    requires m > 0 && r < m && x == m * q + r
    ensures x / m == q && x % m == r
  {
    var q', r' := x / m, x % m;
    assert x == m * q' + r';
    if q' > q {
      MulAtLeast(m, q' - q);
    } else if q' < q {
      MulAtLeast(m, q - q');
    }
  }

  lemma MulAtLeast(m: nat, d: nat)
    requires d >= 1
    ensures m * d >= m
  {
  }

  /** Dividing by 2p is halving and then dividing by p. */
  lemma HalveThenDivide(x: nat, p: nat)
    requires p > 0
    ensures x / (2 * p) == (x / 2) / p && x % (2 * p) == 2 * ((x / 2) % p) + x % 2
  {
    var q, b := (x / 2) / p, (x / 2) % p;
    assert x / 2 == p * q + b;
    assert x == (2 * p) * q + (2 * b + x % 2);
    DivModUnique(x, 2 * p, q, 2 * b + x % 2);
  }

  /** Masking to w bits is the remainder modulo 2^w. */
  lemma {:induction false} LowIsMod(x: nat, w: nat)
    ensures Low(x, w) == x % Pow2(w)
  {
    if w > 0 {
      LowIsMod(x / 2, w - 1);
      HalveThenDivide(x, Pow2(w - 1));
    }
  }

  /** Shifting right by n is division by 2^n. */
  lemma {:induction false} ShrIsDiv(x: nat, n: nat)
    ensures Shr(x, n) == x / Pow2(n)
  {
    if n > 0 {
      ShrIsDiv(x / 2, n - 1);
      HalveThenDivide(x, Pow2(n - 1));
    }
  }

  /** Shifting left by n is multiplication by 2^n. */
  lemma {:induction false} ShlIsMul(x: nat, n: nat)
    ensures Shl(x, n) == x * Pow2(n)
    decreases n
  {
    if n > 0 {
      ShlIsMul(2 * x, n - 1);
    }
  }

  lemma {:induction false} Pow2Shift(a: nat, b: nat)
    ensures Pow2(a + b) == Pow2(a) * Pow2(b)
    decreases b
  {
    if b > 0 {
      Pow2Shift(a, b - 1);
    }
  }

  /** A number below 2^w is its own low w bits. */
  lemma LowOfSmall(x: nat, w: nat)
    requires x < Pow2(w)
    ensures Low(x, w) == x
  {
    LowIsMod(x, w);
  }

  /** The bitwise operators on numbers below 2^w stay below 2^w. */
  lemma AndBound(x: nat, y: nat, w: nat)
    requires y < Pow2(w)
    ensures And(x, y) < Pow2(w)
  {
    forall i: nat | i >= w ensures !Bit(And(x, y), i) {
      AndBit(x, y, i);
      HighBitsClear(y, w, i);
    }
    NoHighBits(And(x, y), w);
  }

  lemma OrBound(x: nat, y: nat, w: nat)
    requires x < Pow2(w) && y < Pow2(w)
    ensures Or(x, y) < Pow2(w)
  {
    forall i: nat | i >= w ensures !Bit(Or(x, y), i) {
      OrBit(x, y, i);
      HighBitsClear(x, w, i);
      HighBitsClear(y, w, i);
    }
    NoHighBits(Or(x, y), w);
  }

  lemma XorBound(x: nat, y: nat, w: nat)
    requires x < Pow2(w) && y < Pow2(w)
    ensures Xor(x, y) < Pow2(w)
  {
    forall i: nat | i >= w ensures !Bit(Xor(x, y), i) {
      XorBit(x, y, i);
      HighBitsClear(x, w, i);
      HighBitsClear(y, w, i);
    }
    NoHighBits(Xor(x, y), w);
  }

  lemma ShrBound(x: nat, n: nat, w: nat)
    requires x < Pow2(w)
    ensures Shr(x, n) < Pow2(w)
  {
    ShrIsDiv(x, n);
  }
}
