/**
 * Unsigned machine words as natural numbers, with the bitwise operators the
 * engine uses (`&`, `|`, `^`, `~` at a fixed width, `1 << k`) and the population
 * count of `__builtin_popcountll`. Bit `k` of a word is read the way
 * `(x >> k) & 1` reads it.
 */
module Bits {

  /** The largest `uint64_t` value plus one. */
  const WORD: nat := 0x1_0000_0000_0000_0000

  /** A value of C type `uint64_t`. */
  type uint64 = x: nat | x < WORD

  /** `1 << k` for an unbounded word. */
  function Pow2(k: nat): (r: nat)
    ensures r >= 1
  {
    if k == 0 then 1 else 2 * Pow2(k - 1)
  }

  /** `(x >> k) & 1 == 1`. */
  predicate Bit(x: nat, k: nat) {
    if k == 0 then x % 2 == 1 else Bit(x / 2, k - 1)
  }

  /** `a & b`. */
  function And(a: nat, b: nat): (r: nat)
    ensures r <= a && r <= b
  {
    if a == 0 || b == 0 then 0
    else 2 * And(a / 2, b / 2) + (if a % 2 == 1 && b % 2 == 1 then 1 else 0)
  }

  /** `a | b`. */
  function Or(a: nat, b: nat): nat
    decreases a + b
  {
    if a == 0 then b
    else if b == 0 then a
    else 2 * Or(a / 2, b / 2) + (if a % 2 == 1 || b % 2 == 1 then 1 else 0)
  }

  /** `a ^ b`. */
  function Xor(a: nat, b: nat): nat
    decreases a + b
  {
    if a == 0 then b
    else if b == 0 then a
    else 2 * Xor(a / 2, b / 2) + (if a % 2 != b % 2 then 1 else 0)
  }

  /** `~x` computed in an unsigned type that is `w` bits wide. */
  function Complement(w: nat, x: nat): nat
    requires x < Pow2(w)
  {
    Pow2(w) - 1 - x
  }

  /** `(1 << n) - 1`: the word whose bits 0 .. n-1 are set. */
  function LowMask(n: nat): nat {
    Pow2(n) - 1
  }

  /** `__builtin_popcountll(x)`: the number of set bits. */
  function Popcount(x: nat): nat {
    if x == 0 then 0 else x % 2 + Popcount(x / 2)
  }

  lemma {:induction false} Pow2Add(a: nat, b: nat)
    ensures Pow2(a + b) == Pow2(a) * Pow2(b)
  {
    if a > 0 {
      Pow2Add(a - 1, b);
    }
  }

  lemma Pow2Word()
    ensures Pow2(64) == WORD
  {
    assert Pow2(8) == 256;
    Pow2Add(8, 8);
    Pow2Add(16, 16);
    Pow2Add(32, 32);
  }

  lemma {:induction false} Pow2Monotone(i: nat, j: nat)
    requires i <= j
    ensures Pow2(i) <= Pow2(j)
    ensures i < j ==> Pow2(i) < Pow2(j)
    decreases j
  {
    if i < j {
      Pow2Monotone(i, j - 1);
    }
  }

  lemma {:induction false} BitZero(k: nat)
    ensures !Bit(0, k)
  {
    if k > 0 {
      BitZero(k - 1);
    }
  }

  lemma {:induction false} BitAnd(a: nat, b: nat, k: nat)
    ensures Bit(And(a, b), k) == (Bit(a, k) && Bit(b, k))
  {
    if a == 0 || b == 0 {
      BitZero(k);
    } else if k > 0 {
      BitAnd(a / 2, b / 2, k - 1);
    }
  }

  lemma {:induction false} BitOr(a: nat, b: nat, k: nat)
    ensures Bit(Or(a, b), k) == (Bit(a, k) || Bit(b, k))
    decreases a + b
  {
    if a == 0 || b == 0 {
      BitZero(k);
    } else if k > 0 {
      BitOr(a / 2, b / 2, k - 1);
    }
  }

  lemma {:induction false} BitXor(a: nat, b: nat, k: nat)
    ensures Bit(Xor(a, b), k) == (Bit(a, k) != Bit(b, k))
    decreases a + b
  {
    if a == 0 || b == 0 {
      BitZero(k);
    } else if k > 0 {
      BitXor(a / 2, b / 2, k - 1);
    }
  }

  lemma {:induction false} BitComplement(w: nat, x: nat, k: nat)
    requires x < Pow2(w)
    ensures Bit(Complement(w, x), k) == (k < w && !Bit(x, k))
  {
    if w == 0 {
      BitZero(k);
    } else if k > 0 {
      BitComplement(w - 1, x / 2, k - 1);
      assert Complement(w, x) / 2 == Complement(w - 1, x / 2);
    }
  }

  lemma {:induction false} BitPow2(j: nat, k: nat)
    ensures Bit(Pow2(j), k) == (j == k)
  {
    if k > 0 {
      if j == 0 {
        BitZero(k - 1);
      } else {
        BitPow2(j - 1, k - 1);
      }
    }
  }

  lemma {:induction false} BitBound(x: nat, k: nat)
    requires Bit(x, k)
    ensures Pow2(k) <= x
  {
    if k > 0 {
      BitBound(x / 2, k - 1);
    }
  }

  /** A word below `2^n` has no bit at position `n` or above. */
  lemma BitAbove(x: nat, n: nat, k: nat)
    requires x < Pow2(n) && n <= k
    ensures !Bit(x, k)
  {
    Pow2Monotone(n, k);
    if Bit(x, k) {
      BitBound(x, k);
    }
  }

  lemma {:induction false} BitLowMask(n: nat, k: nat)
    ensures Bit(LowMask(n), k) == (k < n)
  {
    if n == 0 {
      BitZero(k);
    } else if k > 0 {
      BitLowMask(n - 1, k - 1);
      assert LowMask(n) / 2 == LowMask(n - 1);
    }
  }

  /** Two words with the same bits are equal. */
  lemma {:induction false} BitsEqual(a: nat, b: nat)
    requires forall k: nat :: Bit(a, k) == Bit(b, k)
    ensures a == b
    decreases a + b
  {
    if a != 0 || b != 0 {
      assert Bit(a, 0) == Bit(b, 0);
      forall k: nat
        ensures Bit(a / 2, k) == Bit(b / 2, k)
      {
        assert Bit(a, k + 1) == Bit(b, k + 1);
      }
      BitsEqual(a / 2, b / 2);
    }
  }

  /** A word with no set bit is zero. */
  lemma NoBitsZero(x: nat)
    requires forall k: nat :: !Bit(x, k)
    ensures x == 0
  {
    forall k: nat
      ensures Bit(x, k) == Bit(0, k)
    {
      BitZero(k);
    }
    BitsEqual(x, 0);
  }

  /** Two words below `2^n` that agree on bits 0 .. n-1 are equal. */
  lemma BitsBelowEqual(a: nat, b: nat, n: nat)
    requires a < Pow2(n) && b < Pow2(n)
    requires forall k: nat :: k < n ==> Bit(a, k) == Bit(b, k)
    ensures a == b
  {
    forall k: nat
      ensures Bit(a, k) == Bit(b, k)
    {
      if k >= n {
        BitAbove(a, n, k);
        BitAbove(b, n, k);
      }
    }
    BitsEqual(a, b);
  }

  lemma {:induction false} OrBound(a: nat, b: nat, w: nat)
    requires a < Pow2(w) && b < Pow2(w)
    ensures Or(a, b) < Pow2(w)
    decreases w
  {
    if w > 0 && a != 0 && b != 0 {
      OrBound(a / 2, b / 2, w - 1);
    }
  }

  lemma {:induction false} XorBound(a: nat, b: nat, w: nat)
    requires a < Pow2(w) && b < Pow2(w)
    ensures Xor(a, b) < Pow2(w)
    decreases w
  {
    if w > 0 && a != 0 && b != 0 {
      XorBound(a / 2, b / 2, w - 1);
    }
  }

  /** Clearing a set bit `j` (subtracting `2^j`) keeps every other bit. */
  lemma {:induction false} ClearBit(x: nat, j: nat, k: nat)
    requires Bit(x, j)
    ensures Pow2(j) <= x
    ensures Bit(x - Pow2(j), k) == (Bit(x, k) && k != j)
  {
    BitBound(x, j);
    if j == 0 {
      if k > 0 {
        assert (x - 1) / 2 == x / 2;
      }
    } else {
      BitBound(x / 2, j - 1);
      assert (x - Pow2(j)) / 2 == x / 2 - Pow2(j - 1);
      if k > 0 {
        ClearBit(x / 2, j - 1, k - 1);
      }
    }
  }

  /** Clearing a set bit lowers the population count by one. */
  lemma {:induction false} ClearBitCount(x: nat, j: nat)
    requires Bit(x, j)
    ensures Pow2(j) <= x
    ensures Popcount(x - Pow2(j)) + 1 == Popcount(x)
  {
    BitBound(x, j);
    var y := x - Pow2(j);
    if j > 0 {
      var q := Pow2(j - 1);
      BitBound(x / 2, j - 1);
      ClearBitCount(x / 2, j - 1);
      assert y == 2 * (x / 2 - q) + x % 2;
      assert y / 2 == x / 2 - q && y % 2 == x % 2;
    } else {
      assert y / 2 == x / 2 && y % 2 == 0;
    }
  }

  /** A word below `2^n` has at most `n` set bits. */
  lemma {:induction false} PopcountBound(x: nat, n: nat)
    requires x < Pow2(n)
    ensures Popcount(x) <= n
  {
    if n > 0 && x > 0 {
      PopcountBound(x / 2, n - 1);
    }
  }

  lemma {:induction false} PopcountZero(x: nat)
    requires Popcount(x) == 0
    ensures x == 0
  {
    if x != 0 {
      PopcountZero(x / 2);
    }
  }

  /** A word with exactly one set bit is a power of two. */
  lemma {:induction false} PopcountOne(x: nat) returns (j: nat)
    requires Popcount(x) == 1
    ensures x == Pow2(j)
  {
    if x % 2 == 1 {
      PopcountZero(x / 2);
      j := 0;
    } else {
      var i := PopcountOne(x / 2);
      j := i + 1;
    }
  }

  lemma {:induction false} PopcountPow2(j: nat)
    ensures Popcount(Pow2(j)) == 1
  {
    if j > 0 {
      PopcountPow2(j - 1);
    }
  }

  /** `(1 << n) - 1` has `n` set bits. */
  lemma {:induction false} PopcountLowMask(n: nat)
    ensures Popcount(LowMask(n)) == n
  {
    if n > 0 {
      PopcountLowMask(n - 1);
      assert LowMask(n) == 2 * LowMask(n - 1) + 1;
    }
  }

  lemma {:induction false} XorSelf(x: nat)
    ensures Xor(x, x) == 0
  {
    if x > 0 {
      XorSelf(x / 2);
    }
  }
}
