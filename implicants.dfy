/**
 * `struct boolean_implicant`: a product term over the variables, written as the
 * bits of `value` that matter, selected by `mask`. Bit `k` stands for the same
 * variable as bit `k` of a minterm. Two implicants that differ in exactly one
 * selected bit combine into one that no longer looks at that bit.
 */
module Implicants {
  import opened Bits

  datatype Implicant = Implicant(value: uint64, mask: uint64)

  /** `((value ^ minterm) & mask) == 0`: the minterm agrees with the implicant on
    * every selected bit. */
  predicate Covers(p: Implicant, m: nat) {
    And(Xor(p.value, m), p.mask) == 0
  }

  /** Bit `k` of `m` is not selected, or agrees with the implicant. */
  predicate Agrees(p: Implicant, m: nat, k: nat) {
    Bit(p.mask, k) ==> Bit(p.value, k) == Bit(m, k)
  }

  lemma CoversBits(p: Implicant, m: nat)
    ensures Covers(p, m) <==> forall k: nat :: Agrees(p, m, k)
  {
    var d := And(Xor(p.value, m), p.mask);
    forall k: nat
      ensures Bit(d, k) == !Agrees(p, m, k)
    {
      BitAnd(Xor(p.value, m), p.mask, k);
      BitXor(p.value, m, k);
    }
    if d == 0 {
      forall k: nat
        ensures Agrees(p, m, k)
      {
        BitZero(k);
      }
    }
    if forall k: nat :: Agrees(p, m, k) {
      NoBitsZero(d);
    }
  }

  /** The selected bits in which the values differ. */
  function Difference(a: Implicant, b: Implicant): nat {
    And(Xor(a.value, b.value), a.mask)
  }

  lemma DifferenceBits(a: Implicant, b: Implicant, k: nat)
    ensures Bit(Difference(a, b), k) == (Bit(a.mask, k) && Bit(a.value, k) != Bit(b.value, k))
  {
    BitAnd(Xor(a.value, b.value), a.mask, k);
    BitXor(a.value, b.value, k);
  }

  /** `boolean_implicant_combinable`: equal masks, and one differing selected bit. */
  predicate Combinable(a: Implicant, b: Implicant) {
    a.mask == b.mask && Popcount(Difference(a, b)) == 1
  }

  /** Bit `j` is selected, the values differ there, and agree on every other selected bit. */
  ghost predicate DifferOnlyAt(a: Implicant, b: Implicant, j: nat) {
    && a.mask == b.mask
    && Bit(a.mask, j) && Bit(a.value, j) != Bit(b.value, j)
    && forall k: nat :: k != j && Bit(a.mask, k) ==> Bit(a.value, k) == Bit(b.value, k)
  }

  /** When the values differ in selected bit `j` only, the difference is `1 << j`. */
  lemma DifferenceAt(a: Implicant, b: Implicant, j: nat)
    requires DifferOnlyAt(a, b, j)
    ensures Difference(a, b) == Pow2(j)
  {
    forall k: nat
      ensures Bit(Difference(a, b), k) == Bit(Pow2(j), k)
    {
      DifferenceBits(a, b, k);
      BitPow2(j, k);
    }
    BitsEqual(Difference(a, b), Pow2(j));
  }

  /** Two implicants combine exactly when their masks are equal and their values
    * differ in one selected bit. */
  lemma CombinableIff(a: Implicant, b: Implicant)
    ensures Combinable(a, b) <==> exists j: nat :: DifferOnlyAt(a, b, j)
  {
    if Combinable(a, b) {
      var j := PopcountOne(Difference(a, b));
      forall k: nat
        ensures Bit(Difference(a, b), k) == (j == k)
      {
        BitPow2(j, k);
      }
      DifferenceBits(a, b, j);
      forall k: nat | k != j && Bit(a.mask, k)
        ensures Bit(a.value, k) == Bit(b.value, k)
      {
        DifferenceBits(a, b, k);
      }
      assert DifferOnlyAt(a, b, j);
    }
    if exists j: nat :: DifferOnlyAt(a, b, j) {
      var j: nat :| DifferOnlyAt(a, b, j);
      DifferenceAt(a, b, j);
      PopcountPow2(j);
    }
  }

  /** The bit in which two combinable implicants differ. */
  lemma DifferingBit(a: Implicant, b: Implicant) returns (j: nat)
    requires Combinable(a, b)
    ensures DifferOnlyAt(a, b, j)
  {
    CombinableIff(a, b);
    j :| DifferOnlyAt(a, b, j);
  }

  lemma CombinableSymmetric(a: Implicant, b: Implicant)
    ensures Combinable(a, b) == Combinable(b, a)
  {
    if a.mask == b.mask {
      forall k: nat
        ensures Bit(Difference(a, b), k) == Bit(Difference(b, a), k)
      {
        DifferenceBits(a, b, k);
        DifferenceBits(b, a, k);
      }
      BitsEqual(Difference(a, b), Difference(b, a));
    }
  }

  /** `boolean_implicant_combine`: the value of `a`, and its mask without the bits in
    * which the values differ, `mask & ~(value_1 ^ value_2)` on 64 bits. */
  function Combine(a: Implicant, b: Implicant): (r: Implicant)
    requires Combinable(a, b)
  {
    Pow2Word();
    XorBound(a.value, b.value, 64);
    Implicant(a.value, And(a.mask, Complement(64, Xor(a.value, b.value))))
  }

  /** Combining drops exactly the differing bit from the mask. */
  lemma CombineMask(a: Implicant, b: Implicant, j: nat)
    requires Combinable(a, b) && DifferOnlyAt(a, b, j)
    ensures Combine(a, b).value == a.value
    ensures forall k: nat :: Bit(Combine(a, b).mask, k) == (Bit(a.mask, k) && k != j)
    ensures Combine(a, b).mask + Pow2(j) == a.mask
    ensures Popcount(Combine(a, b).mask) + 1 == Popcount(a.mask)
  {
    Pow2Word();
    XorBound(a.value, b.value, 64);
    var x := Xor(a.value, b.value);
    var m := Combine(a, b).mask;
    ClearBitCount(a.mask, j);
    forall k: nat
      ensures Bit(m, k) == (Bit(a.mask, k) && k != j)
      ensures Bit(m, k) == Bit(a.mask - Pow2(j), k)
    {
      BitAnd(a.mask, Complement(64, x), k);
      BitComplement(64, x, k);
      BitXor(a.value, b.value, k);
      if k >= 64 {
        BitAbove(a.mask, 64, k);
      }
      ClearBit(a.mask, j, k);
    }
    BitsEqual(m, a.mask - Pow2(j));
  }

  /** The combined implicant covers exactly what either of the two covers. */
  lemma CombineCovers(a: Implicant, b: Implicant, m: nat)
    requires Combinable(a, b)
    ensures Covers(Combine(a, b), m) <==> Covers(a, m) || Covers(b, m)
  {
    var j := DifferingBit(a, b);
    CombineMask(a, b, j);
    var c := Combine(a, b);
    CoversBits(a, m);
    CoversBits(b, m);
    CoversBits(c, m);
    if Covers(c, m) {
      if Bit(a.value, j) == Bit(m, j) {
        forall k: nat
          ensures Agrees(a, m, k)
        {
          assert Agrees(c, m, k);
        }
      } else {
        forall k: nat
          ensures Agrees(b, m, k)
        {
          assert Agrees(c, m, k);
        }
      }
    }
    if Covers(a, m) {
      forall k: nat
        ensures Agrees(c, m, k)
      {
        assert Agrees(a, m, k);
      }
    }
    if Covers(b, m) {
      forall k: nat
        ensures Agrees(c, m, k)
      {
        assert Agrees(b, m, k);
      }
    }
  }

  /** The table group an implicant belongs to: `popcount(value & mask)`. */
  function Group(p: Implicant): nat {
    Popcount(And(p.value, p.mask))
  }

  /** Two implicants that combine lie in neighbouring groups, the one with the set
    * differing bit one group higher. */
  lemma CombinableGroups(a: Implicant, b: Implicant) returns (j: nat)
    requires Combinable(a, b)
    ensures DifferOnlyAt(a, b, j)
    ensures !Bit(a.value, j) ==> Group(b) == Group(a) + 1
    ensures Bit(a.value, j) ==> Group(a) == Group(b) + 1
  {
    j := DifferingBit(a, b);
    var x := And(a.value, a.mask);
    var y := And(b.value, b.mask);
    if Bit(a.value, j) {
      BitAnd(a.value, a.mask, j);
      ClearBitCount(x, j);
      forall k: nat
        ensures Bit(x - Pow2(j), k) == Bit(y, k)
      {
        ClearBit(x, j, k);
        BitAnd(a.value, a.mask, k);
        BitAnd(b.value, b.mask, k);
      }
      BitsEqual(x - Pow2(j), y);
    } else {
      BitAnd(b.value, b.mask, j);
      ClearBitCount(y, j);
      forall k: nat
        ensures Bit(y - Pow2(j), k) == Bit(x, k)
      {
        ClearBit(y, j, k);
        BitAnd(a.value, a.mask, k);
        BitAnd(b.value, b.mask, k);
      }
      BitsEqual(y - Pow2(j), x);
    }
  }

  /** `struct boolean_implicants`: a growable list; its capacity is not behaviour. */
  class ImplicantList {
    var data: seq<Implicant>

    /** `boolean_implicants_new`. */
    constructor ()
      ensures data == []
    {
      data := [];
    }

    /** `boolean_implicants_add`: appends one implicant. */
    method Add(p: Implicant)
      modifies this
      ensures data == old(data) + [p]
    {
      data := data + [p];
    }
  }
}
