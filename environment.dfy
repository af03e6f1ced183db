/**
 * `struct boolean_environment`: one 64-bit word whose bit `Index(name)` is the
 * value of variable `name`. The C functions take the environment by pointer and
 * update that word; the word is a plain value, so here an update returns the new
 * environment.
 */
module Environments {
  import opened Bits
  import opened Text

  /** A variable name: an ASCII letter. */
  type Letter = c: char | IsAlpha(c) witness 'a'

  /** `VARIABLE_NAME_TO_INDEX`: 'a'..'z' are 0..25, 'A'..'Z' are 26..51. */
  function Index(name: Letter): (i: nat)
    ensures i < 52
  {
    if IsLower(name) then name as int - 'a' as int else name as int - 'A' as int + 26
  }

  /** `VARIABLE_NAME_FROM_INDEX`, the inverse of `Index`. */
  function NameOf(i: nat): (name: Letter)
    requires i < 52
    ensures Index(name) == i
  {
    if i < 26 then ('a' as int + i) as char else ('A' as int + (i - 26)) as char
  }

  /** Distinct names have distinct indices, so `NameOf` undoes `Index`. */
  lemma IndexInjective(a: Letter, b: Letter)
    ensures Index(a) == Index(b) <==> a == b
    ensures NameOf(Index(a)) == a
  {
  }

  datatype Environment = Environment(variables: uint64)

  /** `boolean_environment_new`: every variable is false. */
  function New(): (r: Environment)
    ensures forall name: Letter :: !Get(r, name)
  {
    assert forall k: nat :: !Bit(0, k) by {
      forall k: nat
        ensures !Bit(0, k)
      {
        BitZero(k);
      }
    }
    Environment(0)
  }

  /** `boolean_environment_get_variable`. */
  predicate Get(env: Environment, name: Letter) {
    Bit(env.variables, Index(name))
  }

  /** The word `set_variable` stores: `v & ~(1U << i) | ((unsigned)value << i)`, where
    * `1U` is a 32-bit `unsigned`, so its complement also clears bits 32..63. */
  function SetWord(v: nat, i: nat, value: bool): nat
    requires i < 32
  {
    Pow2Monotone(i, 32);
    Or(And(v, Complement(32, Pow2(i))), if value then Pow2(i) else 0)
  }

  lemma SetWordBits(v: nat, i: nat, value: bool)
    requires i < 32
    ensures SetWord(v, i, value) < Pow2(32)
    ensures forall k: nat :: Bit(SetWord(v, i, value), k) == if k == i then value else k < 32 && Bit(v, k)
  {
    Pow2Monotone(i, 32);
    var mask := Complement(32, Pow2(i));
    var add := if value then Pow2(i) else 0;
    OrBound(And(v, mask), add, 32);
    forall k: nat
      ensures Bit(SetWord(v, i, value), k) == if k == i then value else k < 32 && Bit(v, k)
    {
      BitOr(And(v, mask), add, k);
      BitAnd(v, mask, k);
      BitComplement(32, Pow2(i), k);
      BitPow2(i, k);
      if !value {
        BitZero(k);
      }
    }
  }

  /** `boolean_environment_set_variable`, defined only for the 32 indices a 32-bit
    * `1U << index` can reach. */
  function Set(env: Environment, name: Letter, value: bool): (r: Environment)
    requires Index(name) < 32
    ensures Get(r, name) == value
    ensures forall other: Letter :: other != name && Index(other) < 32 ==> Get(r, other) == Get(env, other)
    ensures r.variables < Pow2(32)
  {
    SetWordBits(env.variables, Index(name), value);
    Pow2Monotone(32, 64);
    Pow2Word();
    Environment(SetWord(env.variables, Index(name), value))
  }

  /** Every name whose index is 32 or more reads false once some variable was set. */
  lemma HighNamesCleared(env: Environment, name: Letter)
    requires env.variables < Pow2(32) && Index(name) >= 32
    ensures !Get(env, name)
  {
    BitAbove(env.variables, 32, Index(name));
  }
}
