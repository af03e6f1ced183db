/**
 * What the simplify button of the application does with a `boolean_function`
 * (`simplify_button_clicked`): take the minterms and variables of the input, compute
 * the prime implicants, keep a greedy cover of the minterms, and build the expression
 * of that cover. The window, the label and the text conversion around it are not
 * part of this model.
 */
module Minimizer {
  import opened Bits
  import opened Text
  import opened Environments
  import opened Expressions
  import opened Implicants
  import opened Functions
  import Minterms
  import Variables
  import Tabulation
  import PrimeImplicants
  import Minimalize
  import Reconstruction

  /** The expression the pipeline builds from minterms over `variables`. */
  function Simplified(minterms: seq<uint64>, variables: seq<Letter>): Expression
    requires |variables| < 64
  {
    var primes := Tabulation.FromMinterms(minterms, |variables|);
    Reconstruction.ImplicantsExpression(Minimalize.Reduced(primes, minterms), variables)
  }

  /** The prime implicants cover every minterm, as `boolean_implicants_minimalize`
    * needs. */
  lemma PrimesCover(minterms: seq<uint64>, n: nat)
    requires n < 64 && forall m :: m in minterms ==> m < Pow2(n)
    ensures Minimalize.AllCovered(Tabulation.FromMinterms(minterms, n), minterms)
  {
    var primes := Tabulation.FromMinterms(minterms, n);
    Tabulation.FromMintermsCorrect(minterms, n);
    forall t | 0 <= t < |minterms|
      ensures Minimalize.Covered(primes, minterms[t])
    {
      assert Tabulation.ListCovers(primes, minterms[t]);
    }
  }

  /** The implicants the greedy cover keeps select bits below `n` only, cover only
    * minterms, and still cover every minterm. */
  lemma KeptCorrect(minterms: seq<uint64>, n: nat)
    requires n < 64 && forall m :: m in minterms ==> m < Pow2(n)
    ensures var kept := Minimalize.Reduced(Tabulation.FromMinterms(minterms, n), minterms);
      && (forall t :: 0 <= t < |kept| ==> kept[t].mask < Pow2(n) && Tabulation.SoundTerm(kept[t], minterms, n))
      && Minimalize.AllCovered(kept, minterms)
  {
    var primes := Tabulation.FromMinterms(minterms, n);
    var kept := Minimalize.Reduced(primes, minterms);
    Tabulation.FromMintermsCorrect(minterms, n);
    PrimesCover(minterms, n);
    Minimalize.ReducedCovers(primes, minterms);
    Minimalize.SubsequenceMembers(kept, primes);
    assert forall t :: 0 <= t < |kept| ==> kept[t] in primes;
  }

  /** A value below `2^n` covered by a sound implicant is a minterm. */
  lemma CoveredListed(kept: seq<Implicant>, minterms: seq<uint64>, n: nat, i: nat)
    requires n < 64 && i < Pow2(n)
    requires forall t :: 0 <= t < |kept| ==> Tabulation.SoundTerm(kept[t], minterms, n)
    requires Reconstruction.CoveredBelow(kept, |kept|, i)
    ensures i in minterms
  {
    var t :| 0 <= t < |kept| && Covers(kept[t], i);
    assert Tabulation.SoundTerm(kept[t], minterms, n);
    Pow2Monotone(n, 64);
    Pow2Word();
    var x: uint64 := i;
    assert x in minterms;
  }

  /** A minterm is covered by a list that covers every minterm. */
  lemma ListedCovered(kept: seq<Implicant>, minterms: seq<uint64>, i: nat)
    requires Minimalize.AllCovered(kept, minterms) && i in minterms
    ensures Reconstruction.CoveredBelow(kept, |kept|, i)
  {
    var t :| 0 <= t < |minterms| && minterms[t] == i;
    assert Minimalize.Covered(kept, minterms[t]);
    var j :| 0 <= j < |kept| && Covers(kept[j], minterms[t]);
  }

  /** For distinct variables and minterms below `2^n`, the simplified expression is
    * true under the environment of `i < 2^n` exactly when `i` is one of the minterms. */
  lemma SimplifiedMeaning(minterms: seq<uint64>, variables: seq<Letter>, i: nat)
    requires Minterms.Distinct(variables) && |variables| < 64
    requires forall m :: m in minterms ==> m < Pow2(|variables|)
    requires i < Pow2(|variables|)
    ensures Evaluate(Simplified(minterms, variables), Some(Minterms.Assignment(variables, i))) <==> i in minterms
  {
    var n := |variables|;
    var kept := Minimalize.Reduced(Tabulation.FromMinterms(minterms, n), minterms);
    KeptCorrect(minterms, n);
    Reconstruction.ImplicantsMeaning(kept, variables, i);
    if Reconstruction.CoveredBelow(kept, |kept|, i) {
      CoveredListed(kept, minterms, n, i);
    }
    if i in minterms {
      ListedCovered(kept, minterms, i);
    }
  }

  /** When the minterms are those of an expression, the simplified expression agrees
    * with it under the environment of every `i < 2^n`. */
  lemma SimplifiedAgrees(e: Expression, minterms: seq<uint64>, i: nat)
    requires forall n :: n in Names(e) ==> Index(n) < 32
    requires |Names(e)| < 32
    requires var variables := Variables.VariablesOf(e);
      forall x: nat :: x in minterms <==>
        x < Pow2(|variables|) && Evaluate(e, Some(Minterms.Assignment(variables, x)))
    requires i < Pow2(|Variables.VariablesOf(e)|)
    ensures var variables := Variables.VariablesOf(e);
      Evaluate(Simplified(minterms, variables), Some(Minterms.Assignment(variables, i)))
        == Evaluate(e, Some(Minterms.Assignment(variables, i)))
  {
    var variables := Variables.VariablesOf(e);
    assert Minterms.Distinct(variables) by {
      forall k, l | 0 <= k < l < |variables|
        ensures variables[k] != variables[l]
      {
        assert Index(variables[k]) < Index(variables[l]);
      }
    }
    SimplifiedMeaning(minterms, variables, i);
  }

  /** The pipeline on a list of minterms: prime implicants, greedy cover, expression. */
  method SimplifyMinterms(minterms: seq<uint64>, variables: seq<Letter>) returns (e: Expression)
    requires |variables| < 64 && forall m :: m in minterms ==> m < Pow2(|variables|)
    ensures e == Simplified(minterms, variables)
  {
    var implicants := PrimeImplicants.FromMinterms(minterms, |variables|);
    PrimesCover(minterms, |variables|);
    Minimalize.Minimalize(implicants, minterms);
    e := Reconstruction.FromImplicants(implicants.data, variables);
  }

  /** Variable names the model can build expressions over. */
  predicate Lettered(v: seq<char>) {
    forall k :: 0 <= k < |v| ==> IsAlpha(v[k])
  }

  function Letters(v: seq<char>): (r: seq<Letter>)
    requires Lettered(v)
    ensures r == v
  {
    v
  }

  /** What the minimiser needs of its input: an expression over fewer than 32 names of
    * index below 32, or minterms below `2^n` over fewer than 64 letters. */
  predicate Simplifiable(f: BooleanFunction) {
    match f
    case ExpressionForm(e) => (forall n :: n in Names(e) ==> Index(n) < 32) && |Names(e)| < 32
    case MintermsForm(minterms, variables) =>
      Lettered(variables) && |variables| < 64 && forall m :: m in minterms ==> m < Pow2(|variables|)
  }

  /** `simplify_button_clicked` up to the text of the result: an expression input
    * becomes its minterms and variables first. The result describes the same function:
    * under the environment of each `i < 2^n` it agrees with the input expression, or
    * it is true exactly for the listed minterms when the variables are distinct. */
  method Simplify(f: BooleanFunction) returns (e: Expression)
    requires Simplifiable(f)
    ensures f.ExpressionForm? ==>
      var variables := Variables.VariablesOf(f.expression);
      forall i: nat :: i < Pow2(|variables|) ==>
        Evaluate(e, Some(Minterms.Assignment(variables, i))) == Evaluate(f.expression, Some(Minterms.Assignment(variables, i)))
    ensures f.MintermsForm? ==> e == Simplified(f.minterms, Letters(f.variables))
    ensures f.MintermsForm? && Minterms.Distinct(Letters(f.variables)) ==>
      forall i: nat :: i < Pow2(|f.variables|) ==>
        (Evaluate(e, Some(Minterms.Assignment(Letters(f.variables), i))) <==> i in f.minterms)
  {
    match f
    case ExpressionForm(expression) =>
      var minterms := Minterms.FromExpression(expression);
      var variables := Variables.FromExpression(expression);
      e := SimplifyMinterms(minterms, variables);
      forall i: nat | i < Pow2(|variables|)
        ensures Evaluate(e, Some(Minterms.Assignment(variables, i))) == Evaluate(expression, Some(Minterms.Assignment(variables, i)))
      {
        SimplifiedAgrees(expression, minterms, i);
      }
    case MintermsForm(minterms, names) =>
      var variables := Letters(names);
      e := SimplifyMinterms(minterms, variables);
      if Minterms.Distinct(variables) {
        forall i: nat | i < Pow2(|variables|)
          ensures Evaluate(e, Some(Minterms.Assignment(variables, i))) <==> i in minterms
        {
          SimplifiedMeaning(minterms, variables, i);
        }
      }
  }
}
