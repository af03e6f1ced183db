/**
 * The expressions `boolean_expression.c` builds back from minterms and implicants:
 * a conjunction of literals per term, the terms joined by disjunction. Bit
 * `n - 1 - k` of a term stands for `variables[k]`, so the first variable is the most
 * significant bit, as in `boolean_minterms_from_expression`.
 */
module Reconstruction {
  import opened Bits
  import opened Text
  import opened Environments
  import opened Expressions
  import opened Implicants
  import opened Minterms

  /** The variable, negated unless `positive`. */
  function Literal(name: Letter, positive: bool): (r: Expression)
    ensures forall env :: Evaluate(r, Some(env)) == (Get(env, name) == positive)
  {
    if positive then Variable(name) else Not(Variable(name))
  }

  /** The expression `boolean_expression_from_minterm` holds after `j` steps of its
    * loop: it starts from the literal of `variables[0]` and conjoins the literal of
    * every variable in turn, the first one included a second time. */
  function MintermPrefix(m: uint64, variables: seq<Letter>, j: nat): Expression
    requires 0 < |variables| && j <= |variables|
  {
    var n := |variables|;
    if j == 0 then Literal(variables[0], Bit(m, n - 1))
    else And(MintermPrefix(m, variables, j - 1), Literal(variables[j - 1], Bit(m, n - j)))
  }

  /** What `boolean_expression_from_minterm` returns. */
  function MintermExpression(m: uint64, variables: seq<Letter>): Expression
    requires 0 < |variables|
  {
    MintermPrefix(m, variables, |variables|)
  }

  /** `boolean_expression_from_minterm`. It reads `variables->data[0]` before anything
    * else, so the variables must not be empty. */
  method FromMinterm(m: uint64, variables: seq<Letter>) returns (e: Expression)
    requires 0 < |variables|
    ensures e == MintermExpression(m, variables)
  {
    var n := |variables|;
    e := Variable(variables[0]);
    if !Bit(m, n - 1) {
      e := Not(e);
    }
    for index := 0 to n
      invariant e == MintermPrefix(m, variables, index)
    {
      var literal := Variable(variables[index]);
      if !Bit(m, n - index - 1) {
        literal := Not(literal);
      }
      e := And(e, literal);
    }
  }

  /** After `j` steps the expression holds exactly when each of the first `j`
    * variables, and the first, has its bit of `m`. */
  lemma {:induction false} MintermPrefixMeaning(m: uint64, variables: seq<Letter>, j: nat, env: Environment)
    requires 0 < |variables| && j <= |variables|
    ensures Evaluate(MintermPrefix(m, variables, j), Some(env))
        <==> Get(env, variables[0]) == Bit(m, |variables| - 1)
             && forall k :: 0 <= k < j ==> Get(env, variables[k]) == Bit(m, |variables| - 1 - k)
  {
    if j > 0 {
      MintermPrefixMeaning(m, variables, j - 1, env);
    }
  }

  /** Under the environment of minterm `i`, the expression of minterm `m` holds exactly
    * when `i` and `m` agree on their low `n` bits. */
  lemma MintermMeaning(m: uint64, variables: seq<Letter>, i: nat)
    requires 0 < |variables| && Distinct(variables)
    ensures Evaluate(MintermExpression(m, variables), Some(Assignment(variables, i)))
        <==> forall k :: 0 <= k < |variables| ==> Bit(i, k) == Bit(m, k)
  {
    var n := |variables|;
    var env := Assignment(variables, i);
    AssignmentValues(variables, i);
    MintermPrefixMeaning(m, variables, n, env);
    if forall k :: 0 <= k < n ==> Get(env, variables[k]) == Bit(m, n - 1 - k) {
      forall k | 0 <= k < n
        ensures Bit(i, k) == Bit(m, k)
      {
        assert Get(env, variables[n - 1 - k]) == Bit(m, n - 1 - (n - 1 - k));
      }
    }
  }

  /** For values below `2^n`, the expression of minterm `m` holds under the environment
    * of `i` exactly when `i == m`. */
  lemma MintermExact(m: uint64, variables: seq<Letter>, i: nat)
    requires 0 < |variables| && Distinct(variables)
    requires m < Pow2(|variables|) && i < Pow2(|variables|)
    ensures Evaluate(MintermExpression(m, variables), Some(Assignment(variables, i))) <==> i == m
  {
    MintermMeaning(m, variables, i);
    if forall k :: 0 <= k < |variables| ==> Bit(i, k) == Bit(m, k) {
      BitsBelowEqual(i, m, |variables|);
    } else {
      assert Evaluate(MintermExpression(m, variables), Some(Assignment(variables, i)))
        ==> forall k :: 0 <= k < |variables| ==> Bit(i, k) == Bit(m, k);
    }
  }

  /** The disjunction `boolean_expression_from_minterms` holds after the first `j`
    * minterms. */
  function MintermsPrefix(ms: seq<uint64>, variables: seq<Letter>, j: nat): Expression
    requires 0 < j <= |ms| && 0 < |variables|
  {
    if j == 1 then MintermExpression(ms[0], variables)
    else Or(MintermsPrefix(ms, variables, j - 1), MintermExpression(ms[j - 1], variables))
  }

  /** What `boolean_expression_from_minterms` returns: `false` for no minterms. */
  function MintermsExpression(ms: seq<uint64>, variables: seq<Letter>): Expression
    requires |ms| > 0 ==> 0 < |variables|
  {
    if |ms| == 0 then Constant(false) else MintermsPrefix(ms, variables, |ms|)
  }

  /** `boolean_expression_from_minterms`. */
  method FromMinterms(ms: seq<uint64>, variables: seq<Letter>) returns (e: Expression)
    requires |ms| > 0 ==> 0 < |variables|
    ensures e == MintermsExpression(ms, variables)
    ensures |ms| == 0 ==> e == Constant(false)
  {
    if |ms| == 0 {
      return Constant(false);
    }
    e := FromMinterm(ms[0], variables);
    for i := 1 to |ms|
      invariant e == MintermsPrefix(ms, variables, i)
    {
      var term := FromMinterm(ms[i], variables);
      e := Or(e, term);
    }
  }

  /** One of the first `j` minterms of the list is `m`. */
  ghost predicate ListedBelow(ms: seq<uint64>, j: nat, m: nat) {
    exists t :: 0 <= t < j && t < |ms| && ms[t] == m
  }

  lemma {:induction false} MintermsPrefixMeaning(ms: seq<uint64>, variables: seq<Letter>, j: nat, i: nat)
    requires 0 < j <= |ms| && 0 < |variables| && Distinct(variables)
    requires i < Pow2(|variables|) && forall t :: 0 <= t < |ms| ==> ms[t] < Pow2(|variables|)
    ensures Evaluate(MintermsPrefix(ms, variables, j), Some(Assignment(variables, i))) <==> ListedBelow(ms, j, i)
  {
    MintermExact(ms[j - 1], variables, i);
    if j > 1 {
      MintermsPrefixMeaning(ms, variables, j - 1, i);
      if ListedBelow(ms, j, i) && ms[j - 1] != i {
        var t :| 0 <= t < j && t < |ms| && ms[t] == i;
        assert ListedBelow(ms, j - 1, i);
      }
    }
  }

  /** For minterms below `2^n`, the expression of the minterms holds under the
    * environment of `i < 2^n` exactly when `i` is one of them. */
  lemma MintermsMeaning(ms: seq<uint64>, variables: seq<Letter>, i: nat)
    requires |ms| > 0 ==> 0 < |variables|
    requires Distinct(variables) && i < Pow2(|variables|)
    requires forall t :: 0 <= t < |ms| ==> ms[t] < Pow2(|variables|)
    ensures Evaluate(MintermsExpression(ms, variables), Some(Assignment(variables, i))) <==> i in ms
  {
    if |ms| > 0 {
      MintermsPrefixMeaning(ms, variables, |ms|, i);
    }
    if i in ms {
      var t :| 0 <= t < |ms| && ms[t] == i;
      assert ListedBelow(ms, |ms|, i);
    }
  }

  /** What the loops of `boolean_expression_from_implicant` hold after the first `j`
    * variables: nothing before the first selected one, then the conjunction of the
    * literals of the selected variables, in order. */
  function ImplicantUpTo(p: Implicant, variables: seq<Letter>, j: nat): Option<Expression>
    requires j <= |variables|
  {
    var n := |variables|;
    if j == 0 then None
    else
      var prefix := ImplicantUpTo(p, variables, j - 1);
      if !Bit(p.mask, n - j) then prefix
      else
        var literal := Literal(variables[j - 1], Bit(p.value, n - j));
        match prefix
        case None => Some(literal)
        case Some(e) => Some(And(e, literal))
  }

  /** What `boolean_expression_from_implicant` returns: `true` when no bit is selected. */
  function ImplicantExpression(p: Implicant, variables: seq<Letter>): Expression {
    match ImplicantUpTo(p, variables, |variables|)
    case None => Constant(true)
    case Some(e) => e
  }

  /** `boolean_expression_from_implicant`: skip the unselected leading variables, start
    * from the first selected literal, conjoin the later selected ones. */
  method FromImplicant(p: Implicant, variables: seq<Letter>) returns (e: Expression)
    ensures e == ImplicantExpression(p, variables)
  {
    var n := |variables|;
    var index := 0;
    while index < n && !Bit(p.mask, n - index - 1)
      invariant index <= n
      invariant ImplicantUpTo(p, variables, index) == None
    {
      index := index + 1;
    }
    if index >= n {
      return Constant(true);
    }
    e := Variable(variables[index]);
    if !Bit(p.value, n - index - 1) {
      e := Not(e);
    }
    for index := index + 1 to n
      invariant ImplicantUpTo(p, variables, index) == Some(e)
    {
      if !Bit(p.mask, n - index - 1) {
        continue;
      }
      var literal := Variable(variables[index]);
      if !Bit(p.value, n - index - 1) {
        literal := Not(literal);
      }
      e := And(e, literal);
    }
  }

  /** The mask selects `variables[k]`, that is bit `n - 1 - k`. */
  predicate Picked(p: Implicant, variables: seq<Letter>, k: nat)
    requires k < |variables|
  {
    Bit(p.mask, |variables| - 1 - k)
  }

  /** The prefix is missing exactly while no variable so far is selected. */
  lemma {:induction false} ImplicantUpToNone(p: Implicant, variables: seq<Letter>, j: nat)
    requires j <= |variables|
    ensures ImplicantUpTo(p, variables, j).None? <==> forall k :: 0 <= k < j ==> !Picked(p, variables, k)
  {
    if j > 0 {
      var q := j - 1;
      ImplicantUpToNone(p, variables, q);
      assert |variables| - 1 - q == |variables| - j;
      assert (forall k :: 0 <= k < j ==> !Picked(p, variables, k))
         <==> (forall k :: 0 <= k < q ==> !Picked(p, variables, k)) && !Picked(p, variables, q);
    }
  }

  /** A variable `variables[k]` that is selected by the mask. */
  ghost predicate SelectedName(p: Implicant, variables: seq<Letter>, j: nat, x: Letter) {
    exists k :: 0 <= k < j && k < |variables| && variables[k] == x && Picked(p, variables, k)
  }

  /** A present prefix is a literal or a conjunction, over selected variables only. */
  lemma {:induction false} ImplicantUpToNames(p: Implicant, variables: seq<Letter>, j: nat)
    requires j <= |variables|
    ensures ImplicantUpTo(p, variables, j).Some? ==>
      && !ImplicantUpTo(p, variables, j).value.Constant?
      && forall x :: x in Names(ImplicantUpTo(p, variables, j).value) ==> SelectedName(p, variables, j, x)
  {
    if j > 0 {
      var q := j - 1;
      ImplicantUpToNames(p, variables, q);
      var n := |variables|;
      assert n - 1 - q == n - j;
      if Picked(p, variables, q) {
        var literal := Literal(variables[q], Bit(p.value, n - j));
        assert Names(literal) == {variables[q]};
        assert SelectedName(p, variables, j, variables[q]);
      }
      forall x | SelectedName(p, variables, q, x)
        ensures SelectedName(p, variables, j, x)
      {
        var k :| 0 <= k < q && k < n && variables[k] == x && Picked(p, variables, k);
      }
    }
  }

  /** `boolean_expression_from_implicant` gives `true` exactly when the mask selects none
    * of the low `n` bits, and otherwise a formula over the selected variables only. */
  lemma ImplicantShape(p: Implicant, variables: seq<Letter>)
    ensures ImplicantExpression(p, variables) == Constant(true) ==> forall k :: 0 <= k < |variables| ==> !Bit(p.mask, k)
    ensures (forall k :: 0 <= k < |variables| ==> !Bit(p.mask, k)) ==> ImplicantExpression(p, variables) == Constant(true)
    ensures forall x :: x in Names(ImplicantExpression(p, variables)) ==> SelectedName(p, variables, |variables|, x)
  {
    var n := |variables|;
    ImplicantUpToNone(p, variables, n);
    ImplicantUpToNames(p, variables, n);
    if forall k :: 0 <= k < n ==> !Bit(p.mask, k) {
      forall k | 0 <= k < n
        ensures !Picked(p, variables, k)
      {
        assert 0 <= n - 1 - k < n;
      }
    }
    if forall k :: 0 <= k < n ==> !Picked(p, variables, k) {
      forall k | 0 <= k < n
        ensures !Bit(p.mask, k)
      {
        assert !Picked(p, variables, n - 1 - k);
        assert n - 1 - (n - 1 - k) == k;
      }
    } else {
      var k :| 0 <= k < n && Picked(p, variables, k);
      assert Bit(p.mask, n - 1 - k);
    }
  }

  /** A missing conjunction holds. */
  predicate Holds(o: Option<Expression>, env: Environment) {
    match o
    case None => true
    case Some(e) => Evaluate(e, Some(env))
  }

  /** `variables[k]` is not selected, or has its bit of the value. */
  predicate Selected(p: Implicant, variables: seq<Letter>, env: Environment, k: nat)
    requires k < |variables|
  {
    var n := |variables|;
    Bit(p.mask, n - 1 - k) ==> Get(env, variables[k]) == Bit(p.value, n - 1 - k)
  }

  /** After `j` variables the conjunction holds exactly when every selected one among
    * them has its bit of the value. */
  lemma {:induction false} ImplicantUpToMeaning(p: Implicant, variables: seq<Letter>, j: nat, env: Environment)
    requires j <= |variables|
    ensures Holds(ImplicantUpTo(p, variables, j), env) <==> forall k :: 0 <= k < j ==> Selected(p, variables, env, k)
  {
    if j > 0 {
      var q := j - 1;
      ImplicantUpToMeaning(p, variables, q, env);
      assert |variables| - 1 - q == |variables| - j;
      assert (forall k :: 0 <= k < j ==> Selected(p, variables, env, k))
         <==> (forall k :: 0 <= k < q ==> Selected(p, variables, env, k)) && Selected(p, variables, env, q);
    }
  }

  /** The condition of `ImplicantUpToMeaning`, over all variables and the environment of
    * minterm `i`, is agreement of `i` with the implicant on the low `n` bits. */
  lemma AgreesBelow(p: Implicant, variables: seq<Letter>, i: nat)
    requires Distinct(variables)
    ensures (forall k :: 0 <= k < |variables| ==> Selected(p, variables, Assignment(variables, i), k))
        <==> forall k: nat :: k < |variables| ==> Agrees(p, i, k)
  {
    var n := |variables|;
    var env := Assignment(variables, i);
    AssignmentValues(variables, i);
    if forall k :: 0 <= k < n ==> Selected(p, variables, env, k) {
      forall k: nat | k < n
        ensures Agrees(p, i, k)
      {
        assert Selected(p, variables, env, n - 1 - k);
        assert Get(env, variables[n - 1 - k]) == Bit(i, n - 1 - (n - 1 - k));
      }
    }
    if forall k: nat :: k < n ==> Agrees(p, i, k) {
      forall k | 0 <= k < n
        ensures Selected(p, variables, env, k)
      {
        assert Agrees(p, i, n - 1 - k);
      }
    }
  }

  /** A mask below `2^n` selects no bit from `n` on. */
  lemma AgreesAbove(p: Implicant, n: nat, i: nat)
    requires p.mask < Pow2(n)
    ensures forall k: nat :: n <= k ==> Agrees(p, i, k)
  {
    forall k: nat | n <= k
      ensures Agrees(p, i, k)
    {
      BitAbove(p.mask, n, k);
    }
  }

  /** Under the environment of minterm `i`, the expression of an implicant whose mask
    * selects only the low `n` bits holds exactly when the implicant covers `i`. */
  lemma ImplicantMeaning(p: Implicant, variables: seq<Letter>, i: nat)
    requires Distinct(variables) && p.mask < Pow2(|variables|)
    ensures Evaluate(ImplicantExpression(p, variables), Some(Assignment(variables, i))) <==> Covers(p, i)
  {
    var n := |variables|;
    ImplicantUpToMeaning(p, variables, n, Assignment(variables, i));
    AgreesBelow(p, variables, i);
    AgreesAbove(p, n, i);
    CoversBits(p, i);
    assert (forall k: nat :: Agrees(p, i, k)) <==> forall k: nat :: k < n ==> Agrees(p, i, k);
  }

  /** The disjunction `boolean_expression_from_implicants` holds after the first `j`
    * implicants. */
  function ImplicantsPrefix(ps: seq<Implicant>, variables: seq<Letter>, j: nat): Expression
    requires 0 < j <= |ps|
  {
    if j == 1 then ImplicantExpression(ps[0], variables)
    else Or(ImplicantsPrefix(ps, variables, j - 1), ImplicantExpression(ps[j - 1], variables))
  }

  /** What `boolean_expression_from_implicants` returns: `false` for no implicants. */
  function ImplicantsExpression(ps: seq<Implicant>, variables: seq<Letter>): Expression {
    if |ps| == 0 then Constant(false) else ImplicantsPrefix(ps, variables, |ps|)
  }

  /** `boolean_expression_from_implicants`. */
  method FromImplicants(ps: seq<Implicant>, variables: seq<Letter>) returns (e: Expression)
    ensures e == ImplicantsExpression(ps, variables)
    ensures |ps| == 0 ==> e == Constant(false)
  {
    if |ps| == 0 {
      return Constant(false);
    }
    e := FromImplicant(ps[0], variables);
    for i := 1 to |ps|
      invariant e == ImplicantsPrefix(ps, variables, i)
    {
      var term := FromImplicant(ps[i], variables);
      e := Or(e, term);
    }
  }

  /** One of the first `j` implicants of the list covers `m`. */
  ghost predicate CoveredBelow(ps: seq<Implicant>, j: nat, m: nat) {
    exists t :: 0 <= t < j && t < |ps| && Covers(ps[t], m)
  }

  lemma {:induction false} ImplicantsPrefixMeaning(ps: seq<Implicant>, variables: seq<Letter>, j: nat, i: nat)
    requires 0 < j <= |ps| && Distinct(variables)
    requires forall t :: 0 <= t < |ps| ==> ps[t].mask < Pow2(|variables|)
    ensures Evaluate(ImplicantsPrefix(ps, variables, j), Some(Assignment(variables, i))) <==> CoveredBelow(ps, j, i)
  {
    ImplicantMeaning(ps[j - 1], variables, i);
    if j > 1 {
      ImplicantsPrefixMeaning(ps, variables, j - 1, i);
      if CoveredBelow(ps, j, i) && !Covers(ps[j - 1], i) {
        var t :| 0 <= t < j && t < |ps| && Covers(ps[t], i);
        assert CoveredBelow(ps, j - 1, i);
      }
    }
  }

  /** For implicants whose masks select only the low `n` bits, the expression of the
    * list holds under the environment of minterm `i` exactly when one of them covers
    * `i`. */
  lemma ImplicantsMeaning(ps: seq<Implicant>, variables: seq<Letter>, i: nat)
    requires Distinct(variables)
    requires forall t :: 0 <= t < |ps| ==> ps[t].mask < Pow2(|variables|)
    ensures Evaluate(ImplicantsExpression(ps, variables), Some(Assignment(variables, i))) <==> CoveredBelow(ps, |ps|, i)
  {
    if |ps| > 0 {
      ImplicantsPrefixMeaning(ps, variables, |ps|, i);
    }
  }
}
