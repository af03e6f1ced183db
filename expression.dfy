/**
 * `struct boolean_expression`: a tree of constants, variables and operations, each
 * operation holding exactly `Arity` operands; its copy and its evaluation under an
 * optional environment.
 */
module Expressions {
  import opened Text
  import opened Environments

  /** `enum boolean_operation_type`, declared in this order. */
  datatype OperationType = Conjunction | Disjunction | Negation

  /** The position of the enumerator in its declaration. */
  function Ordinal(t: OperationType): nat {
    match t
    case Conjunction => 0
    case Disjunction => 1
    case Negation => 2
  }

  /** `boolean_operation_type_arity`: one more than whether the type is declared no later
    * than `Disjunction`. */
  function Arity(t: OperationType): (n: nat)
    ensures n == if t == Negation then 1 else 2
  {
    1 + (if Ordinal(t) <= Ordinal(Disjunction) then 1 else 0)
  }

  /** `boolean_operation_type_precedence`: disjunction binds loosest. */
  function Precedence(t: OperationType): nat {
    match t
    case Disjunction => 0
    case Conjunction => 1
    case Negation => 2
  }

  datatype Expression =
    | Constant(value: bool)
    | Variable(name: Letter)
    | Not(operand: Expression)
    | And(left: Expression, right: Expression)
    | Or(left: Expression, right: Expression)

  predicate IsOperation(e: Expression) {
    e.Not? || e.And? || e.Or?
  }

  function TypeOf(e: Expression): OperationType
    requires IsOperation(e)
  {
    match e
    case Not(_) => Negation
    case And(_, _) => Conjunction
    case Or(_, _) => Disjunction
  }

  /** `operation.operands`. */
  function Operands(e: Expression): seq<Expression> {
    match e
    case Constant(_) => []
    case Variable(_) => []
    case Not(x) => [x]
    case And(l, r) => [l, r]
    case Or(l, r) => [l, r]
  }

  /** An operation holds exactly as many operands as its type's arity. */
  lemma OperandsArity(e: Expression)
    ensures |Operands(e)| == if IsOperation(e) then Arity(TypeOf(e)) else 0
    ensures forall x :: x in Operands(e) ==> x < e
  {
  }

  /** `boolean_expression_clone`: a deep copy, operand by operand. */
  function Clone(e: Expression): (r: Expression)
    ensures r == e
  {
    match e
    case Constant(_) => e
    case Variable(_) => e
    case Not(x) => Not(Clone(x))
    case And(l, r) => And(Clone(l), Clone(r))
    case Or(l, r) => Or(Clone(l), Clone(r))
  }

  /** `boolean_expression_evaluate`; with no environment every variable is false.
    * Conjunction and disjunction stop after a deciding left operand. */
  function Evaluate(e: Expression, env: Option<Environment>): bool {
    match e
    case Constant(v) => v
    case Variable(n) => if env.None? then false else Get(env.value, n)
    case Not(x) => !Evaluate(x, env)
    case And(l, r) => if !Evaluate(l, env) then false else Evaluate(r, env)
    case Or(l, r) => if Evaluate(l, env) then true else Evaluate(r, env)
  }

  /** The names of the variables that occur in `e`. */
  function Names(e: Expression): set<Letter> {
    match e
    case Constant(_) => {}
    case Variable(n) => {n}
    case Not(x) => Names(x)
    case And(l, r) => Names(l) + Names(r)
    case Or(l, r) => Names(l) + Names(r)
  }

  /** Evaluating without an environment is evaluating under the all-false one. */
  lemma {:induction false} EvaluateWithoutEnvironment(e: Expression)
    ensures Evaluate(e, None) == Evaluate(e, Some(New()))
  {
    match e
    case Constant(_) =>
    case Variable(_) =>
    case Not(x) => EvaluateWithoutEnvironment(x);
    case And(l, r) => EvaluateWithoutEnvironment(l); EvaluateWithoutEnvironment(r);
    case Or(l, r) => EvaluateWithoutEnvironment(l); EvaluateWithoutEnvironment(r);
  }

  /** The value of `e` depends only on the variables that occur in it. */
  lemma {:induction false} EvaluateAgrees(e: Expression, a: Environment, b: Environment)
    requires forall n :: n in Names(e) ==> Get(a, n) == Get(b, n)
    ensures Evaluate(e, Some(a)) == Evaluate(e, Some(b))
  {
    match e
    case Constant(_) =>
    case Variable(_) =>
    case Not(x) => EvaluateAgrees(x, a, b);
    case And(l, r) => EvaluateAgrees(l, a, b); EvaluateAgrees(r, a, b);
    case Or(l, r) => EvaluateAgrees(l, a, b); EvaluateAgrees(r, a, b);
  }

  /** Short-circuiting does not change the value: the connectives are the Boolean ones. */
  lemma EvaluateConnectives(l: Expression, r: Expression, env: Option<Environment>)
    ensures Evaluate(Not(l), env) == !Evaluate(l, env)
    ensures Evaluate(And(l, r), env) == (Evaluate(l, env) && Evaluate(r, env))
    ensures Evaluate(Or(l, r), env) == (Evaluate(l, env) || Evaluate(r, env))
  {
  }
}
