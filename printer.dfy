/**
 * `boolean_expression_to_string`: operands of looser-binding operations are put in
 * parentheses (a right operand also when it binds equally tight), a disjunction
 * prints as " + ", a negation as a postfix `'`, and a conjunction as juxtaposition,
 * or as " * " when either operand is a constant.
 */
module ExpressionPrinter {
  import opened Text
  import opened Environments
  import opened Expressions

  /** `x` is an operation whose precedence is below `p` (or at most `p` when
    * `inclusive`), so it needs parentheses under an operation of precedence `p`. */
  predicate Looser(x: Expression, p: nat, inclusive: bool) {
    IsOperation(x) && (if inclusive then Precedence(TypeOf(x)) <= p else Precedence(TypeOf(x)) < p)
  }

  function Wrapped(x: Expression, parenthesize: bool): string
    decreases x, 1
  {
    if parenthesize then "(" + ToString(x) + ")" else ToString(x)
  }

  function ToString(e: Expression): string
    decreases e, 0
  {
    match e
    case Constant(v) => Decimal(if v then 1 else 0)
    case Variable(n) => [n]
    case Not(x) => Wrapped(x, Looser(x, Precedence(Negation), false)) + "'"
    case And(l, r) =>
      var p := Precedence(Conjunction);
      Wrapped(l, Looser(l, p, false)) + (if l.Constant? || r.Constant? then " * " else "") + Wrapped(r, Looser(r, p, true))
    case Or(l, r) =>
      var p := Precedence(Disjunction);
      Wrapped(l, Looser(l, p, false)) + " + " + Wrapped(r, Looser(r, p, true))
  }
}
