/**
 * `struct boolean_function`: the input of the minimiser, either an expression or a
 * list of minterms with the variables they range over. The C union with its
 * `representation` tag becomes a datatype with one constructor per tag.
 */
module Functions {
  import opened Bits
  import opened Expressions
  import Minterms
  import Variables

  datatype BooleanFunction =
    | ExpressionForm(expression: Expression)
    | MintermsForm(minterms: seq<uint64>, variables: seq<char>)

  /** `boolean_function_new_expression`. */
  function NewExpression(e: Expression): (f: BooleanFunction)
    ensures f.ExpressionForm? && f.expression == e
  {
    ExpressionForm(e)
  }

  /** `boolean_function_new_minterms`. */
  function NewMinterms(m: seq<uint64>, v: seq<char>): (f: BooleanFunction)
    ensures f.MintermsForm? && f.minterms == m && f.variables == v
  {
    MintermsForm(m, v)
  }

  /** `boolean_function_clone`: a new value of the same representation built from the
    * clones of the parts. */
  function Clone(f: BooleanFunction): (r: BooleanFunction)
    ensures r.ExpressionForm? <==> f.ExpressionForm?
    ensures r.ExpressionForm? ==> r.expression == Expressions.Clone(f.expression)
    ensures r.MintermsForm? ==> r.minterms == Minterms.Clone(f.minterms) && r.variables == Variables.Clone(f.variables)
  {
    match f
    case ExpressionForm(e) => NewExpression(Expressions.Clone(e))
    case MintermsForm(m, v) => NewMinterms(Minterms.Clone(m), Variables.Clone(v))
  }

  /** A clone is equal to what it copies, so cloning twice gives the same value. */
  lemma CloneEqual(f: BooleanFunction)
    ensures Clone(f) == f
    ensures Clone(Clone(f)) == Clone(f)
  {
    match f
    case ExpressionForm(e) =>
    case MintermsForm(m, v) =>
      assert Minterms.Clone(m) == m;
      assert Variables.Clone(v) == v;
  }
}
