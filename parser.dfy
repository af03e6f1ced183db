/**
 * `boolean_expression_from_string` and its recursive-descent helpers. Each helper
 * reads from a cursor into the text and leaves it after what it consumed; here a
 * helper takes the position and returns the parsed expression with the new
 * position. Reading past the end sees the terminating NUL.
 *
 *   expression := term (('|' | '+') term)*
 *   term       := factor (('&' | '*') factor)*
 *   factor     := primary primary*          (a further primary starts with '!', '(' or a letter)
 *   primary    := ('!' primary | atom) '\''*
 *   atom       := '(' expression [')'] | letter | strtol constant
 *
 * White space is skipped before every token.
 */
module ExpressionParser {
  import opened Text
  import opened Environments
  import opened Expressions

  datatype Parsed = Parsed(expression: Expression, position: nat)

  /** The character under the cursor, NUL at the end of the text. */
  function Peek(s: string, p: nat): char {
    if p < |s| then s[p] else '\0'
  }

  function SkipSpaces(s: string, p: nat): (q: nat)
    requires p <= |s|
    ensures p <= q <= |s| && !IsSpace(Peek(s, q))
  {
    SpaceEnd(s, p)
  }

  /** A character that starts a further primary of a factor. */
  predicate StartsPrimary(c: char) {
    c == '!' || c == '(' || IsAlpha(c)
  }

  /** The constant branch of the atom parser: `strtol` reads an optional sign and
    * digits; when it finds no digit nothing is consumed and the constant is false.
    * Any non-zero value becomes true. */
  function ParseConstant(s: string, p: nat): (r: Parsed)
    requires p <= |s|
    ensures p <= r.position <= |s|
    ensures r.expression.Constant?
    ensures r.position == p ==> r.expression == Constant(false)
    ensures r.expression.value <==> ScanInteger(s, p).magnitude != 0
  {
    var end := ScanInteger(s, p).end;
    var value := if end == p then 0 else Strtol(s, p);
    Parsed(Constant(value != 0), end)
  }

  function ParseAtom(s: string, p: nat): (r: Parsed)
    requires p <= |s|
    ensures p <= r.position <= |s|
    ensures Peek(s, p) == '(' || IsAlpha(Peek(s, p)) ==> r.position > p
    decreases |s| - p, 2
  {
    var q := SkipSpaces(s, p);
    if Peek(s, q) == '(' then
      var inner := ParseExpression(s, q + 1);
      var e := SkipSpaces(s, inner.position);
      if Peek(s, e) == ')' then Parsed(inner.expression, e + 1)
      else Parsed(inner.expression, e)
    else if IsAlpha(Peek(s, q)) then
      Parsed(Variable(s[q]), q + 1)
    else
      ParseConstant(s, q)
  }

  /** The postfix loop of the primary parser: each `'` negates what came before. */
  function Postfix(s: string, primary: Expression, p: nat): (r: Parsed)
    requires p <= |s|
    ensures p <= r.position <= |s|
    decreases |s| - p, 1
  {
    var q := SkipSpaces(s, p);
    if Peek(s, q) == '\'' then Postfix(s, Not(primary), q + 1)
    else Parsed(primary, q)
  }

  function ParsePrimary(s: string, p: nat): (r: Parsed)
    requires p <= |s|
    ensures p <= r.position <= |s|
    ensures StartsPrimary(Peek(s, p)) ==> r.position > p
    decreases |s| - p, 3
  {
    var q := SkipSpaces(s, p);
    if Peek(s, q) == '!' then
      var inner := ParsePrimary(s, q + 1);
      Postfix(s, Not(inner.expression), inner.position)
    else
      var atom := ParseAtom(s, q);
      Postfix(s, atom.expression, atom.position)
  }

  /** The loop of the factor parser: juxtaposed primaries are conjoined, left to right. */
  function FactorRest(s: string, factor: Expression, p: nat): (r: Parsed)
    requires p <= |s|
    ensures p <= r.position <= |s|
    decreases |s| - p, 4
  {
    var q := SkipSpaces(s, p);
    if StartsPrimary(Peek(s, q)) then
      var next := ParsePrimary(s, q);
      FactorRest(s, And(factor, next.expression), next.position)
    else Parsed(factor, q)
  }

  function ParseFactor(s: string, p: nat): (r: Parsed)
    requires p <= |s|
    ensures p <= r.position <= |s|
    decreases |s| - p, 5
  {
    var first := ParsePrimary(s, p);
    FactorRest(s, first.expression, first.position)
  }

  /** The loop of the term parser: `&` and `*` conjoin factors, left to right. */
  function TermRest(s: string, term: Expression, p: nat): (r: Parsed)
    requires p <= |s|
    ensures p <= r.position <= |s|
    decreases |s| - p, 6
  {
    var q := SkipSpaces(s, p);
    if Peek(s, q) == '&' || Peek(s, q) == '*' then
      var next := ParseFactor(s, q + 1);
      TermRest(s, And(term, next.expression), next.position)
    else Parsed(term, q)
  }

  function ParseTerm(s: string, p: nat): (r: Parsed)
    requires p <= |s|
    ensures p <= r.position <= |s|
    decreases |s| - p, 7
  {
    var first := ParseFactor(s, p);
    TermRest(s, first.expression, first.position)
  }

  /** The loop of the expression parser: `|` and `+` disjoin terms, left to right. */
  function ExpressionRest(s: string, expression: Expression, p: nat): (r: Parsed)
    requires p <= |s|
    ensures p <= r.position <= |s|
    decreases |s| - p, 8
  {
    var q := SkipSpaces(s, p);
    if Peek(s, q) == '|' || Peek(s, q) == '+' then
      var next := ParseTerm(s, q + 1);
      ExpressionRest(s, Or(expression, next.expression), next.position)
    else Parsed(expression, q)
  }

  function ParseExpression(s: string, p: nat): (r: Parsed)
    requires p <= |s|
    ensures p <= r.position <= |s|
    decreases |s| - p, 9
  {
    var first := ParseTerm(s, p);
    ExpressionRest(s, first.expression, first.position)
  }

  /** `boolean_expression_from_string`: text after the expression only draws a warning,
    * which is not modelled. */
  function FromString(s: string): Expression {
    ParseExpression(s, 0).expression
  }
}
