/**
 * Printing an expression and parsing the text back gives an expression with the
 * same value under every environment, provided no conjunction has a negated
 * constant as its right operand (see `PrintedNegatedConstantIsLost`).
 *
 * The proof follows the grammar: `PrimaryAt` covers what prints as one primary,
 * `TermAt` a chain of factors, `ExpressionAt` a chain of terms; each states how the
 * parser's state looks right after the printed text, so that what follows it can
 * continue the chain.
 */
module RoundTrip {
  import opened Text
  import opened Environments
  import opened Expressions
  import opened ExpressionParser
  import opened ExpressionPrinter

  /** `Not(...(Not(Constant(_))))`. */
  predicate NegatedConstant(e: Expression) {
    e.Not? && (e.operand.Constant? || NegatedConstant(e.operand))
  }

  /** No conjunction in `e` has a negated constant as its right operand. */
  predicate Reparseable(e: Expression) {
    match e
    case Constant(_) => true
    case Variable(_) => true
    case Not(x) => Reparseable(x)
    case And(l, r) => !NegatedConstant(r) && Reparseable(l) && Reparseable(r)
    case Or(l, r) => Reparseable(l) && Reparseable(r)
  }

  /** The printed text of `e`, with each parenthesis decision of `ToString` written out
    * in terms of the grammar (see `PrintedIsToString`). */
  function Printed(e: Expression): string
    decreases e, 0
  {
    match e
    case Constant(v) => if v then "1" else "0"
    case Variable(n) => [n]
    case Not(x) => AsPrimary(x) + "'"
    case And(l, r) => AsTerm(l) + (if l.Constant? || r.Constant? then " * " else "") + AsPrimary(r)
    case Or(l, r) => Printed(l) + " + " + AsTerm(r)
  }

  /** The text of `e` where the grammar expects a primary. */
  function AsPrimary(e: Expression): string
    decreases e, 1
  {
    if e.And? || e.Or? then "(" + Printed(e) + ")" else Printed(e)
  }

  /** The text of `e` where the grammar expects a factor chain. */
  function AsTerm(e: Expression): string
    decreases e, 1
  {
    if e.Or? then "(" + Printed(e) + ")" else Printed(e)
  }

  /** The first character the parser sees at or after `q`. */
  function Next(s: string, q: nat): char
    requires q <= |s|
  {
    Peek(s, SkipSpaces(s, q))
  }

  /** A conjunction whose left operand is `left` (if any) and whose right one is `right`. */
  function Join(left: Option<Expression>, right: Expression): Expression {
    if left.None? then right else And(left.value, right)
  }

  /** The term parser in the middle of its chain: the current factor is `factor`,
    * the conjunction of the factors before it is `done`. */
  function TermAfterFactor(s: string, done: Option<Expression>, factor: Expression, q: nat): Parsed
    requires q <= |s|
  {
    var f := FactorRest(s, factor, q);
    TermRest(s, Join(done, f.expression), f.position)
  }

  /** `ToString` prints every expression as `Printed` does: it parenthesises an operand
    * exactly where the grammar needs it. */
  lemma {:induction false} PrintedIsToString(e: Expression)
    ensures ToString(e) == Printed(e)
    ensures Wrapped(e, e.And? || e.Or?) == AsPrimary(e)
    ensures Wrapped(e, e.Or?) == AsTerm(e)
  {
    assert Decimal(1) == "1" && Decimal(0) == "0";
    match e
    case Constant(_) =>
    case Variable(_) =>
    case Not(x) => PrintedIsToString(x);
    case And(l, r) => PrintedIsToString(l); PrintedIsToString(r);
    case Or(l, r) => PrintedIsToString(l); PrintedIsToString(r);
  }

  lemma PrintShapes(e: Expression)
    ensures e.Not? ==> Printed(e) == AsPrimary(e.operand) + "'"
    ensures e.And? ==> Printed(e) == AsTerm(e.left) + (if e.left.Constant? || e.right.Constant? then " * " else "") + AsPrimary(e.right)
    ensures e.Or? ==> Printed(e) == Printed(e.left) + " + " + AsTerm(e.right)
    ensures !e.Or? ==> AsTerm(e) == Printed(e)
    ensures !e.And? && !e.Or? ==> AsPrimary(e) == Printed(e)
    ensures e.And? || e.Or? ==> AsPrimary(e) == "(" + Printed(e) + ")"
    ensures e.Or? ==> AsTerm(e) == "(" + Printed(e) + ")"
  {
  }

  lemma ShapeAnd(e: Expression)
    requires e.And?
    ensures AsTerm(e) == Printed(e)
    ensures e.left.Constant? || e.right.Constant? ==> Printed(e) == AsTerm(e.left) + [' ', '*', ' '] + AsPrimary(e.right)
    ensures !e.left.Constant? && !e.right.Constant? ==> Printed(e) == AsTerm(e.left) + AsPrimary(e.right)
  {
  }

  lemma ShapeOr(e: Expression)
    requires e.Or?
    ensures Printed(e) == Printed(e.left) + [' ', '+', ' '] + AsTerm(e.right)
  {
  }

  /** The text around a binary operator printed as `a`, ` `, `op`, ` `, `b`, where
    * `b` starts with a non-space. */
  lemma OperatorSpan(s: string, p: nat, a: string, op: char, b: string)
    requires At(s, p, a + [' ', op, ' '] + b) && |b| > 0 && !IsSpace(b[0]) && !IsSpace(op)
    ensures var q1 := p + |a|;
      && q1 + 3 < |s| && p + |a + [' ', op, ' '] + b| == q1 + 3 + |b|
      && At(s, p, a) && At(s, q1 + 3, b)
      && s[q1] == ' ' && s[q1 + 1] == op && s[q1 + 2] == ' ' && !IsSpace(s[q1 + 3])
      && SkipSpaces(s, q1) == q1 + 1
  {
    OperatorLayout(s, p, a, op, b);
    AtChar(s, p + |a| + 3, b, 0);
    SkipOne(s, p + |a|);
  }

  /* The layout lemmas below say where the parts of a printed operation lie. They
   * return the positions they compute, so that the lemmas that use them name
   * each position by one variable. */

  lemma NotLayout(e: Expression, s: string, p: nat, q: nat) returns (q1: nat)
    requires e.Not? && Reparseable(e) && At(s, p, AsPrimary(e)) && q == p + |AsPrimary(e)|
    requires !IsDigit(Next(s, q))
    ensures q1 == p + |AsPrimary(e.operand)| && q == q1 + 1
    ensures Reparseable(e.operand) && At(s, p, AsPrimary(e.operand)) && !IsDigit(Next(s, q1))
    ensures q1 < |s| && s[q1] == '\''
    ensures Reparsed(e) == Not(Reparsed(e.operand))
  {
    var y := e.operand;
    q1 := p + |AsPrimary(y)|;
    AtSplit(s, p, AsPrimary(y), "'");
    AtChar(s, q1, "'", 0);
    SkipNone(s, q1);
  }

  lemma ParenthesisLayout(e: Expression, s: string, p: nat, q: nat) returns (q0: nat, q1: nat)
    requires (e.And? || e.Or?) && At(s, p, AsPrimary(e)) && q == p + |AsPrimary(e)|
    requires !IsDigit(Next(s, q))
    ensures q0 == p + 1 && q1 == q0 + |Printed(e)| && q == q1 + 1
    ensures At(s, q0, Printed(e)) && q1 < |s| && s[p] == '(' && s[q1] == ')'
    ensures var c := Next(s, q1);
      !IsDigit(c) && c != '\'' && !StartsPrimary(c) && c != '&' && c != '*'
  {
    q0 := p + 1;
    q1 := q0 + |Printed(e)|;
    AtSplit(s, p, "(" + Printed(e), ")");
    AtSplit(s, p, "(", Printed(e));
    AtChar(s, p, "(", 0);
    AtChar(s, q1, ")", 0);
    SkipNone(s, q1);
  }

  lemma JuxtaposedLayout(e: Expression, s: string, p: nat, q: nat) returns (q1: nat)
    requires e.And? && !e.left.Constant? && !e.right.Constant?
    requires Reparseable(e) && At(s, p, AsTerm(e)) && q == p + |AsTerm(e)|
    ensures q1 == p + |AsTerm(e.left)| && q == q1 + |AsPrimary(e.right)|
    ensures Reparseable(e.left) && Reparseable(e.right)
    ensures At(s, p, AsTerm(e.left)) && !IsDigit(Next(s, q1)) && Next(s, q1) != '\''
    ensures At(s, q1, AsPrimary(e.right))
    ensures p <= q1 < q <= |s| && StartsPrimary(s[q1])
    ensures Done(e) == Done(e.left) && Factor(e) == And(Factor(e.left), Reparsed(e.right))
  {
    ShapeAnd(e);
    var l, r := e.left, e.right;
    q1 := p + |AsTerm(l)|;
    AtSplit(s, p, AsTerm(l), AsPrimary(r));
    PrimaryStart(r);
    AtChar(s, q1, AsPrimary(r), 0);
    SkipNone(s, q1);
  }

  lemma StarLayout(e: Expression, s: string, p: nat, q: nat) returns (q1: nat, q2: nat)
    requires e.And? && (e.left.Constant? || e.right.Constant?)
    requires Reparseable(e) && At(s, p, AsTerm(e)) && q == p + |AsTerm(e)|
    ensures q1 == p + |AsTerm(e.left)| && q2 == q1 + 3 && q == q2 + |AsPrimary(e.right)|
    ensures Reparseable(e.left) && Reparseable(e.right)
    ensures At(s, p, AsTerm(e.left)) && !IsDigit(Next(s, q1)) && Next(s, q1) != '\''
    ensures At(s, q2, AsPrimary(e.right))
    ensures p <= q1 && q2 < q <= |s|
    ensures s[q1] == ' ' && s[q1 + 1] == '*' && s[q1 + 2] == ' ' && !IsSpace(s[q2])
    ensures Done(e) == Some(Join(Done(e.left), Factor(e.left))) && Factor(e) == Reparsed(e.right)
  {
    ShapeAnd(e);
    PrimaryNonEmpty(e.right);
    OperatorSpan(s, p, AsTerm(e.left), '*', AsPrimary(e.right));
    q1 := p + |AsTerm(e.left)|;
    q2 := q1 + 3;
  }

  lemma OrLayout(e: Expression, s: string, p: nat, q: nat) returns (q1: nat, q2: nat)
    requires e.Or? && Reparseable(e) && At(s, p, Printed(e)) && q == p + |Printed(e)|
    ensures q1 == p + |Printed(e.left)| && q2 == q1 + 3 && q == q2 + |AsTerm(e.right)|
    ensures Reparseable(e.left) && Reparseable(e.right) && At(s, p, Printed(e.left))
    ensures var c := Next(s, q1);
      !IsDigit(c) && c != '\'' && !StartsPrimary(c) && c != '&' && c != '*'
    ensures At(s, q2, AsTerm(e.right))
    ensures p <= q1 && q2 < q <= |s|
    ensures s[q1] == ' ' && s[q1 + 1] == '+' && s[q1 + 2] == ' ' && !IsSpace(s[q2])
    ensures Reparsed(e) == Or(Reparsed(e.left), Join(Done(e.right), Factor(e.right)))
  {
    ShapeOr(e);
    PrimaryNonEmpty(e.right);
    OperatorSpan(s, p, Printed(e.left), '+', AsTerm(e.right));
    q1 := p + |Printed(e.left)|;
    q2 := q1 + 3;
  }

  /** The primary parser, at a parenthesis whose contents parse to `x` up to the closing one. */
  lemma ParenthesisCombine(s: string, p: nat, q0: nat, q1: nat, q: nat, x: Expression)
    requires q0 == p + 1 && q0 <= q1 < |s| && q == q1 + 1 && s[p] == '(' && s[q1] == ')'
    requires ParseExpression(s, q0) == ExpressionRest(s, x, q1)
    ensures ParsePrimary(s, p) == Postfix(s, x, q)
  {
    SkipNone(s, q1);
    ExpressionRestStop(s, x, q1);
    AtomParenthesis(s, p);
    PrimaryByAtom(s, p);
  }

  lemma JoinAnd(done: Option<Expression>, a: Expression, b: Expression, env: Option<Environment>)
    ensures Evaluate(Join(done, And(a, b)), env) == (Evaluate(Join(done, a), env) && Evaluate(b, env))
  {
  }

  lemma SameFactorLoop(s: string, done: Option<Expression>, a: Expression, k: nat, b: Expression, k2: nat)
    requires k <= |s| && k2 <= |s| && FactorRest(s, a, k) == FactorRest(s, b, k2)
    ensures TermAfterFactor(s, done, a, k) == TermAfterFactor(s, done, b, k2)
  {
  }

  /** The printed form of an operand that is neither a constant nor a negated constant
    * starts with a parenthesis or a letter. */
  lemma {:induction false} PrimaryStart(e: Expression)
    requires !e.Constant? && !NegatedConstant(e)
    ensures |AsPrimary(e)| > 0 && StartsPrimary(AsPrimary(e)[0])
  {
    PrintShapes(e);
    if e.Not? {
      PrintShapes(e.operand);
      if !e.operand.And? && !e.operand.Or? {
        PrimaryStart(e.operand);
      }
    }
  }

  lemma {:induction false} PrimaryNonEmpty(e: Expression)
    ensures |AsPrimary(e)| > 0 && |AsTerm(e)| > 0 && |Printed(e)| > 0
    ensures !IsSpace(AsPrimary(e)[0]) && !IsSpace(AsTerm(e)[0]) && !IsSpace(Printed(e)[0])
  {
    PrintShapes(e);
    match e
    case Constant(_) =>
    case Variable(_) =>
    case Not(x) => PrimaryNonEmpty(x);
    case And(l, r) => PrimaryNonEmpty(l);
    case Or(l, r) => PrimaryNonEmpty(l);
  }

  lemma AtSplit(s: string, p: nat, a: string, b: string)
    requires At(s, p, a + b)
    ensures At(s, p, a) && At(s, p + |a|, b)
  {
    assert s[p..p + |a|] == (a + b)[..|a|];
    assert s[p + |a|..p + |a| + |b|] == (a + b)[|a|..];
  }

  /** The text around a binary operator printed as `a`, ` `, `op`, ` `, `b`. */
  lemma OperatorLayout(s: string, p: nat, a: string, op: char, b: string)
    requires At(s, p, a + [' ', op, ' '] + b)
    ensures At(s, p, a) && At(s, p + |a| + 3, b)
    ensures s[p + |a|] == ' ' && s[p + |a| + 1] == op && s[p + |a| + 2] == ' '
  {
    AtSplit(s, p, a + [' ', op, ' '], b);
    AtSplit(s, p, a, [' ', op, ' ']);
    AtChar(s, p + |a|, [' ', op, ' '], 0);
    AtChar(s, p + |a|, [' ', op, ' '], 1);
    AtChar(s, p + |a|, [' ', op, ' '], 2);
  }

  lemma AtChar(s: string, p: nat, w: string, k: nat)
    requires At(s, p, w) && k < |w|
    ensures s[p + k] == w[k]
  {
    assert s[p..p + |w|][k] == s[p + k];
  }

  lemma SkipNone(s: string, p: nat)
    requires p <= |s| && !IsSpace(Peek(s, p))
    ensures SkipSpaces(s, p) == p
  {
  }

  lemma SkipOne(s: string, p: nat)
    requires p + 1 <= |s| && s[p] == ' ' && !IsSpace(Peek(s, p + 1))
    ensures SkipSpaces(s, p) == p + 1
  {
    assert SpaceEnd(s, p) == SpaceEnd(s, p + 1);
  }

  lemma SkipIdempotent(s: string, p: nat)
    requires p <= |s|
    ensures SkipSpaces(s, SkipSpaces(s, p)) == SkipSpaces(s, p)
  {
    SkipNone(s, SkipSpaces(s, p));
  }

  lemma PrimarySkip(s: string, p: nat)
    requires p <= |s|
    ensures ParsePrimary(s, p) == ParsePrimary(s, SkipSpaces(s, p))
    ensures ParseFactor(s, p) == ParseFactor(s, SkipSpaces(s, p))
    ensures ParseTerm(s, p) == ParseTerm(s, SkipSpaces(s, p))
  {
    SkipIdempotent(s, p);
  }

  lemma RestSkip(s: string, acc: Expression, p: nat)
    requires p <= |s|
    ensures FactorRest(s, acc, p) == FactorRest(s, acc, SkipSpaces(s, p))
    ensures ExpressionRest(s, acc, p) == ExpressionRest(s, acc, SkipSpaces(s, p))
  {
    SkipIdempotent(s, p);
  }

  /** Without a `'` ahead the postfix loop only skips white space. */
  lemma PostfixStop(s: string, x: Expression, q: nat)
    requires q <= |s| && Next(s, q) != '\''
    ensures Postfix(s, x, q) == Parsed(x, SkipSpaces(s, q))
  {
  }

  lemma PostfixQuote(s: string, x: Expression, q: nat, q': nat)
    requires q < |s| && s[q] == '\'' && q' == q + 1
    ensures Postfix(s, x, q) == Postfix(s, Not(x), q')
  {
    SkipNone(s, q);
  }

  lemma PrimaryByAtom(s: string, p: nat)
    requires p <= |s| && !IsSpace(Peek(s, p)) && Peek(s, p) != '!'
    ensures ParsePrimary(s, p) == Postfix(s, ParseAtom(s, p).expression, ParseAtom(s, p).position)
  {
    SkipNone(s, p);
  }

  lemma AtomParenthesis(s: string, p: nat)
    requires p < |s| && s[p] == '('
    ensures var inner := ParseExpression(s, p + 1);
      Peek(s, inner.position) == ')' ==> ParseAtom(s, p) == Parsed(inner.expression, inner.position + 1)
  {
    SkipNone(s, p);
    var inner := ParseExpression(s, p + 1);
    if Peek(s, inner.position) == ')' {
      SkipNone(s, inner.position);
    }
  }

  lemma AtomLetter(s: string, p: nat)
    requires p < |s| && IsAlpha(s[p])
    ensures ParseAtom(s, p) == Parsed(Variable(s[p]), p + 1)
  {
    SkipNone(s, p);
  }

  lemma AtomConstant(s: string, p: nat, v: bool)
    requires At(s, p, Decimal(if v then 1 else 0))
    requires !IsDigit(Next(s, p + 1))
    ensures ParseAtom(s, p) == Parsed(Constant(v), p + 1)
  {
    var d := Decimal(if v then 1 else 0);
    AtChar(s, p, d, 0);
    SkipNone(s, p);
    if p + 1 < |s| && !IsSpace(s[p + 1]) {
      SkipNone(s, p + 1);
    }
    ScanDecimal(s, p, p, if v then 1 else 0);
  }

  lemma FactorRestPrimary(s: string, acc: Expression, q: nat)
    requires q < |s| && StartsPrimary(s[q])
    ensures var next := ParsePrimary(s, q);
      FactorRest(s, acc, q) == FactorRest(s, And(acc, next.expression), next.position)
  {
    SkipNone(s, q);
  }

  lemma TermRestStar(s: string, acc: Expression, q: nat)
    requires q < |s| && s[q] == '*'
    ensures var next := ParseFactor(s, q + 1);
      TermRest(s, acc, q) == TermRest(s, And(acc, next.expression), next.position)
  {
    SkipNone(s, q);
  }

  lemma ExpressionRestPlus(s: string, acc: Expression, q: nat)
    requires q + 1 < |s| && s[q] == ' ' && s[q + 1] == '+'
    ensures var next := ParseTerm(s, q + 2);
      ExpressionRest(s, acc, q) == ExpressionRest(s, Or(acc, next.expression), next.position)
  {
    SkipOne(s, q);
  }

  /** A factor whose first primary parsed back continues with the factor loop. */
  lemma FactorAfterPrimary(s: string, k: nat, x: Expression, q: nat)
    requires k <= q <= |s| && Next(s, q) != '\''
    requires ParsePrimary(s, k) == Postfix(s, x, q)
    ensures ParseFactor(s, k) == FactorRest(s, x, q)
  {
    PostfixStop(s, x, q);
    RestSkip(s, x, q);
  }

  /** After a `*` and a space, the next factor starts with a primary that parses back. */
  lemma StarStep(s: string, acc: Expression, k: nat, x: Expression, q: nat)
    requires k + 2 < q <= |s| && s[k] == '*' && s[k + 1] == ' ' && !IsSpace(s[k + 2])
    requires ParsePrimary(s, k + 2) == Postfix(s, x, q) && Next(s, q) != '\''
    ensures TermRest(s, acc, k) == TermAfterFactor(s, Some(acc), x, q)
  {
    TermRestStar(s, acc, k);
    SkipOne(s, k + 1);
    PrimarySkip(s, k + 1);
    FactorAfterPrimary(s, k + 2, x, q);
  }

  lemma FactorRestStop(s: string, acc: Expression, q: nat)
    requires q <= |s| && !StartsPrimary(Next(s, q))
    ensures FactorRest(s, acc, q) == Parsed(acc, SkipSpaces(s, q))
  {
  }

  lemma TermRestStop(s: string, acc: Expression, q: nat)
    requires q <= |s| && Next(s, q) != '&' && Next(s, q) != '*'
    ensures TermRest(s, acc, q) == Parsed(acc, SkipSpaces(s, q))
  {
  }

  lemma ExpressionRestStop(s: string, acc: Expression, q: nat)
    requires q <= |s| && Next(s, q) != '|' && Next(s, q) != '+'
    ensures ExpressionRest(s, acc, q) == Parsed(acc, SkipSpaces(s, q))
  {
  }

  /** Where nothing continues a factor or a term, both chains stop. */
  lemma ChainsStop(s: string, done: Option<Expression>, factor: Expression, q: nat)
    requires q <= |s|
    requires !StartsPrimary(Next(s, q)) && Next(s, q) != '&' && Next(s, q) != '*'
    ensures TermAfterFactor(s, done, factor, q) == Parsed(Join(done, factor), SkipSpaces(s, q))
  {
    FactorRestStop(s, factor, q);
    SkipIdempotent(s, q);
    TermRestStop(s, Join(done, factor), SkipSpaces(s, q));
  }

  /** The term parser, having read the factors up to `q1`, meets " * " and a primary. */
  lemma StarCombine(s: string, p: nat, q1: nat, q2: nat, q: nat, at: Option<Expression>, af: Expression, xr: Expression)
    requires p <= q1 && q2 == q1 + 3 && q2 < q <= |s|
    requires s[q1] == ' ' && s[q1 + 1] == '*' && s[q1 + 2] == ' ' && !IsSpace(s[q2])
    requires ParseTerm(s, p) == TermAfterFactor(s, at, af, q1)
    requires ParsePrimary(s, q2) == Postfix(s, xr, q) && Next(s, q) != '\''
    ensures ParseTerm(s, p) == TermAfterFactor(s, Some(Join(at, af)), xr, q)
  {
    SkipOne(s, q1);
    FactorRestStop(s, af, q1);
    StarStep(s, Join(at, af), q1 + 1, xr, q);
  }

  /** The term parser, having read the factors up to `q1`, meets a primary right away. */
  lemma JuxtaposedCombine(s: string, p: nat, q1: nat, q: nat, at: Option<Expression>, af: Expression, xr: Expression)
    requires p <= q1 < q <= |s| && StartsPrimary(s[q1])
    requires ParseTerm(s, p) == TermAfterFactor(s, at, af, q1)
    requires ParsePrimary(s, q1) == Postfix(s, xr, q) && Next(s, q) != '\''
    ensures ParseTerm(s, p) == TermAfterFactor(s, at, And(af, xr), q)
  {
    SkipNone(s, q1);
    FactorRestPrimary(s, af, q1);
    PostfixStop(s, xr, q);
    RestSkip(s, And(af, xr), q);
    SameFactorLoop(s, at, af, q1, And(af, xr), q);
  }

  /** The expression parser, having read the terms up to `q1`, meets " + " and a term. */
  lemma OrCombine(s: string, p: nat, q1: nat, q2: nat, q: nat, xl: Expression, at: Option<Expression>, af: Expression)
    requires p <= q1 && q2 == q1 + 3 && q2 < q <= |s|
    requires s[q1] == ' ' && s[q1 + 1] == '+' && s[q1 + 2] == ' ' && !IsSpace(s[q2])
    requires ParseExpression(s, p) == ExpressionRest(s, xl, q1)
    requires ParseTerm(s, q2) == TermAfterFactor(s, at, af, q)
    requires !StartsPrimary(Next(s, q)) && Next(s, q) != '&' && Next(s, q) != '*'
    ensures ParseExpression(s, p) == ExpressionRest(s, Or(xl, Join(at, af)), q)
  {
    ExpressionRestPlus(s, xl, q1);
    SkipOne(s, q1 + 2);
    PrimarySkip(s, q1 + 2);
    ChainsStop(s, at, af, q);
    RestSkip(s, Or(xl, Join(at, af)), q);
  }

  /** What the parser builds from the printed text of `e`: the same tree, except that a
    * chain of juxtaposed operands inside a " * " chain is grouped as one factor. */
  function Reparsed(e: Expression): Expression
    decreases e, if e.And? then 1 else 0
  {
    match e
    case Constant(_) => e
    case Variable(_) => e
    case Not(x) => Not(Reparsed(x))
    case And(_, _) => Join(Done(e), Factor(e))
    case Or(l, r) => Or(Reparsed(l), Join(Done(r), Factor(r)))
  }

  /** The conjunction of the " * "-separated factors the term parser has read before the
    * last one, when it has read the printed text of `e`. */
  function Done(e: Expression): Option<Expression>
    decreases e, 0
  {
    if e.And? && (e.left.Constant? || e.right.Constant?) then Some(Join(Done(e.left), Factor(e.left)))
    else if e.And? then Done(e.left)
    else None
  }

  /** The last factor the term parser has read, when it has read the printed text of `e`. */
  function Factor(e: Expression): Expression
    decreases e, if e.And? then 0 else 2
  {
    if e.And? && (e.left.Constant? || e.right.Constant?) then Reparsed(e.right)
    else if e.And? then And(Factor(e.left), Reparsed(e.right))
    else Reparsed(e)
  }

  /** The regrouping changes no value. */
  lemma {:induction false} ReparsedMeaning(e: Expression, env: Option<Environment>)
    ensures Evaluate(Reparsed(e), env) == Evaluate(e, env)
    ensures e.And? ==> Evaluate(Join(Done(e), Factor(e)), env) == Evaluate(e, env)
  {
    match e
    case Constant(_) =>
    case Variable(_) =>
    case Not(x) => ReparsedMeaning(x, env);
    case And(l, r) =>
      ReparsedMeaning(l, env);
      ReparsedMeaning(r, env);
      JoinAnd(Done(l), Factor(l), Reparsed(r), env);
    case Or(l, r) =>
      ReparsedMeaning(l, env);
      ReparsedMeaning(r, env);
  }

  function RankPrimary(e: Expression): nat {
    if e.And? then 2 else if e.Or? then 1 else 0
  }

  function RankTerm(e: Expression): nat {
    if e.And? then 0 else if e.Or? then 2 else 1
  }

  function RankExpression(e: Expression): nat {
    if e.And? then 1 else if e.Or? then 0 else 2
  }

  /** What prints as one primary parses back, leaving the postfix loop to run on what follows. */
  lemma {:induction false} PrimaryAt(e: Expression, s: string, p: nat, q: nat)
    requires Reparseable(e) && At(s, p, AsPrimary(e)) && q == p + |AsPrimary(e)|
    requires !IsDigit(Next(s, q))
    ensures ParsePrimary(s, p) == Postfix(s, Reparsed(e), q)
    decreases e, RankPrimary(e), 1
  {
    PrintShapes(e);
    PrimaryNonEmpty(e);
    AtChar(s, p, AsPrimary(e), 0);
    if e.Constant? {
      PrimaryByAtom(s, p);
      AtomConstant(s, p, e.value);
    } else if e.Variable? {
      PrimaryByAtom(s, p);
      AtomLetter(s, p);
    } else if e.Not? {
      PrimaryAtNot(e, s, p, q);
    } else {
      PrimaryAtParenthesis(e, s, p, q);
    }
  }

  lemma {:induction false} PrimaryAtNot(e: Expression, s: string, p: nat, q: nat)
    requires e.Not? && Reparseable(e) && At(s, p, AsPrimary(e)) && q == p + |AsPrimary(e)|
    requires !IsDigit(Next(s, q))
    ensures ParsePrimary(s, p) == Postfix(s, Reparsed(e), q)
    decreases e, RankPrimary(e), 0
  {
    var q1 := NotLayout(e, s, p, q);
    PrimaryAt(e.operand, s, p, q1);
    PostfixQuote(s, Reparsed(e.operand), q1, q);
  }

  lemma {:induction false} PrimaryAtParenthesis(e: Expression, s: string, p: nat, q: nat)
    requires (e.And? || e.Or?) && Reparseable(e) && At(s, p, AsPrimary(e)) && q == p + |AsPrimary(e)|
    requires !IsDigit(Next(s, q))
    ensures ParsePrimary(s, p) == Postfix(s, Reparsed(e), q)
    decreases e, RankPrimary(e), 0
  {
    var q0, q1 := ParenthesisLayout(e, s, p, q);
    ExpressionAt(e, s, q0, q1);
    ParenthesisCombine(s, p, q0, q1, q, Reparsed(e));
  }

  /** What prints as a chain of factors parses back, leaving the term parser inside its
    * last factor. */
  lemma {:induction false} TermAt(e: Expression, s: string, p: nat, q: nat)
    requires Reparseable(e) && At(s, p, AsTerm(e)) && q == p + |AsTerm(e)|
    requires !IsDigit(Next(s, q)) && Next(s, q) != '\''
    ensures ParseTerm(s, p) == TermAfterFactor(s, Done(e), Factor(e), q)
    decreases e, RankTerm(e), 1
  {
    PrintShapes(e);
    if e.And? {
      if e.left.Constant? || e.right.Constant? {
        TermAtStar(e, s, p, q);
      } else {
        TermAtJuxtaposed(e, s, p, q);
      }
    } else {
      PrimaryAt(e, s, p, q);
      FactorAfterPrimary(s, p, Reparsed(e), q);
    }
  }

  lemma {:induction false} TermAtJuxtaposed(e: Expression, s: string, p: nat, q: nat)
    requires e.And? && !e.left.Constant? && !e.right.Constant?
    requires Reparseable(e) && At(s, p, AsTerm(e)) && q == p + |AsTerm(e)|
    requires !IsDigit(Next(s, q)) && Next(s, q) != '\''
    ensures ParseTerm(s, p) == TermAfterFactor(s, Done(e), Factor(e), q)
    decreases e, RankTerm(e), 0
  {
    var q1 := JuxtaposedLayout(e, s, p, q);
    TermAt(e.left, s, p, q1);
    PrimaryAt(e.right, s, q1, q);
    JuxtaposedCombine(s, p, q1, q, Done(e.left), Factor(e.left), Reparsed(e.right));
  }

  lemma {:induction false} TermAtStar(e: Expression, s: string, p: nat, q: nat)
    requires e.And? && (e.left.Constant? || e.right.Constant?)
    requires Reparseable(e) && At(s, p, AsTerm(e)) && q == p + |AsTerm(e)|
    requires !IsDigit(Next(s, q)) && Next(s, q) != '\''
    ensures ParseTerm(s, p) == TermAfterFactor(s, Done(e), Factor(e), q)
    decreases e, RankTerm(e), 0
  {
    var q1, q2 := StarLayout(e, s, p, q);
    TermAt(e.left, s, p, q1);
    PrimaryAt(e.right, s, q2, q);
    StarCombine(s, p, q1, q2, q, Done(e.left), Factor(e.left), Reparsed(e.right));
  }

  /** What prints as a chain of terms parses back, leaving the expression parser's loop
    * to run on what follows. */
  lemma {:induction false} ExpressionAt(e: Expression, s: string, p: nat, q: nat)
    requires Reparseable(e) && At(s, p, Printed(e)) && q == p + |Printed(e)|
    requires var c := Next(s, q);
      !IsDigit(c) && c != '\'' && !StartsPrimary(c) && c != '&' && c != '*'
    ensures ParseExpression(s, p) == ExpressionRest(s, Reparsed(e), q)
    decreases e, RankExpression(e), 1
  {
    PrintShapes(e);
    if e.Or? {
      ExpressionAtOr(e, s, p, q);
    } else {
      TermAt(e, s, p, q);
      ChainsStop(s, Done(e), Factor(e), q);
      RestSkip(s, Join(Done(e), Factor(e)), q);
    }
  }

  lemma {:induction false} ExpressionAtOr(e: Expression, s: string, p: nat, q: nat)
    requires e.Or? && Reparseable(e) && At(s, p, Printed(e)) && q == p + |Printed(e)|
    requires var c := Next(s, q);
      !IsDigit(c) && c != '\'' && !StartsPrimary(c) && c != '&' && c != '*'
    ensures ParseExpression(s, p) == ExpressionRest(s, Reparsed(e), q)
    decreases e, RankExpression(e), 0
  {
    var q1, q2 := OrLayout(e, s, p, q);
    ExpressionAt(e.left, s, p, q1);
    TermAt(e.right, s, q2, q);
    OrCombine(s, p, q1, q2, q, Reparsed(e.left), Done(e.right), Factor(e.right));
  }

  /** Parsing the printed text gives back the regrouped tree. */
  lemma PrintParse(e: Expression)
    requires Reparseable(e)
    ensures FromString(ToString(e)) == Reparsed(e)
  {
    PrintedIsToString(e);
    var s := Printed(e);
    assert At(s, 0, s);
    ExpressionAt(e, s, 0, |s|);
    ExpressionRestStop(s, Reparsed(e), |s|);
  }

  /** Hence the printed text, parsed back, has the value of the expression under every
    * environment. */
  lemma PrintParseMeaning(e: Expression, env: Option<Environment>)
    requires Reparseable(e)
    ensures Evaluate(FromString(ToString(e)), env) == Evaluate(e, env)
  {
    PrintParse(e);
    ReparsedMeaning(e, env);
  }

  /** Why `Reparseable` is needed: a conjunction whose right operand is a negated
    * constant prints without " * ", and the factor loop does not continue at a digit,
    * so the parser stops after the left operand and the rest of the text is ignored. */
  lemma PrintedNegatedConstantIsLost()
    ensures var e := And(Variable('a'), Not(Constant(true)));
      && !Reparseable(e)
      && ToString(e) == "a1'"
      && FromString("a1'") == Variable('a')
      && Evaluate(FromString(ToString(e)), Some(Set(New(), 'a', true))) != Evaluate(e, Some(Set(New(), 'a', true)))
  {
    var e := And(Variable('a'), Not(Constant(true)));
    var s := "a1'";
    PrintedIsToString(e);
    assert Printed(e) == s;
    assert SkipSpaces(s, 0) == 0;
    assert SkipSpaces(s, 1) == 1;
    assert ParseAtom(s, 0) == Parsed(Variable('a'), 1);
    assert Postfix(s, Variable('a'), 1) == Parsed(Variable('a'), 1);
    assert ParsePrimary(s, 0) == Parsed(Variable('a'), 1);
    assert FactorRest(s, Variable('a'), 1) == Parsed(Variable('a'), 1);
    assert TermRest(s, Variable('a'), 1) == Parsed(Variable('a'), 1);
    assert ExpressionRest(s, Variable('a'), 1) == Parsed(Variable('a'), 1);
  }
}
