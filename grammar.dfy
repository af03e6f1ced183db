/**
 * Worked inputs of the expression parser, one per rule of the grammar: how tightly
 * each operator binds, that every binary level nests to the left, and how the
 * parser recovers from a missing parenthesis or an unreadable constant. The steps
 * are lemmas about one loop of the parser each.
 */
module GrammarExamples {
  import opened Text
  import opened Expressions
  import opened ExpressionParser

  /** The character at `q` is not white space and is not `c`, or the text ends at `q`. */
  predicate EndsOrNot(s: string, q: nat, c: char -> bool) {
    q == |s| || (q < |s| && !IsSpace(s[q]) && !c(s[q]))
  }

  predicate IsQuote(c: char) { c == '\'' }
  predicate IsTermOperator(c: char) { c == '&' || c == '*' }
  predicate IsExpressionOperator(c: char) { c == '|' || c == '+' }

  /** A letter, not followed by `'`, is a primary. */
  lemma LetterPrimary(s: string, p: nat)
    requires p < |s| && IsAlpha(s[p]) && EndsOrNot(s, p + 1, IsQuote)
    ensures ParsePrimary(s, p) == Parsed(Variable(s[p]), p + 1)
  {
    assert SkipSpaces(s, p) == p;
    assert SkipSpaces(s, p + 1) == p + 1;
    assert ParseAtom(s, p) == Parsed(Variable(s[p]), p + 1);
  }

  /** The factor loop stops before a character that starts no primary. */
  lemma FactorStop(s: string, x: Expression, q: nat)
    requires q <= |s| && EndsOrNot(s, q, StartsPrimary)
    ensures FactorRest(s, x, q) == Parsed(x, q)
  {
    assert SkipSpaces(s, q) == q;
  }

  /** The factor loop conjoins the primary that starts at `q`. */
  lemma FactorStep(s: string, x: Expression, q: nat, y: Expression, r: nat)
    requires q < |s| && StartsPrimary(s[q]) && ParsePrimary(s, q) == Parsed(y, r)
    ensures FactorRest(s, x, q) == FactorRest(s, And(x, y), r)
  {
    assert SkipSpaces(s, q) == q;
  }

  lemma TermStop(s: string, x: Expression, q: nat)
    requires q <= |s| && EndsOrNot(s, q, IsTermOperator)
    ensures TermRest(s, x, q) == Parsed(x, q)
  {
    assert SkipSpaces(s, q) == q;
  }

  /** The term loop conjoins the factor after the operator at `q`. */
  lemma TermStep(s: string, x: Expression, q: nat, y: Expression, r: nat)
    requires q < |s| && IsTermOperator(s[q]) && ParseFactor(s, q + 1) == Parsed(y, r)
    ensures TermRest(s, x, q) == TermRest(s, And(x, y), r)
  {
    assert SkipSpaces(s, q) == q;
  }

  lemma ExpressionStop(s: string, x: Expression, q: nat)
    requires q <= |s| && EndsOrNot(s, q, IsExpressionOperator)
    ensures ExpressionRest(s, x, q) == Parsed(x, q)
  {
    assert SkipSpaces(s, q) == q;
  }

  /** The expression loop disjoins the term after the operator at `q`. */
  lemma ExpressionStep(s: string, x: Expression, q: nat, y: Expression, r: nat)
    requires q < |s| && IsExpressionOperator(s[q]) && ParseTerm(s, q + 1) == Parsed(y, r)
    ensures ExpressionRest(s, x, q) == ExpressionRest(s, Or(x, y), r)
  {
    assert SkipSpaces(s, q) == q;
  }

  /** At the end of the text every loop of the parser stops. */
  lemma AtEnd(s: string, x: Expression)
    ensures Postfix(s, x, |s|) == Parsed(x, |s|)
    ensures FactorRest(s, x, |s|) == Parsed(x, |s|)
    ensures TermRest(s, x, |s|) == Parsed(x, |s|)
    ensures ExpressionRest(s, x, |s|) == Parsed(x, |s|)
  {
    assert SkipSpaces(s, |s|) == |s|;
  }

  /** Juxtaposition binds tighter than `&`: `a&bc` is `a & (b c)`. */
  lemma JuxtapositionBindsTighter(s: string)
    requires s == "a&bc"
    ensures FromString(s) == And(Variable('a'), And(Variable('b'), Variable('c')))
  {
    var a, b, c := Variable('a'), Variable('b'), Variable('c');
    LetterPrimary(s, 0);
    FactorStop(s, a, 1);
    assert ParseFactor(s, 0) == Parsed(a, 1);
    LetterPrimary(s, 2);
    LetterPrimary(s, 3);
    FactorStep(s, b, 3, c, 4);
    AtEnd(s, And(b, c));
    assert ParseFactor(s, 2) == Parsed(And(b, c), 4);
    TermStep(s, a, 1, And(b, c), 4);
    AtEnd(s, And(a, And(b, c)));
    assert ParseTerm(s, 0) == Parsed(And(a, And(b, c)), 4);
  }

  /** `+` binds loosest, and a chain of `+` nests to the left: `a+b+c` is `(a + b) + c`. */
  lemma DisjunctionNestsLeft(s: string)
    requires s == "a+b+c"
    ensures FromString(s) == Or(Or(Variable('a'), Variable('b')), Variable('c'))
  {
    var a, b, c := Variable('a'), Variable('b'), Variable('c');
    LetterTerm(s, 0);
    LetterTerm(s, 2);
    LetterPrimary(s, 4);
    AtEnd(s, c);
    assert ParseFactor(s, 4) == Parsed(c, 5);
    assert ParseTerm(s, 4) == Parsed(c, 5);
    ExpressionStep(s, a, 1, b, 3);
    ExpressionStep(s, Or(a, b), 3, c, 5);
    AtEnd(s, Or(Or(a, b), c));
  }

  /** A letter followed by `+` or `|` is a whole term. */
  lemma LetterTerm(s: string, p: nat)
    requires p + 1 < |s| && IsAlpha(s[p]) && IsExpressionOperator(s[p + 1])
    ensures ParseTerm(s, p) == Parsed(Variable(s[p]), p + 1)
  {
    LetterPrimary(s, p);
    FactorStop(s, Variable(s[p]), p + 1);
    assert ParseFactor(s, p) == Parsed(Variable(s[p]), p + 1);
    TermStop(s, Variable(s[p]), p + 1);
  }

  /** `&` binds tighter than `|`: `a|b&c` is `a | (b & c)`. */
  lemma ConjunctionBindsTighter(s: string)
    requires s == "a|b&c"
    ensures FromString(s) == Or(Variable('a'), And(Variable('b'), Variable('c')))
  {
    var a, b, c := Variable('a'), Variable('b'), Variable('c');
    LetterTerm(s, 0);
    LetterPrimary(s, 2);
    FactorStop(s, b, 3);
    assert ParseFactor(s, 2) == Parsed(b, 3);
    LetterPrimary(s, 4);
    AtEnd(s, c);
    assert ParseFactor(s, 4) == Parsed(c, 5);
    TermStep(s, b, 3, c, 5);
    AtEnd(s, And(b, c));
    assert ParseTerm(s, 2) == Parsed(And(b, c), 5);
    ExpressionStep(s, a, 1, And(b, c), 5);
    AtEnd(s, Or(a, And(b, c)));
  }

  /** A prefix `!` applies to the primary after it, postfix `'` included: `!a'` is
    * `!(a')`. */
  lemma PrefixTakesPostfix(s: string)
    requires s == "!a'"
    ensures FromString(s) == Not(Not(Variable('a')))
  {
    var a := Variable('a');
    assert SkipSpaces(s, 0) == 0;
    assert SkipSpaces(s, 1) == 1;
    assert SkipSpaces(s, 2) == 2;
    assert ParseAtom(s, 1) == Parsed(a, 2);
    AtEnd(s, Not(a));
    AtEnd(s, Not(Not(a)));
    assert Postfix(s, a, 2) == Parsed(Not(a), 3);
    assert ParsePrimary(s, 1) == Parsed(Not(a), 3);
    assert ParsePrimary(s, 0) == Parsed(Not(Not(a)), 3);
    assert ParseFactor(s, 0) == Parsed(Not(Not(a)), 3);
    assert ParseTerm(s, 0) == Parsed(Not(Not(a)), 3);
  }

  /** A missing `)` is tolerated. */
  lemma MissingParenthesis(s: string)
    requires s == "(a+b"
    ensures FromString(s) == Or(Variable('a'), Variable('b'))
  {
    var a, b := Variable('a'), Variable('b');
    LetterTerm(s, 1);
    LetterPrimary(s, 3);
    AtEnd(s, b);
    assert ParseFactor(s, 3) == Parsed(b, 4);
    assert ParseTerm(s, 3) == Parsed(b, 4);
    ExpressionStep(s, a, 2, b, 4);
    AtEnd(s, Or(a, b));
    assert ParseExpression(s, 1) == Parsed(Or(a, b), 4);
    assert SkipSpaces(s, 0) == 0;
    assert ParseAtom(s, 0) == Parsed(Or(a, b), 4);
    assert ParsePrimary(s, 0) == Parsed(Or(a, b), 4);
    assert ParseFactor(s, 0) == Parsed(Or(a, b), 4);
    assert ParseTerm(s, 0) == Parsed(Or(a, b), 4);
  }

  /** Any parenthesised atom: the atom is the inner expression whether or not a `)`
    * follows it, and when none does the parse resumes where the inner expression and
    * the white space after it end. */
  lemma UnclosedParenthesis(s: string, p: nat)
    requires p <= |s| && Peek(s, SkipSpaces(s, p)) == '('
    ensures var inner := ParseExpression(s, SkipSpaces(s, p) + 1);
      var e := SkipSpaces(s, inner.position);
      ParseAtom(s, p).expression == inner.expression &&
      (Peek(s, e) != ')' ==> ParseAtom(s, p).position == e)
  {
  }

  /** A constant is true when it is not zero. */
  lemma NonZeroConstant(s: string)
    requires s == "10"
    ensures FromString(s) == Constant(true)
  {
    assert SpaceEnd(s, 0) == 0;
    assert DigitEnd(s, 0) == 2;
    assert Number(s, 0, 2) == 10;
    AtomAtEnd(s, Constant(true));
  }

  lemma ZeroConstant(s: string)
    requires s == "00"
    ensures FromString(s) == Constant(false)
  {
    assert SpaceEnd(s, 0) == 0;
    assert DigitEnd(s, 0) == 2;
    assert Number(s, 0, 2) == 0;
    AtomAtEnd(s, Constant(false));
  }

  /** Where no constant can be read, the constant is false and nothing is consumed. */
  lemma UnreadableConstant(s: string)
    requires s == "?"
    ensures ParsePrimary(s, 0) == Parsed(Constant(false), 0)
  {
    assert SpaceEnd(s, 0) == 0;
    assert DigitEnd(s, 0) == 0;
    assert SkipSpaces(s, 0) == 0;
    assert ParseAtom(s, 0) == Parsed(Constant(false), 0);
  }

  /** An atom that is the whole text is the whole expression. */
  lemma AtomAtEnd(s: string, x: Expression)
    requires |s| > 0 && !IsSpace(s[0]) && s[0] != '!' && ParseAtom(s, 0) == Parsed(x, |s|)
    ensures FromString(s) == x
  {
    AtEnd(s, x);
    assert SkipSpaces(s, 0) == 0;
    assert ParsePrimary(s, 0) == Parsed(x, |s|);
    assert ParseFactor(s, 0) == Parsed(x, |s|);
    assert ParseTerm(s, 0) == Parsed(x, |s|);
  }
}
