/**
 * `struct boolean_variables`: the ordered list of variable names a function is
 * written over. It is read from a comma-separated text, printed back as one, or
 * gathered from the names an expression uses.
 */
module Variables {
  import opened Bits
  import opened Text
  import opened Environments
  import opened Expressions

  /** `boolean_variables_clone`: a copy of the same length holding the same names. */
  function Clone(v: seq<char>): (r: seq<char>)
    ensures |r| == |v|
    ensures forall k :: 0 <= k < |v| ==> r[k] == v[k]
  {
    v
  }

  /** The number of commas in `s` from position `k` on. */
  function Commas(s: string, k: nat): (n: nat)
    requires k <= |s|
    ensures n <= |s| - k
    decreases |s| - k
  {
    if k == |s| then 0 else (if s[k] == ',' then 1 else 0) + Commas(s, k + 1)
  }

  lemma {:induction false} CommasMonotone(s: string, k: nat, c: nat)
    requires k <= c <= |s|
    ensures Commas(s, c) <= Commas(s, k)
    decreases c - k
  {
    if k < c {
      CommasMonotone(s, k + 1, c);
    }
  }

  /** A comma at or after `k` leaves fewer commas after it. */
  lemma CommaCounted(s: string, k: nat, c: nat)
    requires k <= c < |s| && s[c] == ','
    ensures Commas(s, c + 1) < Commas(s, k)
  {
    CommasMonotone(s, k, c);
  }

  /** What the loop of `boolean_variables_from_string` appends from position `k` on:
    * after skipping white space it takes one character, whatever it is, and resumes
    * after the first comma that follows that character. */
  function Parse(s: string, k: nat): (v: seq<char>)
    requires k <= |s|
    decreases |s| - k
  {
    var j := SpaceEnd(s, k);
    if j == |s| then []
    else
      match IndexOf(s, j + 1, ',')
      case None => [s[j]]
      case Some(c) => [s[j]] + Parse(s, c + 1)
  }

  /** Only white space is left from `k` on. */
  lemma ParseEmpty(s: string, k: nat)
    requires k <= |s| && SpaceEnd(s, k) == |s|
    ensures Parse(s, k) == []
  {
  }

  /** The name at `j`, after the white space from `k`, is followed by a comma at `c`. */
  lemma ParseNext(s: string, k: nat, j: nat, c: nat)
    requires k <= |s| && j == SpaceEnd(s, k) < |s| && IndexOf(s, j + 1, ',') == Some(c)
    ensures Parse(s, k) == [s[j]] + Parse(s, c + 1)
  {
  }

  /** The name at `j`, after the white space from `k`, is the last one. */
  lemma ParseLast(s: string, k: nat, j: nat)
    requires k <= |s| && j == SpaceEnd(s, k) < |s| && IndexOf(s, j + 1, ',') == None
    ensures Parse(s, k) == [s[j]]
  {
  }

  /** Each name the parse takes is followed by a comma, except perhaps the last, so
    * there are at most one more names than commas. */
  lemma {:induction false} ParseLength(s: string, k: nat)
    requires k <= |s|
    ensures |Parse(s, k)| <= Commas(s, k) + 1
    decreases |s| - k
  {
    var j := SpaceEnd(s, k);
    if j < |s| {
      match IndexOf(s, j + 1, ',')
      case None =>
      case Some(c) =>
        ParseLength(s, c + 1);
        CommasMonotone(s, k, c);
    }
  }

  /** The item holds only white space. */
  predicate Blank(w: string) {
    SpaceEnd(w, 0) == |w|
  }

  /** The name taken from an item that is not blank: its first character after the
    * leading white space. */
  function Name(w: string): char
    requires !Blank(w)
  {
    w[SpaceEnd(w, 0)]
  }

  /** No item before the last is blank. */
  predicate NoBlankBeforeLast(items: seq<string>) {
    forall k :: 0 <= k < |items| - 1 ==> !Blank(items[k])
  }

  /** As many names as items, less a blank last item. */
  predicate CountsNames(v: seq<char>, items: seq<string>) {
    |items| >= 1 && |v| == (if Blank(items[|items| - 1]) then |items| - 1 else |items|)
  }

  /** Each name is the name of the item at the same place. */
  predicate NamedBy(v: seq<char>, items: seq<string>) {
    |v| <= |items| && forall k :: 0 <= k < |v| ==> !Blank(items[k]) && v[k] == Name(items[k])
  }

  /** The item from `k`, which is not blank, ends at the comma at `i`. */
  lemma FirstName(s: string, k: nat, i: nat)
    requires k <= i < |s| && s[i] == ','
    requires forall x :: k <= x < i ==> s[x] != ','
    requires !Blank(s[k..i])
    ensures Parse(s, k) == [Name(s[k..i])] + Parse(s, i + 1)
  {
    assert s[k..i] == s[..i][k..];
    SpaceEndShift(s[..i], k, 0);
    SpaceEndPrefix(s, i, k);
    var j := SpaceEnd(s, k);
    IndexOfAt(s, j + 1, i, ',');
    ParseNext(s, k, j, i);
  }

  /** No comma follows `k`: the rest of the text is the last item. */
  lemma LastName(s: string, k: nat)
    requires k <= |s|
    requires forall x :: k <= x < |s| ==> s[x] != ','
    ensures Parse(s, k) == if Blank(s[k..]) then [] else [Name(s[k..])]
  {
    SpaceEndShift(s, k, 0);
    var j := SpaceEnd(s, k);
    if j < |s| {
      IndexOfNone(s, j + 1, ',');
      ParseLast(s, k, j);
    }
  }

  /** One more item in front, and its name in front. */
  lemma NamedByCons(x: char, v: seq<char>, w: string, items: seq<string>)
    requires CountsNames(v, items) && NamedBy(v, items) && !Blank(w) && x == Name(w)
    ensures CountsNames([x] + v, [w] + items) && NamedBy([x] + v, [w] + items)
  {
    forall k | 1 <= k < |v| + 1
      ensures !Blank(([w] + items)[k]) && ([x] + v)[k] == Name(([w] + items)[k])
    {
      assert ([x] + v)[k] == v[k - 1];
    }
  }

  /** No comma follows `k`: the rest of the text is one item, which gives its name
    * unless it is blank. */
  lemma NamesOfLastItem(s: string, k: nat)
    requires k <= |s| && IndexOf(s, k, ',') == None
    ensures CountsNames(Parse(s, k), Split(s[k..]))
    ensures NamedBy(Parse(s, k), Split(s[k..]))
  {
    IndexOfFirst(s, k, ',');
    LastName(s, k);
    SplitRest(s, k);
  }

  /** The item from `k`, which is not blank, ends at the comma at `i`: its name goes in
    * front of the names of the items after it. */
  lemma NamesOfFirstItem(s: string, k: nat, i: nat)
    requires k <= |s| && IndexOf(s, k, ',') == Some(i) && !Blank(s[k..i])
    requires CountsNames(Parse(s, i + 1), Split(s[i + 1..]))
    requires NamedBy(Parse(s, i + 1), Split(s[i + 1..]))
    ensures CountsNames(Parse(s, k), Split(s[k..]))
    ensures NamedBy(Parse(s, k), Split(s[k..]))
  {
    IndexOfFirst(s, k, ',');
    FirstName(s, k, i);
    SplitAt(s, k, i);
    NamedByCons(Name(s[k..i]), Parse(s, i + 1), s[k..i], Split(s[i + 1..]));
  }

  /** The first of several items is not blank, nor any other before the last. */
  lemma NoBlankTail(w: string, rest: seq<string>)
    requires |rest| >= 1 && NoBlankBeforeLast([w] + rest)
    ensures !Blank(w) && NoBlankBeforeLast(rest)
  {
    assert ([w] + rest)[0] == w;
    forall k | 0 <= k < |rest| - 1
      ensures !Blank(rest[k])
    {
      assert ([w] + rest)[k + 1] == rest[k];
    }
  }

  /** `ItemNames` for the text from `k` on. */
  lemma {:induction false} ItemNamesFrom(s: string, k: nat)
    requires k <= |s| && NoBlankBeforeLast(Split(s[k..]))
    ensures CountsNames(Parse(s, k), Split(s[k..]))
    ensures NamedBy(Parse(s, k), Split(s[k..]))
    decreases |s| - k
  {
    match IndexOf(s, k, ',')
    case None =>
      NamesOfLastItem(s, k);
    case Some(i) =>
      SplitAt(s, k, i);
      NoBlankTail(s[k..i], Split(s[i + 1..]));
      ItemNamesFrom(s, i + 1);
      NamesOfFirstItem(s, k, i);
  }

  /** Item by item, when no item before the last is blank: each comma-separated item
    * gives the first character after its leading white space, in order, and a blank
    * last item gives nothing. */
  lemma ItemNames(s: string)
    requires NoBlankBeforeLast(Split(s))
    ensures CountsNames(Parse(s, 0), Split(s))
    ensures NamedBy(Parse(s, 0), Split(s))
  {
    assert s[0..] == s;
    ItemNamesFrom(s, 0);
  }

  /** The first loop of `boolean_variables_from_string`: one more than the number of
    * commas, the most names the text can hold. */
  method Capacity(s: string) returns (length: nat)
    ensures length == Commas(s, 0) + 1
  {
    length := 1;
    for i := 0 to |s|
      invariant length == 1 + Commas(s, 0) - Commas(s, i)
    {
      CommasMonotone(s, 0, i + 1);
      if s[i] == ',' {
        length := length + 1;
      }
    }
  }

  /** `boolean_variables_from_string`: the comma count sizes the list, then each item
    * contributes the first character after its leading white space. */
  method FromString(s: string) returns (v: seq<char>)
    ensures v == Parse(s, 0)
    ensures |v| <= Commas(s, 0) + 1
    ensures NoBlankBeforeLast(Split(s)) ==> CountsNames(v, Split(s)) && NamedBy(v, Split(s))
  {
    if NoBlankBeforeLast(Split(s)) {
      ItemNames(s);
    }
    var length := Capacity(s);
    v := [];
    var i := 0;
    while i < |s|
      invariant i <= |s|
      invariant v + Parse(s, i) == Parse(s, 0)
      invariant |v| + Commas(s, i) <= Commas(s, 0)
      decreases |s| - i
    {
      var start := i;
      while i < |s| && IsSpace(s[i])
        invariant start <= i <= |s|
        invariant SpaceEnd(s, i) == SpaceEnd(s, start)
        decreases |s| - i
      {
        i := i + 1;
      }
      assert SpaceEnd(s, start) == i;
      if i == |s| {
        ParseEmpty(s, start);
        break;
      }
      assert |v| < length;
      match IndexOf(s, i + 1, ',')
      case None =>
        ParseLast(s, start, i);
        v := v + [s[i]];
        break;
      case Some(c) =>
        ParseNext(s, start, i, c);
        assert v + [s[i]] + Parse(s, c + 1) == v + ([s[i]] + Parse(s, c + 1));
        v := v + [s[i]];
        CommaCounted(s, start, c);
        i := c + 1;
    }
  }

  /** The text `boolean_variables_to_string_` prints: the names separated by ", ". */
  function Joined(v: seq<char>): string {
    if |v| == 0 then ""
    else if |v| == 1 then [v[0]]
    else [v[0]] + ", " + Joined(v[1..])
  }

  lemma {:induction false} JoinedSnoc(v: seq<char>, i: nat)
    requires 1 <= i < |v|
    ensures Joined(v[..i + 1]) == Joined(v[..i]) + ", " + [v[i]]
    decreases i
  {
    if i > 1 {
      JoinedSnoc(v[1..], i - 1);
      assert v[1..][..i] == v[..i + 1][1..];
      assert v[1..][..i - 1] == v[..i][1..];
    } else {
      assert v[..2][1..] == [v[1]];
    }
  }

  /** `boolean_variables_to_string`. */
  method ToString(v: seq<char>) returns (s: string)
    ensures s == Joined(v)
  {
    s := "";
    for i := 0 to |v|
      invariant s == Joined(v[..i])
    {
      if i != 0 {
        s := s + ", ";
        JoinedSnoc(v, i);
      }
      s := s + [v[i]];
    }
    assert v[..|v|] == v;
  }

  /** Printed names read back from any position where the printed text starts. */
  lemma {:induction false} ParseJoined(s: string, p: nat, w: seq<char>)
    requires p <= |s| && s[p..] == Joined(w)
    requires forall k :: 0 <= k < |w| ==> !IsSpace(w[k]) && w[k] != ','
    ensures Parse(s, p) == w
    decreases |w|
  {
    if |w| > 0 {
      assert s[p] == s[p..][0] == w[0];
      assert SpaceEnd(s, p) == p;
      if |w| > 1 {
        assert s[p + 1] == s[p..][1] == ',';
        assert s[p + 2] == s[p..][2] == ' ';
        assert s[p + 3..] == s[p..][3..] == Joined(w[1..]);
        assert s[p + 3] == w[1];
        assert SpaceEnd(s, p + 2) == SpaceEnd(s, p + 3) == p + 3;
        ParseJoined(s, p + 3, w[1..]);
      }
    }
  }

  /** Printing a list whose entries are neither white space nor commas and reading it
    * back gives the same list. */
  lemma RoundTrip(v: seq<char>)
    requires forall k :: 0 <= k < |v| ==> !IsSpace(v[k]) && v[k] != ','
    ensures Parse(Joined(v), 0) == v
  {
    var s := Joined(v);
    assert s[0..] == s;
    ParseJoined(s, 0, v);
  }

  /** An empty item is not skipped: the parse takes the comma that ends it, and the
    * item after it is lost. */
  lemma EmptyItemTakesComma(s: string)
    requires s == "a,,b"
    ensures Parse(s, 0) == ['a', ',']
  {
    assert SpaceEnd(s, 0) == 0;
    assert IndexOf(s, 1, ',') == Some(1);
    assert SpaceEnd(s, 2) == 2;
    assert IndexOf(s, 3, ',') == None;
  }

  /** A trailing comma or a blank last item adds nothing, and leading white space and
    * the rest of an item are ignored. */
  lemma BlankLastItem(s: string)
    requires s == " ab , c, "
    ensures Parse(s, 0) == ['a', 'c']
  {
    assert SpaceEnd(s, 0) == 1;
    assert IndexOf(s, 4, ',') == Some(4);
    assert IndexOf(s, 2, ',') == Some(4);
    assert SpaceEnd(s, 5) == 6;
    assert IndexOf(s, 7, ',') == Some(7);
    assert SpaceEnd(s, 8) == 9;
    assert Parse(s, 8) == [];
    assert Parse(s, 5) == ['c'];
  }

  /** `boolean_variables_from_expression_`: sets every name that occurs in `e`, walking
    * the operands of each operation in order. */
  method Mark(e: Expression, env: Environment) returns (r: Environment)
    requires forall n :: n in Names(e) ==> Index(n) < 32
    ensures forall n: Letter :: Index(n) < 32 ==> (Get(r, n) <==> Get(env, n) || n in Names(e))
    ensures env.variables < Pow2(32) ==> r.variables < Pow2(32)
    decreases e, 1
  {
    match e
    case Constant(_) =>
      r := env;
    case Variable(name) =>
      r := Set(env, name, true);
    case _ =>
      r := MarkOperands(e, env);
  }

  /** The loop of `boolean_variables_from_expression_` over the `Arity` operands of an
    * operation. */
  method MarkOperands(e: Expression, env: Environment) returns (r: Environment)
    requires IsOperation(e)
    requires forall n :: n in Names(e) ==> Index(n) < 32
    ensures forall n: Letter :: Index(n) < 32 ==> (Get(r, n) <==> Get(env, n) || n in Names(e))
    ensures env.variables < Pow2(32) ==> r.variables < Pow2(32)
    decreases e, 0
  {
    var operands := Operands(e);
    OperandsArity(e);
    NamesOfOperands(e);
    r := env;
    for i := 0 to |operands|
      invariant forall n: Letter :: Index(n) < 32 ==> (Get(r, n) <==> Get(env, n) || n in NamesOf(operands[..i]))
      invariant env.variables < Pow2(32) ==> r.variables < Pow2(32)
    {
      assert operands[..i + 1] == operands[..i] + [operands[i]];
      NamesOfSnoc(operands[..i], operands[i]);
      assert operands[i] in operands;
      r := Mark(operands[i], r);
    }
    assert operands[..|operands|] == operands;
  }

  /** The names that occur in any of `es`. */
  function NamesOf(es: seq<Expression>): set<Letter> {
    if |es| == 0 then {} else Names(es[0]) + NamesOf(es[1..])
  }

  lemma {:induction false} NamesOfSnoc(es: seq<Expression>, x: Expression)
    ensures NamesOf(es + [x]) == NamesOf(es) + Names(x)
    decreases |es|
  {
    if |es| > 0 {
      assert (es + [x])[1..] == es[1..] + [x];
      NamesOfSnoc(es[1..], x);
    }
  }

  lemma NamesOfOperands(e: Expression)
    requires IsOperation(e)
    ensures NamesOf(Operands(e)) == Names(e)
  {
    match e
    case Not(x) =>
      assert Operands(e)[1..] == [];
    case And(l, r) =>
      assert Operands(e)[1..] == [r] && [r][1..] == [];
      assert NamesOf([r]) == Names(r);
    case Or(l, r) =>
      assert Operands(e)[1..] == [r] && [r][1..] == [];
      assert NamesOf([r]) == Names(r);
  }

  /** The names of `names` with index below `i`, in index order. */
  function Ordered(names: set<Letter>, i: nat): seq<Letter>
    requires i <= 52
  {
    if i == 0 then [] else Ordered(names, i - 1) + (if NameOf(i - 1) in names then [NameOf(i - 1)] else [])
  }

  /** The list holds each of the names exactly once, in increasing index. */
  lemma {:induction false} OrderedNames(names: set<Letter>, i: nat)
    requires i <= 52
    ensures forall k, l :: 0 <= k < l < |Ordered(names, i)| ==> Index(Ordered(names, i)[k]) < Index(Ordered(names, i)[l])
    ensures forall k :: 0 <= k < |Ordered(names, i)| ==> Index(Ordered(names, i)[k]) < i
    ensures forall n: Letter :: n in Ordered(names, i) <==> Index(n) < i && n in names
  {
    if i > 0 {
      OrderedNames(names, i - 1);
      forall n: Letter
        ensures n == NameOf(i - 1) <==> Index(n) == i - 1
      {
        IndexInjective(n, NameOf(i - 1));
      }
    }
  }

  /** A list without repeated names has as many entries as it has names. */
  lemma {:induction false} DistinctCount(v: seq<Letter>)
    requires forall k, l :: 0 <= k < l < |v| ==> v[k] != v[l]
    ensures |set n | n in v| == |v|
  {
    if |v| > 0 {
      var u := v[..|v| - 1];
      DistinctCount(u);
      assert (set n | n in v) == (set n | n in u) + {v[|v| - 1]};
    }
  }

  /** The variables of `e` in the order the engine lists them. */
  function VariablesOf(e: Expression): (v: seq<Letter>)
    ensures forall k, l :: 0 <= k < l < |v| ==> Index(v[k]) < Index(v[l])
    ensures forall n: Letter :: n in v <==> n in Names(e)
    ensures |v| == |Names(e)|
  {
    var v := Ordered(Names(e), 52);
    OrderedNames(Names(e), 52);
    DistinctCount(v);
    assert (set n | n in v) == Names(e);
    v
  }

  /** `boolean_variables_from_expression`: the names that occur in `e`, each once, in
    * index order (a-z, then A-Z). */
  method FromExpression(e: Expression) returns (v: seq<Letter>)
    requires forall n :: n in Names(e) ==> Index(n) < 32
    ensures v == VariablesOf(e)
    ensures forall k, l :: 0 <= k < l < |v| ==> Index(v[k]) < Index(v[l])
    ensures forall n: Letter :: n in v <==> n in Names(e)
  {
    Pow2Monotone(0, 32);
    var env := Mark(e, New());
    v := [];
    for i := 0 to 52
      invariant v == Ordered(Names(e), i)
    {
      var name := NameOf(i);
      if Index(name) >= 32 {
        HighNamesCleared(env, name);
      }
      if Bit(env.variables, i) {
        v := v + [name];
      }
    }
  }
}
