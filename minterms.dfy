/**
 * `struct boolean_minterms`: the assignments, as numbers, under which a function is
 * true. Bit `j` of a minterm is the value of `variables[n - 1 - j]`, so the first
 * variable is the most significant bit.
 */
module Minterms {
  import opened Bits
  import opened Text
  import opened Environments
  import opened Expressions
  import Variables

  /** `boolean_minterms_clone`: a copy of the same length holding the same values. */
  function Clone(m: seq<uint64>): (r: seq<uint64>)
    ensures |r| == |m|
    ensures forall k :: 0 <= k < |m| ==> r[k] == m[k]
  {
    m
  }

  /** What the loop of `boolean_minterms_from_string` reads from position `k` on: the
    * value `strtoumax` reads there (0 when it reads nothing), then the items after the
    * first comma that follows the scan. */
  function Read(s: string, k: nat): Reads<uint64>
    requires k <= |s|
    decreases |s| - k
  {
    if k == |s| then End
    else
      var r := ScanInteger(s, k);
      match IndexOf(s, r.end, ',')
      case None => Item(Unsigned(r), End)
      case Some(c) => Item(Unsigned(r), Read(s, c + 1))
  }

  /** The values the loop stores from position `k` on. */
  function Parse(s: string, k: nat): seq<uint64>
    requires k <= |s|
  {
    Values(Read(s, k))
  }

  /** An item `strtoumax` cannot read contributes 0. */
  lemma UnreadableItem(s: string, k: nat)
    requires k < |s| && ScanInteger(s, k).end == k
    ensures Parse(s, k)[0] == 0
  {
    StrtoumaxValue(s, k);
  }

  /** The item at `k` is followed by a comma at `c`. */
  lemma ReadNext(s: string, k: nat, c: nat)
    requires k < |s| && IndexOf(s, ScanInteger(s, k).end, ',') == Some(c)
    ensures Read(s, k) == Item(Unsigned(ScanInteger(s, k)), Read(s, c + 1))
    ensures Parse(s, k) == [Unsigned(ScanInteger(s, k))] + Parse(s, c + 1)
  {
  }

  /** The item at `k` is the last one. */
  lemma ReadLast(s: string, k: nat)
    requires k < |s| && IndexOf(s, ScanInteger(s, k).end, ',') == None
    ensures Read(s, k) == Item(Unsigned(ScanInteger(s, k)), End)
    ensures Parse(s, k) == [Unsigned(ScanInteger(s, k))]
  {
    var x := Unsigned(ScanInteger(s, k));
    assert Values(Item(x, End)) == [x] + [] == [x];
  }

  /** Storing the item at `k` and moving past the comma at `c` keeps what is stored
    * plus what is still to read. */
  lemma ReadStep(s: string, k: nat, c: nat, m: seq<uint64>, all: seq<uint64>)
    requires k < |s| && IndexOf(s, ScanInteger(s, k).end, ',') == Some(c)
    requires m + Parse(s, k) == all
    ensures m + [Unsigned(ScanInteger(s, k))] + Parse(s, c + 1) == all
  {
    ReadNext(s, k, c);
    assert m + [Unsigned(ScanInteger(s, k))] + Parse(s, c + 1) == m + ([Unsigned(ScanInteger(s, k))] + Parse(s, c + 1));
  }

  /** `boolean_minterms_from_string`: the comma count sizes the list, then each item
    * contributes one value. */
  method FromString(s: string) returns (m: seq<uint64>)
    ensures m == Parse(s, 0)
    ensures |m| <= Variables.Commas(s, 0) + 1
    ensures |m| == (if s == "" || s[|s| - 1] == ',' then |Split(s)| - 1 else |Split(s)|)
    ensures ReadFrom(m, Split(s))
  {
    ItemValues(s);
    var length := Variables.Capacity(s);
    ghost var all := Parse(s, 0);
    ghost var commas := Variables.Commas(s, 0);
    m := [];
    var i := 0;
    while i < |s|
      invariant i <= |s|
      invariant m + Parse(s, i) == all
      invariant |m| + Variables.Commas(s, i) <= commas
      decreases |s| - i
    {
      assert |m| < length;
      var r := ScanInteger(s, i);
      var value := Unsigned(r);
      var end := r.end;
      match IndexOf(s, end, ',')
      case None =>
        ReadLast(s, i);
        m := m + [value];
        break;
      case Some(c) =>
        ReadStep(s, i, c, m, all);
        m := m + [value];
        Variables.CommaCounted(s, i, c);
        i := c + 1;
    }
  }

  /** The item from `k` ends at the comma at `i`. */
  lemma FirstItem(s: string, k: nat, i: nat)
    requires k <= i < |s| && s[i] == ','
    requires forall x :: k <= x < i ==> s[x] != ','
    ensures Parse(s, k) == [Strtoumax(s[k..i], 0)] + Parse(s, i + 1)
  {
    assert s[k..i] == s[..i][k..];
    ScanShift(s[..i], k, 0);
    ScanPrefix(s, i, k);
    IndexOfAt(s, ScanInteger(s, k).end, i, ',');
    ReadNext(s, k, i);
  }

  /** No comma follows `k`: the rest of the text is the last item. */
  lemma LastItem(s: string, k: nat)
    requires k <= |s|
    requires forall x :: k <= x < |s| ==> s[x] != ','
    ensures Parse(s, k) == if k == |s| then [] else [Strtoumax(s[k..], 0)]
  {
    if k < |s| {
      ScanShift(s, k, 0);
      IndexOfNone(s, ScanInteger(s, k).end, ',');
      ReadLast(s, k);
    }
  }

  /** Each value is what `strtoumax` reads from the item at the same place. */
  predicate ReadFrom(m: seq<uint64>, items: seq<string>) {
    |m| <= |items| && forall k :: 0 <= k < |m| ==> m[k] == Strtoumax(items[k], 0)
  }

  /** As many values as items, less an empty last item. */
  predicate CountsItems(m: seq<uint64>, items: seq<string>) {
    |items| >= 1 && |m| == (if items[|items| - 1] == "" then |items| - 1 else |items|)
  }

  /** One more item in front, read into one more value in front. */
  lemma ReadFromCons(x: uint64, m: seq<uint64>, w: string, items: seq<string>)
    requires CountsItems(m, items) && ReadFrom(m, items) && x == Strtoumax(w, 0)
    ensures CountsItems([x] + m, [w] + items) && ReadFrom([x] + m, [w] + items)
  {
    forall k | 1 <= k < |m| + 1
      ensures ([x] + m)[k] == Strtoumax(([w] + items)[k], 0)
    {
      assert ([x] + m)[k] == m[k - 1];
    }
  }

  /** No comma follows `k`: the rest of the text is one item, and its value is read
    * unless it is empty. */
  lemma ValuesOfLastItem(s: string, k: nat)
    requires k <= |s| && IndexOf(s, k, ',') == None
    ensures CountsItems(Parse(s, k), Split(s[k..]))
    ensures ReadFrom(Parse(s, k), Split(s[k..]))
  {
    IndexOfFirst(s, k, ',');
    LastItem(s, k);
    SplitRest(s, k);
    assert s[k..] == "" <==> k == |s|;
  }

  /** The item from `k` ends at the comma at `i`: its value goes in front of the values
    * of the items after it. */
  lemma ValuesOfFirstItem(s: string, k: nat, i: nat)
    requires k <= |s| && IndexOf(s, k, ',') == Some(i)
    requires CountsItems(Parse(s, i + 1), Split(s[i + 1..]))
    requires ReadFrom(Parse(s, i + 1), Split(s[i + 1..]))
    ensures CountsItems(Parse(s, k), Split(s[k..]))
    ensures ReadFrom(Parse(s, k), Split(s[k..]))
  {
    IndexOfFirst(s, k, ',');
    FirstItem(s, k, i);
    SplitAt(s, k, i);
    ReadFromCons(Strtoumax(s[k..i], 0), Parse(s, i + 1), s[k..i], Split(s[i + 1..]));
  }

  /** `ItemValues` for the text from `k` on. */
  lemma {:induction false} ItemValuesFrom(s: string, k: nat)
    requires k <= |s|
    ensures CountsItems(Parse(s, k), Split(s[k..]))
    ensures ReadFrom(Parse(s, k), Split(s[k..]))
    decreases |s| - k
  {
    match IndexOf(s, k, ',')
    case None =>
      ValuesOfLastItem(s, k);
    case Some(i) =>
      ItemValuesFrom(s, i + 1);
      ValuesOfFirstItem(s, k, i);
  }

  /** Item by item: the value stored for each comma-separated item of `s` is what
    * `strtoumax` reads from that item (0 for an empty one), in order. There is one value
    * per item, except that an empty last item (the text is empty or ends in a comma)
    * gives none, because the loop steps onto the terminating NUL. */
  lemma ItemValues(s: string)
    ensures |Parse(s, 0)| == (if s == "" || s[|s| - 1] == ',' then |Split(s)| - 1 else |Split(s)|)
    ensures ReadFrom(Parse(s, 0), Split(s))
  {
    ItemValuesFrom(s, 0);
    assert s[0..] == s;
    SplitLast(s);
    assert CountsItems(Parse(s, 0), Split(s));
  }

  /** The text `boolean_minterms_to_string_` prints: the decimals separated by ", ". */
  function Joined(m: seq<uint64>): string {
    if |m| == 0 then ""
    else if |m| == 1 then Decimal(m[0])
    else Decimal(m[0]) + ", " + Joined(m[1..])
  }

  lemma {:induction false} JoinedSnoc(m: seq<uint64>, i: nat)
    requires 1 <= i < |m|
    ensures Joined(m[..i + 1]) == Joined(m[..i]) + ", " + Decimal(m[i])
    decreases i
  {
    if i > 1 {
      JoinedSnoc(m[1..], i - 1);
      assert m[1..][..i] == m[..i + 1][1..];
      assert m[1..][..i - 1] == m[..i][1..];
    } else {
      assert m[..2][1..] == [m[1]];
    }
  }

  /** `boolean_minterms_to_string`. */
  method ToString(m: seq<uint64>) returns (s: string)
    ensures s == Joined(m)
  {
    s := "";
    for i := 0 to |m|
      invariant s == Joined(m[..i])
    {
      if i != 0 {
        s := s + ", ";
        JoinedSnoc(m, i);
      }
      s := s + Decimal(m[i]);
    }
    assert m[..|m|] == m;
  }

  /** `s` holds, from `j` to its end, the decimals of `m` separated by ", ". */
  predicate Printed(s: string, j: nat, m: seq<uint64>)
    decreases |m|
  {
    && |m| >= 1
    && Spelled(s, j, Decimal(m[0]))
    && var e := j + |Decimal(m[0])|;
       if |m| == 1 then e == |s|
       else e + 1 < |s| && s[e] == ',' && s[e + 1] == ' ' && Printed(s, e + 2, m[1..])
  }

  /** Text put in front of a printed list moves it by its length. */
  lemma {:induction false} PrintedShift(p: string, t: string, k: nat, m: seq<uint64>)
    requires Printed(t, k, m)
    ensures Printed(p + t, |p| + k, m)
    decreases |m|
  {
    SpelledShift(p, t, k, Decimal(m[0]));
    var e := k + |Decimal(m[0])|;
    if |m| > 1 {
      PrintedShift(p, t, e + 2, m[1..]);
      assert (p + t)[|p| + e] == t[e] && (p + t)[|p| + e + 1] == t[e + 1];
    }
  }

  /** The printed list has that layout. */
  lemma {:induction false} JoinedPrinted(m: seq<uint64>)
    requires |m| >= 1
    ensures Printed(Joined(m), 0, m)
    decreases |m|
  {
    var d := Decimal(m[0]);
    var s := Joined(m);
    if |m| == 1 {
      assert s[0..|d|] == d;
    } else {
      var head := d + ", ";
      JoinedPrinted(m[1..]);
      PrintedShift(head, Joined(m[1..]), 0, m[1..]);
      assert s == head + Joined(m[1..]);
      assert s[0..|d|] == d;
      assert s[|d|] == ',' && s[|d| + 1] == ' ';
    }
    SpelledAt(s, 0, d);
  }

  /** At most one white-space character lies between `p` and `j`. */
  predicate Gap(s: string, p: nat, j: nat) {
    p <= j <= p + 1 && j <= |s| && (p < j ==> IsSpace(s[p]))
  }

  lemma GapSpaces(s: string, p: nat, j: nat)
    requires Gap(s, p, j)
    ensures forall i :: p <= i < j ==> IsSpace(s[i])
  {
  }

  /** `strtoumax` reads one printed value after white space back as that value, and
    * stops right after it. */
  lemma ScanItem(s: string, p: nat, j: nat, x: uint64)
    requires Gap(s, p, j) && At(s, j, Decimal(x))
    requires j + |Decimal(x)| == |s| || s[j + |Decimal(x)|] == ','
    ensures ScanInteger(s, p).end == j + |Decimal(x)|
    ensures Unsigned(ScanInteger(s, p)) == x
  {
    GapSpaces(s, p, j);
    ScanDecimal(s, p, j, x);
  }

  /** The layout of a printed list of more than one value, one item at a time. */
  lemma PrintedHead(s: string, j: nat, m: seq<uint64>)
    requires Printed(s, j, m) && |m| > 1
    ensures var e := j + |Decimal(m[0])|;
      && At(s, j, Decimal(m[0])) && e < |s| && s[e] == ','
      && Gap(s, e + 1, e + 2) && Printed(s, e + 2, m[1..])
  {
    SpelledAt(s, j, Decimal(m[0]));
  }

  /** The first value of a longer printed list reads back; the rest is read from just
    * after the comma that ends it. */
  lemma ReadHead(s: string, p: nat, j: nat, m: seq<uint64>)
    requires Gap(s, p, j) && Printed(s, j, m) && |m| > 1
    ensures j + |Decimal(m[0])| < |s|
    ensures Read(s, p) == Item(m[0], Read(s, j + |Decimal(m[0])| + 1))
  {
    PrintedHead(s, j, m);
    var e := j + |Decimal(m[0])|;
    assert e < |s| && s[e] == ',';
    ScanItem(s, p, j, m[0]);
    assert IndexOf(s, e, ',') == Some(e);
    ReadNext(s, p, e);
  }

  /** A printed list of one value reads back as that value. */
  lemma ReadSingle(s: string, p: nat, j: nat, m: seq<uint64>)
    requires Gap(s, p, j) && Printed(s, j, m) && |m| == 1
    ensures Read(s, p) == ReadsOf(m)
  {
    SpelledAt(s, j, Decimal(m[0]));
    ScanItem(s, p, j, m[0]);
    ReadLast(s, p);
  }

  /** Printed values read back, from a position before the printed text that is at
    * most one space away from it. */
  lemma {:induction false} ReadJoined(s: string, p: nat, j: nat, m: seq<uint64>)
    requires Gap(s, p, j) && Printed(s, j, m)
    ensures Read(s, p) == ReadsOf(m)
    decreases |m|
  {
    if |m| > 1 {
      PrintedHead(s, j, m);
      ReadHead(s, p, j, m);
      var e := j + |Decimal(m[0])|;
      ReadJoined(s, e + 1, e + 2, m[1..]);
    } else {
      ReadSingle(s, p, j, m);
    }
  }

  /** Printing a list of values and reading it back gives the same list. */
  lemma RoundTrip(m: seq<uint64>)
    ensures Parse(Joined(m), 0) == m
  {
    var s := Joined(m);
    if |m| > 0 {
      JoinedPrinted(m);
      ReadJoined(s, 0, 0, m);
    }
    ValuesOf(m);
  }

  /** The environment the inner loop of `boolean_minterms_from_expression` has built
    * for `i` after `j` steps: `variables[n-1-j']` holds bit `j'` of `i` for `j' < j`. */
  function Assigned(variables: seq<Letter>, i: nat, j: nat): Environment
    requires j <= |variables|
    requires forall k :: 0 <= k < |variables| ==> Index(variables[k]) < 32
  {
    if j == 0 then New()
    else Set(Assigned(variables, i, j - 1), variables[|variables| - j], Bit(i, j - 1))
  }

  /** The environment minterm `i` stands for. */
  function Assignment(variables: seq<Letter>, i: nat): Environment
    requires forall k :: 0 <= k < |variables| ==> Index(variables[k]) < 32
  {
    Assigned(variables, i, |variables|)
  }

  /** Distinct names, all with an index the environment can set. */
  predicate Distinct(variables: seq<Letter>) {
    && (forall k :: 0 <= k < |variables| ==> Index(variables[k]) < 32)
    && (forall k, l :: 0 <= k < l < |variables| ==> variables[k] != variables[l])
  }

  lemma {:induction false} AssignedValues(variables: seq<Letter>, i: nat, j: nat)
    requires Distinct(variables) && j <= |variables|
    ensures forall k :: |variables| - j <= k < |variables| ==>
              Get(Assigned(variables, i, j), variables[k]) == Bit(i, |variables| - 1 - k)
    ensures forall n: Letter :: n !in variables[|variables| - j..] ==> !Get(Assigned(variables, i, j), n)
  {
    var n := |variables|;
    if j > 0 {
      AssignedValues(variables, i, j - 1);
      var env := Assigned(variables, i, j);
      assert variables[n - j..] == [variables[n - j]] + variables[n - j + 1..];
      forall name: Letter | name !in variables[n - j..]
        ensures !Get(env, name)
      {
        if Index(name) >= 32 {
          HighNamesCleared(env, name);
        }
      }
    }
  }

  /** Under the environment of minterm `i`, `variables[k]` has bit `n-1-k` of `i` and
    * every other name is false. */
  lemma AssignmentValues(variables: seq<Letter>, i: nat)
    requires Distinct(variables)
    ensures forall k :: 0 <= k < |variables| ==>
              Get(Assignment(variables, i), variables[k]) == Bit(i, |variables| - 1 - k)
    ensures forall n: Letter :: n !in variables ==> !Get(Assignment(variables, i), n)
  {
    AssignedValues(variables, i, |variables|);
    assert variables[0..] == variables;
  }

  /** The inner loop of `boolean_minterms_from_expression`. */
  method Assign(variables: seq<Letter>, i: nat) returns (env: Environment)
    requires forall k :: 0 <= k < |variables| ==> Index(variables[k]) < 32
    ensures env == Assignment(variables, i)
  {
    var n := |variables|;
    env := New();
    for j := 0 to n
      invariant env == Assigned(variables, i, j)
    {
      env := Set(env, variables[n - j - 1], Bit(i, j));
    }
  }

  /** The values below `i`, in increasing order, whose assignment makes `e` true:
    * what the loop of `boolean_minterms_from_expression` has collected after `i` steps. */
  function Table(e: Expression, variables: seq<Letter>, i: nat): seq<uint64>
    requires forall k :: 0 <= k < |variables| ==> Index(variables[k]) < 32
    requires i <= WORD
  {
    if i == 0 then []
    else if Evaluate(e, Some(Assignment(variables, i - 1))) then Table(e, variables, i - 1) + [i - 1]
    else Table(e, variables, i - 1)
  }

  /** One step of the loop: value `i` joins the table when its assignment `env` makes
    * `e` true. */
  lemma TableStep(e: Expression, variables: seq<Letter>, i: nat, env: Environment)
    requires forall k :: 0 <= k < |variables| ==> Index(variables[k]) < 32
    requires i < WORD && env == Assignment(variables, i)
    ensures Evaluate(e, Some(env)) ==> Table(e, variables, i + 1) == Table(e, variables, i) + [i]
    ensures !Evaluate(e, Some(env)) ==> Table(e, variables, i + 1) == Table(e, variables, i)
  {
  }

  /** Every value in the table is below `i`. */
  lemma {:induction false} TableBounded(e: Expression, variables: seq<Letter>, i: nat)
    requires forall k :: 0 <= k < |variables| ==> Index(variables[k]) < 32
    requires i <= WORD
    ensures forall k :: 0 <= k < |Table(e, variables, i)| ==> Table(e, variables, i)[k] < i
  {
    if i > 0 {
      TableBounded(e, variables, i - 1);
    }
  }

  predicate Increasing(m: seq<uint64>) {
    forall k, l :: 0 <= k < l < |m| ==> m[k] < m[l]
  }

  lemma IncreasingSnoc(m: seq<uint64>, x: uint64)
    requires Increasing(m) && forall k :: 0 <= k < |m| ==> m[k] < x
    ensures Increasing(m + [x])
  {
    var n := m + [x];
    assert forall k :: 0 <= k < |m| ==> n[k] == m[k];
  }

  /** The table is strictly increasing. */
  lemma {:induction false} TableSorted(e: Expression, variables: seq<Letter>, i: nat)
    requires forall k :: 0 <= k < |variables| ==> Index(variables[k]) < 32
    requires i <= WORD
    ensures Increasing(Table(e, variables, i))
  {
    if i > 0 {
      TableSorted(e, variables, i - 1);
      TableBounded(e, variables, i - 1);
      if Evaluate(e, Some(Assignment(variables, i - 1))) {
        IncreasingSnoc(Table(e, variables, i - 1), i - 1);
      }
    }
  }

  /** The table holds exactly the values below `i` that make `e` true. */
  lemma {:induction false} TableMembers(e: Expression, variables: seq<Letter>, i: nat)
    requires forall k :: 0 <= k < |variables| ==> Index(variables[k]) < 32
    requires i <= WORD
    ensures forall x: nat :: x in Table(e, variables, i) <==> x < i && Evaluate(e, Some(Assignment(variables, x)))
  {
    if i > 0 {
      var p := i - 1;
      TableMembers(e, variables, p);
      var rest := Table(e, variables, p);
      var holds := Evaluate(e, Some(Assignment(variables, p)));
      forall x: nat
        ensures x in Table(e, variables, i) <==> x in rest || (x == p && holds)
      {
        if holds {
          assert Table(e, variables, i) == rest + [p];
        }
      }
    }
  }

  /** The outer loop of `boolean_minterms_from_expression`: every value below `size`
    * is tried in increasing order. */
  method Tabulate(e: Expression, variables: seq<Letter>, size: nat) returns (m: seq<uint64>)
    requires forall k :: 0 <= k < |variables| ==> Index(variables[k]) < 32
    requires size <= WORD
    ensures m == Table(e, variables, size)
  {
    m := [];
    var i: nat := 0;
    while i < size
      invariant i <= size
      invariant m == Table(e, variables, i)
      decreases size - i
    {
      var env := Assign(variables, i);
      TableStep(e, variables, i, env);
      if Evaluate(e, Some(env)) {
        m := m + [i];
      }
      i := i + 1;
    }
  }

  /** `boolean_minterms_from_expression`: every assignment of the variables of `e`, in
    * increasing order, under which `e` is true. `1U << n` needs fewer than 32
    * variables. */
  method FromExpression(e: Expression) returns (m: seq<uint64>)
    requires forall n :: n in Names(e) ==> Index(n) < 32
    requires |Names(e)| < 32
    ensures forall k, l :: 0 <= k < l < |m| ==> m[k] < m[l]
    ensures forall k :: 0 <= k < |m| ==> m[k] < Pow2(|Variables.VariablesOf(e)|)
    ensures forall i: nat :: i in m <==>
              i < Pow2(|Variables.VariablesOf(e)|) && Evaluate(e, Some(Assignment(Variables.VariablesOf(e), i)))
    ensures Names(e) == {} ==> m == if Evaluate(e, Some(New())) then [0] else []
  {
    var variables := Variables.FromExpression(e);
    var n := |variables|;
    Pow2Monotone(n, 64);
    Pow2Word();
    var size := Pow2(n);
    m := Tabulate(e, variables, size);
    TableBounded(e, variables, size);
    TableSorted(e, variables, size);
    TableMembers(e, variables, size);
    if Names(e) == {} {
      VariableFree(e, m);
    }
  }

  /** A strictly increasing list of naturals ends at least `|m| - 1` high. */
  lemma {:induction false} IncreasingLast(m: seq<uint64>)
    requires Increasing(m) && |m| > 0
    ensures |m| - 1 <= m[|m| - 1]
  {
    if |m| > 1 {
      var front := m[..|m| - 1];
      IncreasingLast(front);
      assert front[|front| - 1] == m[|m| - 2];
    }
  }

  /** Without variables there is one assignment, 0: the minterms are `[0]` when the
    * expression is true and none otherwise. */
  lemma VariableFree(e: Expression, m: seq<uint64>)
    requires Names(e) == {}
    requires Increasing(m)
    requires forall i: nat :: i in m <==> i < Pow2(|Variables.VariablesOf(e)|) && Evaluate(e, Some(Assignment(Variables.VariablesOf(e), i)))
    ensures m == if Evaluate(e, Some(New())) then [0] else []
  {
    var variables := Variables.VariablesOf(e);
    assert |variables| == 0;
    assert Assignment(variables, 0) == New();
    forall k | 0 <= k < |m|
      ensures m[k] == 0
    {
      assert m[k] in m;
    }
    if |m| > 0 {
      IncreasingLast(m);
    }
    assert |m| > 0 ==> m[0] in m;
    if Evaluate(e, Some(New())) {
      assert 0 in m;
      assert m == [m[0]];
    }
  }
}
