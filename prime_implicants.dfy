/**
 * The loops of `boolean_implicants_from_minterms` over the two tables, proved to
 * compute the passes `Row`, `Scan` and `Primes` describe: `CombineRow` is the
 * innermost loop, `Pass` one iteration of the do-while, `FromMinterms` the whole.
 */
module PrimeImplicants {
  import opened Bits
  import opened Implicants
  import opened Tables
  import opened Passes
  import opened Tabulation

  /** Every term selects bits below bit `n` only. */
  ghost predicate Fits(G: Groups, n: nat) {
    forall g, j :: 0 <= g < |G| && 0 <= j < |G[g]| ==> G[g][j].mask < Pow2(n)
  }

  /** One flag per term. */
  ghost predicate Shaped(c: seq<seq<bool>>, G: Groups) {
    |c| == |G| && forall g :: 0 <= g < |G| ==> |c[g]| == |G[g]|
  }

  /** Adding a term adds one cleared flag, exactly when the term is new. */
  lemma UnsetInsert(G: Groups, p: Implicant)
    requires Group(p) < |G|
    ensures Unset(Insert(G, p)) == if p in G[Group(p)] then Unset(G) else Unset(G)[Group(p) := Unset(G)[Group(p)] + [false]]
  {
    var g := Group(p);
    if p !in G[g] {
      var a := Unset(Insert(G, p));
      var b := Unset(G)[g := Unset(G)[g] + [false]];
      forall h | 0 <= h < |G|
        ensures a[h] == b[h]
      {
        if h == g {
          assert a[h] == seq(|G[g]| + 1, _ => false);
        }
      }
    }
  }

  /** Setting a flag keeps one flag per term. */
  lemma MarkShaped(c: seq<seq<bool>>, G: Groups, i: nat, j: nat)
    requires Shaped(c, G) && i < |G| && j < |G[i]|
    ensures Shaped(c[i := c[i][j := true]], G) && c[i := c[i][j := true]] == Mark(c, i, j)
  {
  }

  lemma UnsetEmpty(count: nat)
    ensures Unset(Empty(count)) == NoFlags(count)
  {
  }

  /** The combination of two terms below bit `n` is below bit `n`, in a group of the table. */
  lemma CombineFits(a: Implicant, b: Implicant, n: nat)
    requires Combinable(a, b) && a.mask < Pow2(n)
    ensures Combine(a, b).mask < Pow2(n) && Group(Combine(a, b)) <= n
  {
    var bit := DifferingBit(a, b);
    CombineMask(a, b, bit);
    GroupBound(Combine(a, b), n);
  }

  /** The body of the innermost loop for a combinable pair: both terms marked, their
    * combination added to the output table. */
  method CombinePair(input: Table, output: Table, i: nat, j: nat, k: nat, ghost n: nat)
    requires input != output
    requires i + 1 < |input.implicants| && j < |input.implicants[i]| && k < |input.implicants[i + 1]|
    requires Combinable(input.implicants[i][j], input.implicants[i + 1][k])
    requires Shaped(input.combined, input.implicants) && Fits(input.implicants, n)
    requires |output.implicants| == n + 1 && output.combined == Unset(output.implicants)
    modifies input, output
    ensures input.implicants == old(input.implicants)
    ensures input.combined == Mark(Mark(old(input.combined), i, j), i + 1, k)
    ensures Shaped(input.combined, input.implicants)
    ensures output.implicants == Insert(old(output.implicants), Combine(input.implicants[i][j], input.implicants[i + 1][k]))
    ensures output.combined == Unset(output.implicants)
  {
    ghost var G := input.implicants;
    var a := input.implicants[i][j];
    var b := input.implicants[i + 1][k];
    MarkShaped(input.combined, G, i, j);
    input.combined := input.combined[i := input.combined[i][j := true]];
    MarkShaped(input.combined, G, i + 1, k);
    input.combined := input.combined[i + 1 := input.combined[i + 1][k := true]];
    var c := Combine(a, b);
    CombineFits(a, b, n);
    UnsetInsert(output.implicants, c);
    output.AddImplicant(c);
  }

  /** The innermost loop: term `j` of group `i` against every term of group `i + 1`. */
  method CombineRow(input: Table, output: Table, i: nat, j: nat, ghost n: nat, minimized0: bool, ghost e: seq<Implicant>)
    returns (minimized: bool)
    requires input != output
    requires i + 1 < |input.implicants| && j < |input.implicants[i]|
    requires Shaped(input.combined, input.implicants) && Fits(input.implicants, n)
    requires |output.implicants| == n + 1 && output.combined == Unset(output.implicants)
    modifies input, output
    ensures input.implicants == old(input.implicants)
    ensures Shaped(input.combined, input.implicants)
    ensures output.combined == Unset(output.implicants)
    ensures PassState(input.combined, output.implicants, e, minimized)
         == Row(input.implicants, PassState(old(input.combined), old(output.implicants), e, minimized0), i, j, |input.implicants[i + 1]|)
  {
    ghost var G := input.implicants;
    ghost var s0 := PassState(input.combined, output.implicants, e, minimized0);
    minimized := minimized0;
    var k := 0;
    while k < |input.implicants[i + 1]|
      invariant k <= |G[i + 1]| && input.implicants == G
      invariant Shaped(input.combined, G)
      invariant |output.implicants| == n + 1 && output.combined == Unset(output.implicants)
      invariant PassState(input.combined, output.implicants, e, minimized) == Row(G, s0, i, j, k)
      decreases |G[i + 1]| - k
    {
      if Combinable(input.implicants[i][j], input.implicants[i + 1][k]) {
        CombinePair(input, output, i, j, k, n);
        minimized := false;
      }
      k := k + 1;
    }
  }

  /** The middle loop for group `i`: every term of the group against the next group,
    * unless the group is the last, and appended to `primes` if it was not marked.
    * `e` is what the pass emitted before the group, `P` the list before the pass. */
  method ScanGroup(input: Table, output: Table, primes: ImplicantList, i: nat, ghost n: nat, minimized0: bool,
                   ghost S: PassState, ghost P: seq<Implicant>, ghost e0: seq<Implicant>)
    returns (minimized: bool, ghost e: seq<Implicant>)
    requires input != output
    requires i < |input.implicants| && Shaped(input.combined, input.implicants) && Fits(input.implicants, n)
    requires |output.implicants| == n + 1 && output.combined == Unset(output.implicants)
    requires primes.data == P + e0
    requires PassState(input.combined, output.implicants, e0, minimized0) == Scan(input.implicants, S, i, 0)
    modifies input, output, primes
    ensures input.implicants == old(input.implicants) && Shaped(input.combined, input.implicants)
    ensures |output.implicants| == n + 1 && output.combined == Unset(output.implicants)
    ensures primes.data == P + e
    ensures PassState(input.combined, output.implicants, e, minimized) == Scan(input.implicants, S, i, |input.implicants[i]|)
  {
    ghost var G := input.implicants;
    e := e0;
    minimized := minimized0;
    var j := 0;
    while j < |input.implicants[i]|
      invariant j <= |G[i]| && input.implicants == G
      invariant Shaped(input.combined, G)
      invariant output.combined == Unset(output.implicants) && |output.implicants| == n + 1
      invariant primes.data == P + e
      invariant PassState(input.combined, output.implicants, e, minimized) == Scan(G, S, i, j)
      decreases |G[i]| - j
    {
      if i != |input.implicants| - 1 {
        minimized := CombineRow(input, output, i, j, n, minimized, e);
      }
      if !input.combined[i][j] {
        primes.Add(input.implicants[i][j]);
        e := e + [G[i][j]];
      }
      j := j + 1;
    }
  }

  /** One iteration of the do-while: every term against the next group, then the
    * uncombined terms appended to `primes`. */
  method Pass(input: Table, output: Table, primes: ImplicantList, ghost n: nat) returns (minimized: bool)
    requires input != output
    requires |input.implicants| == n + 1 && input.combined == Unset(input.implicants) && Fits(input.implicants, n)
    requires output.implicants == Empty(n + 1) && output.combined == NoFlags(n + 1)
    modifies input, output, primes
    ensures input.implicants == old(input.implicants) && |input.combined| == |input.implicants|
    ensures var r := Done(input.implicants, Start(input.implicants, n + 1));
      && output.implicants == r.output && output.combined == Unset(r.output)
      && primes.data == old(primes.data) + r.emitted && minimized == r.minimized
  {
    ghost var G := input.implicants;
    ghost var S := Start(G, n + 1);
    ghost var P := primes.data;
    ghost var e: seq<Implicant> := [];
    UnsetEmpty(n + 1);
    minimized := true;
    var i := 0;
    while i < |input.implicants|
      invariant i <= |G| && input.implicants == G
      invariant Shaped(input.combined, G)
      invariant output.combined == Unset(output.implicants) && |output.implicants| == n + 1
      invariant primes.data == P + e
      invariant PassState(input.combined, output.implicants, e, minimized)
             == if i == 0 then S else Scan(G, S, i - 1, |G[i - 1]|)
      decreases |G| - i
    {
      minimized, e := ScanGroup(input, output, primes, i, n, minimized, S, P, e);
      i := i + 1;
    }
  }

  /** The first loop of `boolean_implicants_from_minterms`: the term of every minterm
    * added to the empty input table. */
  method AddMinterms(input: Table, minterms: seq<uint64>, n: nat)
    requires n < 64 && input.implicants == Empty(n + 1) && input.combined == NoFlags(n + 1)
    modifies input
    ensures input.implicants == Initial(minterms, n) && input.combined == Unset(input.implicants)
  {
    UnsetEmpty(n + 1);
    for i := 0 to |minterms|
      invariant input.implicants == Initial(minterms[..i], n) && input.combined == Unset(input.implicants)
    {
      var p := MintermTerm(minterms[i], n);
      assert minterms[..i + 1][..i] == minterms[..i];
      UnsetInsert(input.implicants, p);
      input.AddImplicant(p);
    }
    assert minterms[..|minterms|] == minterms;
  }

  /** A table of layer `d` fits below bit `n`. */
  lemma LayeredFits(G: Groups, n: nat, d: int)
    requires Layered(G, n, d)
    ensures Fits(G, n)
  {
  }

  /** What one pass does to the primes still to come: a pass that combines nothing
    * emits the last of them, any other emits some and leaves a table one layer down. */
  lemma PassStep(G: Groups, n: nat, d: nat, P: seq<Implicant>, target: seq<Implicant>)
    requires |G| == n + 1 && Layered(G, n, d) && P + Primes(G, n, d) == target
    ensures var r := Done(G, Start(G, n + 1));
      if r.minimized then P + r.emitted == target
      else (d >= 1 && |r.output| == n + 1 && Layered(r.output, n, d - 1)
            && (P + r.emitted) + Primes(r.output, n, d - 1) == target)
  {
    var r := Done(G, Start(G, n + 1));
    if !r.minimized {
      PassNext(G, n, d);
      assert P + Primes(G, n, d) == (P + r.emitted) + Primes(r.output, n, d - 1);
    }
  }

  /** One iteration of the do-while: a pass from `input` into `output`, then the
    * terms of `input`, the table that becomes the next output table, dropped. */
  method Round(input: Table, output: Table, primes: ImplicantList, ghost n: nat, ghost d: nat, ghost target: seq<Implicant>)
    returns (minimized: bool)
    requires input != output
    requires |input.implicants| == n + 1 && input.combined == Unset(input.implicants) && Layered(input.implicants, n, d)
    requires output.implicants == Empty(n + 1) && output.combined == NoFlags(n + 1)
    requires primes.data + Primes(input.implicants, n, d) == target
    modifies input, output, primes
    ensures input.implicants == Empty(n + 1) && input.combined == NoFlags(n + 1)
    ensures output.combined == Unset(output.implicants)
    ensures minimized ==> primes.data == target
    ensures !minimized ==> (d >= 1 && |output.implicants| == n + 1 && Layered(output.implicants, n, d - 1)
                            && primes.data + Primes(output.implicants, n, d - 1) == target)
  {
    PassStep(input.implicants, n, d, primes.data, target);
    LayeredFits(input.implicants, n, d);
    minimized := Pass(input, output, primes, n);
    input.Reset();
  }

  /** The do-while of `boolean_implicants_from_minterms`: rounds, swapping the tables
    * after each, until a pass combines nothing. */
  method Tabulate(input: Table, output: Table, primes: ImplicantList, ghost n: nat, ghost d: nat, ghost target: seq<Implicant>)
    requires input != output
    requires |input.implicants| == n + 1 && input.combined == Unset(input.implicants) && Layered(input.implicants, n, d)
    requires output.implicants == Empty(n + 1) && output.combined == NoFlags(n + 1)
    requires primes.data + Primes(input.implicants, n, d) == target
    modifies input, output, primes
    ensures primes.data == target
  {
    var current, next := input, output;
    var minimized := false;
    ghost var layer := d;
    while !minimized
      invariant {current, next} == {input, output} && current != next
      invariant current.combined == Unset(current.implicants)
      invariant next.implicants == Empty(n + 1) && next.combined == NoFlags(n + 1)
      invariant !minimized ==> (|current.implicants| == n + 1 && Layered(current.implicants, n, layer)
                && primes.data + Primes(current.implicants, n, layer) == target)
      invariant minimized ==> primes.data == target
      decreases if minimized then 0 else layer + 1
    {
      minimized := Round(current, next, primes, n, layer, target);
      current, next := next, current;
      if !minimized {
        layer := layer - 1;
      }
    }
  }

  /** `boolean_implicants_from_minterms`: the table of the minterms, then passes until
    * one combines nothing; the primes are the terms no pass combined. */
  method FromMinterms(minterms: seq<uint64>, n: nat) returns (primes: ImplicantList)
    requires n < 64
    ensures fresh(primes)
    ensures primes.data == Tabulation.FromMinterms(minterms, n)
  {
    var input := new Table(n + 1);
    var output := new Table(n + 1);
    AddMinterms(input, minterms, n);
    InitialLayered(minterms, n);
    primes := new ImplicantList();
    Tabulate(input, output, primes, n, n, Tabulation.FromMinterms(minterms, n));
  }
}
