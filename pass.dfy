/**
 * One pass of the do-while loop of `boolean_implicants_from_minterms`: every term of
 * each group is tried against every term of the next group; a pair that combines
 * marks both terms and puts the combination in the output table; a term left
 * unmarked once its own pairs are tried is emitted as a prime implicant.
 *
 * `Row`, `Visit` and `Scan` follow the three nested loops in their order. The
 * lemmas say what they compute: the flags (`Flag`), the emitted terms, the output
 * table and whether anything combined.
 */
module Passes {
  import opened Bits
  import opened Implicants
  import opened Tables

  /** `a` combines with one of the first `k` terms of `g`. */
  predicate CombinedAfter(a: Implicant, g: seq<Implicant>, k: nat)
    requires k <= |g|
  {
    exists k2 :: 0 <= k2 < k && Combinable(a, g[k2])
  }

  /** One of the first `j` terms of `g` combines with `b`. */
  predicate CombinedBefore(g: seq<Implicant>, j: nat, b: Implicant)
    requires j <= |g|
  {
    exists j2 :: 0 <= j2 < j && Combinable(g[j2], b)
  }

  /** The `combined` flag of term `j` of group `i` once the pass is over: the term
    * combines with a term of the next group, or a term of the previous group combines
    * with it. */
  predicate Flag(G: Groups, i: nat, j: nat)
    requires i < |G| && j < |G[i]|
  {
    || (i + 1 < |G| && CombinedAfter(G[i][j], G[i + 1], |G[i + 1]|))
    || (0 < i && CombinedBefore(G[i - 1], |G[i - 1]|, G[i][j]))
  }

  /** The flags, the output table, the terms emitted so far and `minimized`. */
  datatype PassState = PassState(combined: seq<seq<bool>>, output: Groups, emitted: seq<Implicant>, minimized: bool)

  /** Setting the flag of term `j` of group `i`. */
  function Mark(c: seq<seq<bool>>, i: nat, j: nat): seq<seq<bool>> {
    if i < |c| && j < |c[i]| then c[i := c[i][j := true]] else c
  }

  predicate Marked(c: seq<seq<bool>>, i: nat, j: nat) {
    i < |c| && j < |c[i]| && c[i][j]
  }

  /** Flags of the same shape as `G`, none set. */
  function Unset(G: Groups): (c: seq<seq<bool>>)
    ensures |c| == |G| && forall i :: 0 <= i < |G| ==> c[i] == seq(|G[i]|, _ => false)
  {
    seq(|G|, i requires 0 <= i < |G| => seq(|G[i]|, _ => false))
  }

  /** The innermost loop for term `j` of group `i`, after the first `k` terms of the
    * next group. */
  function Row(G: Groups, s: PassState, i: nat, j: nat, k: nat): (r: PassState)
    requires i + 1 < |G| && j < |G[i]| && k <= |G[i + 1]|
    ensures |r.output| == |s.output|
  {
    if k == 0 then s
    else
      var r := Row(G, s, i, j, k - 1);
      var a := G[i][j];
      var b := G[i + 1][k - 1];
      if Combinable(a, b) then
        PassState(Mark(Mark(r.combined, i, j), i + 1, k - 1), Insert(r.output, Combine(a, b)), r.emitted, false)
      else r
  }

  /** The middle loop's body for term `j` of group `i`: the innermost loop unless the
    * group is the last, then the emission of the term unless it is marked. */
  function Visit(G: Groups, s: PassState, i: nat, j: nat): PassState
    requires i < |G| && j < |G[i]|
  {
    var r := if i + 1 < |G| then Row(G, s, i, j, |G[i + 1]|) else s;
    if Marked(r.combined, i, j) then r else r.(emitted := r.emitted + [G[i][j]])
  }

  /** The pass up to (not including) term `j` of group `i`. */
  function Scan(G: Groups, s: PassState, i: nat, j: nat): PassState
    requires i < |G| && j <= |G[i]|
    decreases i, j
  {
    if j > 0 then Visit(G, Scan(G, s, i, j - 1), i, j - 1)
    else if i == 0 then s
    else Scan(G, s, i - 1, |G[i - 1]|)
  }

  /** The whole pass. */
  function Done(G: Groups, s: PassState): PassState {
    if |G| == 0 then s else Scan(G, s, |G| - 1, |G[|G| - 1]|)
  }

  /** What a pass starts from: no flag set, an empty output table of `count` groups,
    * nothing emitted and `minimized` set. */
  function Start(G: Groups, count: nat): PassState {
    PassState(Unset(G), Empty(count), [], true)
  }

  /** Term `(i2, j2)` comes before term `(i, j)` in the loop order. */
  predicate Before(i2: nat, j2: nat, i: nat, j: nat) {
    i2 < i || (i2 == i && j2 < j)
  }

  /** The flag of term `j2` of group `i2` when the middle loop is at term `j` of group
    * `i` and the innermost loop has tried the first `k` terms of the next group. */
  predicate FlagAt(G: Groups, i: nat, j: nat, k: nat, i2: nat, j2: nat)
    requires i < |G| && j <= |G[i]| && i2 < |G| && j2 < |G[i2]|
  {
    var row := j < |G[i]| && i + 1 < |G| && k <= |G[i + 1]|;
    if Before(i2, j2, i, j) then Flag(G, i2, j2)
    else if i2 == i then
      || (0 < i && CombinedBefore(G[i - 1], |G[i - 1]|, G[i][j2]))
      || (j2 == j && row && CombinedAfter(G[i][j], G[i + 1], k))
    else if i2 == i + 1 then
      || CombinedBefore(G[i], j, G[i2][j2])
      || (row && j2 < k && Combinable(G[i][j], G[i2][j2]))
    else false
  }

  /** The flags have the shape of `G` and the values `FlagAt` gives. */
  ghost predicate FlagsAt(c: seq<seq<bool>>, G: Groups, i: nat, j: nat, k: nat)
    requires i < |G| && j <= |G[i]|
  {
    && |c| == |G|
    && (forall i2 :: 0 <= i2 < |G| ==> |c[i2]| == |G[i2]|)
    && forall i2, j2 :: 0 <= i2 < |G| && 0 <= j2 < |G[i2]| ==> c[i2][j2] == FlagAt(G, i, j, k, i2, j2)
  }

  lemma FlagsStart(G: Groups)
    requires |G| > 0
    ensures FlagsAt(Unset(G), G, 0, 0, 0)
  {
  }

  /** The innermost loop marks the term and the terms of the next group it combines with. */
  lemma {:induction false} RowFlags(G: Groups, s: PassState, i: nat, j: nat, k: nat)
    requires i + 1 < |G| && j < |G[i]| && k <= |G[i + 1]|
    requires FlagsAt(s.combined, G, i, j, 0)
    ensures FlagsAt(Row(G, s, i, j, k).combined, G, i, j, k)
  {
    if k > 0 {
      RowFlags(G, s, i, j, k - 1);
      var r := Row(G, s, i, j, k - 1);
      var c := Row(G, s, i, j, k).combined;
      var a := G[i][j];
      var b := G[i + 1][k - 1];
      forall i2, j2 | 0 <= i2 < |G| && 0 <= j2 < |G[i2]|
        ensures c[i2][j2] == FlagAt(G, i, j, k, i2, j2)
      {
        assert r.combined[i2][j2] == FlagAt(G, i, j, k - 1, i2, j2);
        if i2 == i && j2 == j {
          assert CombinedAfter(a, G[i + 1], k) == (CombinedAfter(a, G[i + 1], k - 1) || Combinable(a, b));
        }
      }
    }
  }

  /** After the innermost loop, term `j` has its final flag and the next term is up. */
  lemma VisitFlags(G: Groups, s: PassState, i: nat, j: nat)
    requires i < |G| && j < |G[i]|
    requires FlagsAt(s.combined, G, i, j, 0)
    ensures var r := if i + 1 < |G| then Row(G, s, i, j, |G[i + 1]|) else s;
      Marked(r.combined, i, j) == Flag(G, i, j)
    ensures FlagsAt(Visit(G, s, i, j).combined, G, i, j + 1, 0)
  {
    var r := if i + 1 < |G| then Row(G, s, i, j, |G[i + 1]|) else s;
    if i + 1 < |G| {
      RowFlags(G, s, i, j, |G[i + 1]|);
      forall j2 {:trigger G[i + 1][j2]} | 0 <= j2 < |G[i + 1]|
        ensures CombinedBefore(G[i], j + 1, G[i + 1][j2])
                == (CombinedBefore(G[i], j, G[i + 1][j2]) || Combinable(G[i][j], G[i + 1][j2]))
      {
      }
    }
    assert Visit(G, s, i, j).combined == r.combined;
    forall i2, j2 | 0 <= i2 < |G| && 0 <= j2 < |G[i2]|
      ensures r.combined[i2][j2] == FlagAt(G, i, j + 1, 0, i2, j2)
    {
      assert r.combined[i2][j2] == FlagAt(G, i, j, if i + 1 < |G| then |G[i + 1]| else 0, i2, j2);
    }
  }

  /** The end of a group is the start of the next. */
  lemma NextGroupFlags(c: seq<seq<bool>>, G: Groups, i: nat)
    requires i + 1 < |G|
    requires FlagsAt(c, G, i, |G[i]|, 0)
    ensures FlagsAt(c, G, i + 1, 0, 0)
  {
    forall i2, j2 | 0 <= i2 < |G| && 0 <= j2 < |G[i2]|
      ensures c[i2][j2] == FlagAt(G, i + 1, 0, 0, i2, j2)
    {
      assert c[i2][j2] == FlagAt(G, i, |G[i]|, 0, i2, j2);
    }
  }

  /** The flags part way through a pass. */
  lemma {:induction false} ScanFlags(G: Groups, s: PassState, i: nat, j: nat)
    requires i < |G| && j <= |G[i]|
    requires FlagsAt(s.combined, G, 0, 0, 0)
    ensures FlagsAt(Scan(G, s, i, j).combined, G, i, j, 0)
    decreases i, j
  {
    if j > 0 {
      ScanFlags(G, s, i, j - 1);
      VisitFlags(G, Scan(G, s, i, j - 1), i, j - 1);
    } else if i > 0 {
      ScanFlags(G, s, i - 1, |G[i - 1]|);
      NextGroupFlags(Scan(G, s, i - 1, |G[i - 1]|).combined, G, i - 1);
    }
  }

  /** Every group of `a` is a prefix of the same group of `b`. */
  ghost predicate Grows(a: Groups, b: Groups) {
    |a| == |b| && forall g :: 0 <= g < |a| ==> a[g] <= b[g]
  }

  lemma GrowsTransitive(a: Groups, b: Groups, c: Groups)
    requires Grows(a, b) && Grows(b, c)
    ensures Grows(a, c)
  {
  }

  lemma GrowsIn(a: Groups, b: Groups, g: nat, x: Implicant)
    requires Grows(a, b) && g < |a| && x in a[g]
    ensures x in b[g]
  {
    var j :| 0 <= j < |a[g]| && a[g][j] == x;
    assert b[g][j] == x;
  }

  /** `x` combines two terms of neighbouring groups of `G`. */
  ghost predicate Produced(G: Groups, x: Implicant) {
    exists i, j, k {:trigger G[i][j], G[i + 1][k]} :: 0 <= i && i + 1 < |G| && 0 <= j < |G[i]| && 0 <= k < |G[i + 1]|
      && Combinable(G[i][j], G[i + 1][k]) && x == Combine(G[i][j], G[i + 1][k])
  }

  /** The innermost loop emits nothing and clears `minimized` when a pair combines. */
  lemma {:induction false} RowKeeps(G: Groups, s: PassState, i: nat, j: nat, k: nat)
    requires i + 1 < |G| && j < |G[i]| && k <= |G[i + 1]|
    ensures Row(G, s, i, j, k).emitted == s.emitted
    ensures Row(G, s, i, j, k).minimized == (s.minimized && !CombinedAfter(G[i][j], G[i + 1], k))
  {
    if k > 0 {
      RowKeeps(G, s, i, j, k - 1);
      assert CombinedAfter(G[i][j], G[i + 1], k)
          == (CombinedAfter(G[i][j], G[i + 1], k - 1) || Combinable(G[i][j], G[i + 1][k - 1]));
    }
  }

  /** The innermost loop only adds combinations of terms of `G`, at the ends of the
    * groups, without duplicates. */
  lemma {:induction false} RowOutput(G: Groups, s: PassState, i: nat, j: nat, k: nat)
    requires i + 1 < |G| && j < |G[i]| && k <= |G[i + 1]|
    requires Unique(s.output) && Grouped(s.output)
    ensures var out := Row(G, s, i, j, k).output;
      && Grows(s.output, out) && Unique(out) && Grouped(out)
      && forall g, x :: 0 <= g < |out| && x in out[g] ==> x in s.output[g] || Produced(G, x)
  {
    if k > 0 {
      RowOutput(G, s, i, j, k - 1);
      var r := Row(G, s, i, j, k - 1);
      var a := G[i][j];
      var b := G[i + 1][k - 1];
      if Combinable(a, b) {
        var c := Combine(a, b);
        assert Produced(G, c);
        InsertMembers(r.output, c);
        InsertKeeps(r.output, c);
        GrowsTransitive(s.output, r.output, Insert(r.output, c));
      }
    }
  }

  /** The innermost loop puts every combination it finds in the output table. */
  lemma {:induction false} RowHas(G: Groups, s: PassState, i: nat, j: nat, k: nat, k2: nat)
    requires i + 1 < |G| && j < |G[i]| && k2 < k <= |G[i + 1]|
    requires Unique(s.output) && Grouped(s.output)
    requires Combinable(G[i][j], G[i + 1][k2]) && Group(Combine(G[i][j], G[i + 1][k2])) < |s.output|
    ensures Combine(G[i][j], G[i + 1][k2]) in Row(G, s, i, j, k).output[Group(Combine(G[i][j], G[i + 1][k2]))]
  {
    var c := Combine(G[i][j], G[i + 1][k2]);
    var r := Row(G, s, i, j, k - 1);
    RowOutput(G, s, i, j, k - 1);
    if k2 < k - 1 {
      RowHas(G, s, i, j, k - 1, k2);
      if Combinable(G[i][j], G[i + 1][k - 1]) {
        InsertMembers(r.output, Combine(G[i][j], G[i + 1][k - 1]));
      }
    } else {
      InsertMembers(r.output, c);
    }
  }

  /** The output table as the pass leaves it: `count` groups of combinations of terms
    * of `G`, each in its group, none twice. */
  lemma {:induction false} ScanOutput(G: Groups, count: nat, i: nat, j: nat)
    requires i < |G| && j <= |G[i]|
    ensures var out := Scan(G, Start(G, count), i, j).output;
      && |out| == count && Unique(out) && Grouped(out)
      && forall g, x :: 0 <= g < |out| && x in out[g] ==> Produced(G, x)
    decreases i, j
  {
    if j > 0 {
      ScanOutput(G, count, i, j - 1);
      if i + 1 < |G| {
        RowOutput(G, Scan(G, Start(G, count), i, j - 1), i, j - 1, |G[i + 1]|);
      }
    } else if i > 0 {
      ScanOutput(G, count, i - 1, |G[i - 1]|);
    }
  }

  /** Every combination of a term before `(i, j)` with a term of the next group is in
    * `out`, when its group exists. */
  ghost predicate HasPairsBefore(out: Groups, G: Groups, i: nat, j: nat) {
    forall i2, j2, k2 {:trigger G[i2][j2], G[i2 + 1][k2]} ::
      && 0 <= i2 && i2 + 1 < |G| && 0 <= j2 < |G[i2]| && 0 <= k2 < |G[i2 + 1]|
      && Before(i2, j2, i, j) && Combinable(G[i2][j2], G[i2 + 1][k2])
      && Group(Combine(G[i2][j2], G[i2 + 1][k2])) < |out|
      ==> Combine(G[i2][j2], G[i2 + 1][k2]) in out[Group(Combine(G[i2][j2], G[i2 + 1][k2]))]
  }

  /** Every combination of term `j` of group `i` with a term of the next group is in
    * `out`, when its group exists. */
  ghost predicate HasPairsOf(out: Groups, G: Groups, i: nat, j: nat)
    requires i + 1 < |G| && j < |G[i]|
  {
    forall k2 {:trigger G[i + 1][k2]} :: 0 <= k2 < |G[i + 1]| && Combinable(G[i][j], G[i + 1][k2])
      && Group(Combine(G[i][j], G[i + 1][k2])) < |out|
      ==> Combine(G[i][j], G[i + 1][k2]) in out[Group(Combine(G[i][j], G[i + 1][k2]))]
  }

  lemma RowHasAll(G: Groups, s: PassState, i: nat, j: nat)
    requires i + 1 < |G| && j < |G[i]|
    requires Unique(s.output) && Grouped(s.output)
    ensures HasPairsOf(Row(G, s, i, j, |G[i + 1]|).output, G, i, j)
  {
    forall k2 {:trigger G[i + 1][k2]} | 0 <= k2 < |G[i + 1]| && Combinable(G[i][j], G[i + 1][k2])
      && Group(Combine(G[i][j], G[i + 1][k2])) < |Row(G, s, i, j, |G[i + 1]|).output|
      ensures Combine(G[i][j], G[i + 1][k2]) in Row(G, s, i, j, |G[i + 1]|).output[Group(Combine(G[i][j], G[i + 1][k2]))]
    {
      RowHas(G, s, i, j, |G[i + 1]|, k2);
    }
  }

  /** One step of the middle loop keeps `HasPairsBefore`. */
  lemma HasStep(out0: Groups, out1: Groups, G: Groups, i: nat, j: nat)
    requires i < |G| && 0 < j <= |G[i]|
    requires HasPairsBefore(out0, G, i, j - 1) && Grows(out0, out1)
    requires i + 1 < |G| ==> HasPairsOf(out1, G, i, j - 1)
    ensures HasPairsBefore(out1, G, i, j)
  {
    forall i2, j2, k2 {:trigger G[i2][j2], G[i2 + 1][k2]} |
      && 0 <= i2 && i2 + 1 < |G| && 0 <= j2 < |G[i2]| && 0 <= k2 < |G[i2 + 1]|
      && Before(i2, j2, i, j) && Combinable(G[i2][j2], G[i2 + 1][k2])
      && Group(Combine(G[i2][j2], G[i2 + 1][k2])) < |out1|
      ensures Combine(G[i2][j2], G[i2 + 1][k2]) in out1[Group(Combine(G[i2][j2], G[i2 + 1][k2]))]
    {
      var c := Combine(G[i2][j2], G[i2 + 1][k2]);
      if !(i2 == i && j2 == j - 1) {
        assert Before(i2, j2, i, j - 1);
        GrowsIn(out0, out1, Group(c), c);
      } else {
        assert G[i + 1][k2] == G[i2 + 1][k2];
      }
    }
  }

  lemma HasNextGroup(out: Groups, G: Groups, i: nat)
    requires 0 < i < |G|
    requires HasPairsBefore(out, G, i - 1, |G[i - 1]|)
    ensures HasPairsBefore(out, G, i, 0)
  {
    forall i2, j2, k2 {:trigger G[i2][j2], G[i2 + 1][k2]} |
      && 0 <= i2 && i2 + 1 < |G| && 0 <= j2 < |G[i2]| && 0 <= k2 < |G[i2 + 1]|
      && Before(i2, j2, i, 0) && Combinable(G[i2][j2], G[i2 + 1][k2])
      && Group(Combine(G[i2][j2], G[i2 + 1][k2])) < |out|
      ensures Combine(G[i2][j2], G[i2 + 1][k2]) in out[Group(Combine(G[i2][j2], G[i2 + 1][k2]))]
    {
      assert Before(i2, j2, i - 1, |G[i - 1]|);
    }
  }

  lemma {:induction false} ScanHas(G: Groups, count: nat, i: nat, j: nat)
    requires i < |G| && j <= |G[i]|
    ensures HasPairsBefore(Scan(G, Start(G, count), i, j).output, G, i, j)
    decreases i, j
  {
    if j > 0 {
      ScanHas(G, count, i, j - 1);
      ScanOutput(G, count, i, j - 1);
      var s := Scan(G, Start(G, count), i, j - 1);
      if i + 1 < |G| {
        RowOutput(G, s, i, j - 1, |G[i + 1]|);
        RowHasAll(G, s, i, j - 1);
      }
      HasStep(s.output, Scan(G, Start(G, count), i, j).output, G, i, j);
    } else if i > 0 {
      ScanHas(G, count, i - 1, |G[i - 1]|);
      HasNextGroup(Scan(G, Start(G, count), i, 0).output, G, i);
    }
  }

  /** Term `x` sits before `(i, j)` in `G` with its final flag unset. */
  ghost predicate EmittedBefore(G: Groups, i: nat, j: nat, x: Implicant) {
    exists i2, j2 {:trigger G[i2][j2]} :: 0 <= i2 < |G| && 0 <= j2 < |G[i2]| && Before(i2, j2, i, j)
      && G[i2][j2] == x && !Flag(G, i2, j2)
  }

  /** The pass emits exactly the terms whose final flag is unset. */
  lemma {:induction false} ScanEmitted(G: Groups, count: nat, i: nat, j: nat)
    requires i < |G| && j <= |G[i]|
    ensures forall x :: x in Scan(G, Start(G, count), i, j).emitted <==> EmittedBefore(G, i, j, x)
    decreases i, j
  {
    if j > 0 {
      ScanEmitted(G, count, i, j - 1);
      var s := Scan(G, Start(G, count), i, j - 1);
      FlagsStart(G);
      ScanFlags(G, Start(G, count), i, j - 1);
      VisitFlags(G, s, i, j - 1);
      if i + 1 < |G| {
        RowKeeps(G, s, i, j - 1, |G[i + 1]|);
      }
      forall x
        ensures EmittedBefore(G, i, j, x) <==> EmittedBefore(G, i, j - 1, x) || (x == G[i][j - 1] && !Flag(G, i, j - 1))
      {
        if EmittedBefore(G, i, j, x) {
          var i2, j2 :| 0 <= i2 < |G| && 0 <= j2 < |G[i2]| && Before(i2, j2, i, j) && G[i2][j2] == x && !Flag(G, i2, j2);
          if !(i2 == i && j2 == j - 1) {
            assert Before(i2, j2, i, j - 1);
          }
        }
      }
    } else if i > 0 {
      ScanEmitted(G, count, i - 1, |G[i - 1]|);
      forall x
        ensures EmittedBefore(G, i, 0, x) <==> EmittedBefore(G, i - 1, |G[i - 1]|, x)
      {
        if EmittedBefore(G, i, 0, x) {
          var i2, j2 :| 0 <= i2 < |G| && 0 <= j2 < |G[i2]| && Before(i2, j2, i, 0) && G[i2][j2] == x && !Flag(G, i2, j2);
          assert Before(i2, j2, i - 1, |G[i - 1]|);
        }
      }
    }
  }

  /** Some term before `(i, j)` combines with a term of the next group. */
  ghost predicate PairedBefore(G: Groups, i: nat, j: nat) {
    exists i2, j2 {:trigger G[i2][j2]} :: 0 <= i2 && i2 + 1 < |G| && 0 <= j2 < |G[i2]| && Before(i2, j2, i, j)
      && CombinedAfter(G[i2][j2], G[i2 + 1], |G[i2 + 1]|)
  }

  lemma PairedStep(G: Groups, i: nat, j: nat)
    requires i < |G| && 0 < j <= |G[i]|
    ensures PairedBefore(G, i, j)
        <==> PairedBefore(G, i, j - 1) || (i + 1 < |G| && CombinedAfter(G[i][j - 1], G[i + 1], |G[i + 1]|))
  {
    if PairedBefore(G, i, j) {
      var i2, j2 :| 0 <= i2 && i2 + 1 < |G| && 0 <= j2 < |G[i2]| && Before(i2, j2, i, j)
        && CombinedAfter(G[i2][j2], G[i2 + 1], |G[i2 + 1]|);
      if !(i2 == i && j2 == j - 1) {
        assert Before(i2, j2, i, j - 1);
      }
    }
  }

  lemma PairedNextGroup(G: Groups, i: nat)
    requires 0 < i < |G|
    ensures PairedBefore(G, i, 0) <==> PairedBefore(G, i - 1, |G[i - 1]|)
  {
    if PairedBefore(G, i, 0) {
      var i2, j2 :| 0 <= i2 && i2 + 1 < |G| && 0 <= j2 < |G[i2]| && Before(i2, j2, i, 0)
        && CombinedAfter(G[i2][j2], G[i2 + 1], |G[i2 + 1]|);
      assert Before(i2, j2, i - 1, |G[i - 1]|);
    }
  }

  /** `minimized` stays set exactly while no pair has combined. */
  lemma {:induction false} ScanMinimized(G: Groups, count: nat, i: nat, j: nat)
    requires i < |G| && j <= |G[i]|
    ensures Scan(G, Start(G, count), i, j).minimized <==> !PairedBefore(G, i, j)
    decreases i, j
  {
    if j > 0 {
      ScanMinimized(G, count, i, j - 1);
      if i + 1 < |G| {
        RowKeeps(G, Scan(G, Start(G, count), i, j - 1), i, j - 1, |G[i + 1]|);
      }
      PairedStep(G, i, j);
    } else if i > 0 {
      ScanMinimized(G, count, i - 1, |G[i - 1]|);
      PairedNextGroup(G, i);
    }
  }

  /** No implicant occurs twice. */
  ghost predicate NoDuplicates(s: seq<Implicant>) {
    forall a, b :: 0 <= a < b < |s| ==> s[a] != s[b]
  }

  lemma AppendNoDuplicates(s: seq<Implicant>, x: Implicant)
    requires NoDuplicates(s) && x !in s
    ensures NoDuplicates(s + [x])
  {
  }

  /** In a table without duplicates and with every term in its group, no earlier
    * term equals term `(i, j)`. */
  lemma NotBefore(G: Groups, i: nat, j: nat)
    requires Unique(G) && Grouped(G) && i < |G| && j < |G[i]|
    ensures !EmittedBefore(G, i, j, G[i][j])
  {
  }

  lemma {:induction false} ScanNoDuplicates(G: Groups, count: nat, i: nat, j: nat)
    requires i < |G| && j <= |G[i]| && Unique(G) && Grouped(G)
    ensures NoDuplicates(Scan(G, Start(G, count), i, j).emitted)
    decreases i, j
  {
    if j > 0 {
      ScanNoDuplicates(G, count, i, j - 1);
      ScanEmitted(G, count, i, j - 1);
      var s := Scan(G, Start(G, count), i, j - 1);
      if i + 1 < |G| {
        RowKeeps(G, s, i, j - 1, |G[i + 1]|);
      }
      NotBefore(G, i, j - 1);
      if G[i][j - 1] !in s.emitted {
        AppendNoDuplicates(s.emitted, G[i][j - 1]);
      }
    } else if i > 0 {
      ScanNoDuplicates(G, count, i - 1, |G[i - 1]|);
    }
  }

  /** `x` is a term of `G` whose final flag is unset. */
  ghost predicate Unflagged(G: Groups, x: Implicant) {
    exists i, j {:trigger G[i][j]} :: 0 <= i < |G| && 0 <= j < |G[i]| && G[i][j] == x && !Flag(G, i, j)
  }

  /** Two terms of neighbouring groups of `G` combine. */
  ghost predicate AnyPair(G: Groups) {
    exists i, j, k {:trigger G[i][j], G[i + 1][k]} :: 0 <= i && i + 1 < |G| && 0 <= j < |G[i]| && 0 <= k < |G[i + 1]|
      && Combinable(G[i][j], G[i + 1][k])
  }

  /** A pass emits exactly the terms that combined with no neighbour, once each. */
  lemma PassEmitted(G: Groups, count: nat)
    requires |G| > 0
    ensures forall x :: x in Done(G, Start(G, count)).emitted <==> Unflagged(G, x)
    ensures Unique(G) && Grouped(G) ==> NoDuplicates(Done(G, Start(G, count)).emitted)
  {
    var last := |G| - 1;
    ScanEmitted(G, count, last, |G[last]|);
    forall x
      ensures EmittedBefore(G, last, |G[last]|, x) <==> Unflagged(G, x)
    {
      if Unflagged(G, x) {
        var i, j :| 0 <= i < |G| && 0 <= j < |G[i]| && G[i][j] == x && !Flag(G, i, j);
        assert Before(i, j, last, |G[last]|);
      }
    }
    if Unique(G) && Grouped(G) {
      ScanNoDuplicates(G, count, last, |G[last]|);
    }
  }

  /** The output table of a pass holds exactly the combinations of neighbouring terms
    * whose group exists, each once and in its group. */
  lemma PassOutput(G: Groups, count: nat)
    requires |G| > 0
    ensures var out := Done(G, Start(G, count)).output;
      && |out| == count && Unique(out) && Grouped(out)
      && (forall g, x :: 0 <= g < |out| && x in out[g] ==> Produced(G, x))
      && (forall x :: Produced(G, x) && Group(x) < count ==> x in out[Group(x)])
  {
    var last := |G| - 1;
    ScanOutput(G, count, last, |G[last]|);
    ScanHas(G, count, last, |G[last]|);
    var out := Done(G, Start(G, count)).output;
    forall x | Produced(G, x) && Group(x) < count
      ensures x in out[Group(x)]
    {
      var i, j, k :| 0 <= i && i + 1 < |G| && 0 <= j < |G[i]| && 0 <= k < |G[i + 1]|
        && Combinable(G[i][j], G[i + 1][k]) && x == Combine(G[i][j], G[i + 1][k]);
      assert Before(i, j, last, |G[last]|);
    }
  }

  /** A pass reports `minimized` exactly when no two neighbouring terms combine. */
  lemma PassMinimized(G: Groups, count: nat)
    requires |G| > 0
    ensures Done(G, Start(G, count)).minimized <==> !AnyPair(G)
  {
    var last := |G| - 1;
    ScanMinimized(G, count, last, |G[last]|);
    if AnyPair(G) {
      var i, j, k :| 0 <= i && i + 1 < |G| && 0 <= j < |G[i]| && 0 <= k < |G[i + 1]|
        && Combinable(G[i][j], G[i + 1][k]);
      assert Before(i, j, last, |G[last]|);
      assert CombinedAfter(G[i][j], G[i + 1], |G[i + 1]|);
    }
  }
}
