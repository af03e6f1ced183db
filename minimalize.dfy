/**
 * `boolean_implicants_minimalize`: a greedy choice of implicants covering the
 * minterms. Each minterm, in order, is skipped when a chosen implicant already
 * covers it; otherwise the covering implicant that covers the most minterms not yet
 * processed is chosen, the first (lowest index) on a tie. The implicants not chosen
 * are then removed from the list, the rest keeping their order.
 */
module Minimalize {
  import opened Bits
  import opened Implicants

  /** Some implicant covers `m`. */
  ghost predicate Covered(imps: seq<Implicant>, m: uint64) {
    exists j :: 0 <= j < |imps| && Covers(imps[j], m)
  }

  /** Every minterm is covered by some implicant; the source reads the first
    * covering implicant of each minterm without checking that there is one. */
  ghost predicate AllCovered(imps: seq<Implicant>, ms: seq<uint64>) {
    forall t :: 0 <= t < |ms| ==> Covered(imps, ms[t])
  }

  predicate Ascending(f: seq<nat>) {
    forall u, v :: 0 <= u < v < |f| ==> f[u] < f[v]
  }

  /** The indices below `k` of the implicants covering `m`, in increasing order:
    * `factors[i]` after `k` steps of the loop over the implicants. */
  function CoveringBelow(imps: seq<Implicant>, m: uint64, k: nat): (r: seq<nat>)
    requires k <= |imps|
    ensures forall x: nat :: x in r <==> x < k && Covers(imps[x], m)
  {
    if k == 0 then []
    else
      var r := CoveringBelow(imps, m, k - 1);
      if Covers(imps[k - 1], m) then r + [k - 1] else r
  }

  /** `factors[i]`: the indices of all implicants covering minterm `m`. */
  function Covering(imps: seq<Implicant>, m: uint64): (r: seq<nat>)
    ensures forall x: nat :: x in r <==> x < |imps| && Covers(imps[x], m)
  {
    CoveringBelow(imps, m, |imps|)
  }

  /** The covering implicants are listed in increasing order of index. */
  lemma {:induction false} CoveringAscending(imps: seq<Implicant>, m: uint64, k: nat)
    requires k <= |imps|
    ensures Ascending(CoveringBelow(imps, m, k))
  {
    if k > 0 {
      CoveringAscending(imps, m, k - 1);
      var r := CoveringBelow(imps, m, k - 1);
      assert forall u :: 0 <= u < |r| ==> r[u] in r;
    }
  }

  /** The covering implicants are in the list, and a covered minterm has some. */
  lemma CoveringBounds(imps: seq<Implicant>, m: uint64)
    ensures forall u :: 0 <= u < |Covering(imps, m)| ==> Covering(imps, m)[u] < |imps|
    ensures Covered(imps, m) ==> |Covering(imps, m)| > 0
  {
    var f := Covering(imps, m);
    forall u | 0 <= u < |f|
      ensures f[u] < |imps|
    {
      assert f[u] in f;
    }
    if Covered(imps, m) {
      var j :| 0 <= j < |imps| && Covers(imps[j], m);
      assert j in f;
    }
  }

  /** The number of minterms of `ms` that `p` covers, counted from the back. */
  function Count(p: Implicant, ms: seq<uint64>): (r: nat)
    ensures r <= |ms|
  {
    if |ms| == 0 then 0
    else Count(p, ms[..|ms| - 1]) + (if Covers(p, ms[|ms| - 1]) then 1 else 0)
  }

  /** The counts of every implicant over `ms`. */
  function CountTable(imps: seq<Implicant>, ms: seq<uint64>): (r: seq<nat>)
    ensures |r| == |imps|
  {
    seq(|imps|, j requires 0 <= j < |imps| => Count(imps[j], ms))
  }

  /** `frequencies` when minterm `i` is processed: the counts over minterms `i` on. */
  function Frequencies(imps: seq<Implicant>, ms: seq<uint64>, i: nat): (r: seq<nat>)
    requires i <= |ms|
    ensures |r| == |imps|
  {
    CountTable(imps, ms[i..])
  }

  /** A chosen implicant covers the minterm of `f`. */
  predicate Absorbs(minimal: seq<bool>, f: seq<nat>) {
    exists x :: x in f && x < |minimal| && minimal[x]
  }

  /** The first entry of `f` of greatest frequency: the loop that starts from `f[0]`
    * and moves on only to a strictly greater frequency. */
  function BestOf(freq: seq<nat>, f: seq<nat>): (r: nat)
    requires |f| > 0 && forall u :: 0 <= u < |f| ==> f[u] < |freq|
    ensures r in f && r < |freq|
    ensures forall u :: 0 <= u < |f| ==> freq[f[u]] <= freq[r]
  {
    if |f| == 1 then f[0]
    else
      var b := BestOf(freq, f[..|f| - 1]);
      if freq[f[|f| - 1]] > freq[b] then f[|f| - 1] else b
  }

  /** In an increasing `f`, the best entry is the lowest of those of its frequency. */
  lemma {:induction false} BestOfFirst(freq: seq<nat>, f: seq<nat>)
    requires |f| > 0 && (forall u :: 0 <= u < |f| ==> f[u] < |freq|) && Ascending(f)
    ensures forall u :: 0 <= u < |f| && freq[f[u]] == freq[BestOf(freq, f)] ==> BestOf(freq, f) <= f[u]
  {
    if |f| > 1 {
      var g := f[..|f| - 1];
      BestOfFirst(freq, g);
      var b := BestOf(freq, g);
      var u0 :| 0 <= u0 < |g| && g[u0] == b;
      assert b < f[|f| - 1];
    }
  }

  /** No implicant chosen yet. */
  function NoneChosen(count: nat): (r: seq<bool>)
    ensures |r| == count && forall j :: 0 <= j < count ==> !r[j]
  {
    seq(count, _ => false)
  }

  /** `minimal` after the first `k` minterms. A minterm no implicant covers, for which
    * the source reads past the end of its empty list of covering implicants, leaves
    * the flags as they are. */
  function Minimal(imps: seq<Implicant>, ms: seq<uint64>, k: nat): (r: seq<bool>)
    requires k <= |ms|
    ensures |r| == |imps|
  {
    if k == 0 then NoneChosen(|imps|)
    else
      var prev := Minimal(imps, ms, k - 1);
      var f := Covering(imps, ms[k - 1]);
      CoveringBounds(imps, ms[k - 1]);
      if Absorbs(prev, f) || |f| == 0 then prev
      else prev[BestOf(Frequencies(imps, ms, k - 1), f) := true]
  }

  /** The implicants whose flag is set, in their order. */
  function Keep(imps: seq<Implicant>, minimal: seq<bool>): seq<Implicant>
    requires |minimal| == |imps|
  {
    if |imps| == 0 then []
    else (if minimal[0] then [imps[0]] else []) + Keep(imps[1..], minimal[1..])
  }

  /** What `boolean_implicants_minimalize` leaves in the list. */
  function Reduced(imps: seq<Implicant>, ms: seq<uint64>): seq<Implicant> {
    Keep(imps, Minimal(imps, ms, |ms|))
  }

  /** Counting from the front gives the same number. */
  lemma {:induction false} CountFront(p: Implicant, s: seq<uint64>)
    requires |s| > 0
    ensures Count(p, s) == (if Covers(p, s[0]) then 1 else 0) + Count(p, s[1..])
  {
    if |s| > 1 {
      CountFront(p, s[..|s| - 1]);
      assert s[..|s| - 1][1..] == s[1..][..|s| - 2];
    }
  }

  /** Processing minterm `i` lowers the frequency of exactly its covering implicants, by one. */
  lemma FrequencyStep(imps: seq<Implicant>, ms: seq<uint64>, i: nat, x: nat)
    requires i < |ms| && x < |imps|
    ensures Frequencies(imps, ms, i)[x] == Frequencies(imps, ms, i + 1)[x] + (if Covers(imps[x], ms[i]) then 1 else 0)
  {
    CountFront(imps[x], ms[i..]);
    assert ms[i..][1..] == ms[i + 1..];
  }

  /** The frequency of implicant `j` when minterm `i` is processed is the number of
    * minterms from `i` on that it covers. */
  lemma {:induction false} FrequencyMeaning(imps: seq<Implicant>, ms: seq<uint64>, i: nat, j: nat)
    requires i <= |ms| && j < |imps|
    ensures Frequencies(imps, ms, i)[j] == |set t | i <= t < |ms| && Covers(imps[j], ms[t])|
    decreases |ms| - i
  {
    if i < |ms| {
      FrequencyMeaning(imps, ms, i + 1, j);
      FrequencyStep(imps, ms, i, j);
      var later := set t | i + 1 <= t < |ms| && Covers(imps[j], ms[t]);
      if Covers(imps[j], ms[i]) {
        assert (set t | i <= t < |ms| && Covers(imps[j], ms[t])) == later + {i};
      } else {
        assert (set t | i <= t < |ms| && Covers(imps[j], ms[t])) == later;
      }
    }
  }

  /** The loop over the implicants for minterm `m`: the indices of those covering it,
    * each of their frequencies counted up. */
  method Factor(imps: seq<Implicant>, m: uint64, frequencies: array<nat>) returns (f: seq<nat>)
    requires frequencies.Length == |imps|
    modifies frequencies
    ensures f == Covering(imps, m)
    ensures forall x :: 0 <= x < |imps| ==> frequencies[x] == old(frequencies[x]) + (if Covers(imps[x], m) then 1 else 0)
  {
    f := [];
    for j := 0 to |imps|
      invariant f == CoveringBelow(imps, m, j)
      invariant forall x :: 0 <= x < |imps| ==>
                  frequencies[x] == old(frequencies[x]) + (if x < j && Covers(imps[x], m) then 1 else 0)
    {
      if Covers(imps[j], m) {
        f := f + [j];
        frequencies[j] := frequencies[j] + 1;
      }
    }
  }

  /** The first loop: the covering implicants of every minterm, and for every
    * implicant the number of minterms it covers. */
  method Tally(imps: seq<Implicant>, ms: seq<uint64>) returns (factors: seq<seq<nat>>, frequencies: array<nat>)
    ensures fresh(frequencies) && frequencies[..] == Frequencies(imps, ms, 0)
    ensures |factors| == |ms| && forall i :: 0 <= i < |ms| ==> factors[i] == Covering(imps, ms[i])
  {
    frequencies := new nat[|imps|](_ => 0);
    factors := [];
    for i := 0 to |ms|
      invariant frequencies[..] == CountTable(imps, ms[..i])
      invariant |factors| == i && forall t :: 0 <= t < i ==> factors[t] == Covering(imps, ms[t])
    {
      var f := Factor(imps, ms[i], frequencies);
      factors := factors + [f];
      assert ms[..i + 1][..i] == ms[..i];
    }
    assert ms[..|ms|] == ms[0..];
  }

  /** The loop that looks for a chosen implicant among those covering the minterm. */
  method Absorbed(minimal: array<bool>, f: seq<nat>) returns (absorbed: bool)
    requires forall u :: 0 <= u < |f| ==> f[u] < minimal.Length
    ensures absorbed == Absorbs(minimal[..], f)
  {
    absorbed := false;
    var j := 0;
    while j < |f|
      invariant j <= |f|
      invariant forall u :: 0 <= u < j ==> !minimal[f[u]]
    {
      if minimal[f[j]] {
        absorbed := true;
        break;
      }
      j := j + 1;
    }
  }

  /** The loop that picks the first covering implicant of greatest frequency. */
  method MostFrequent(frequencies: array<nat>, f: seq<nat>) returns (most: nat)
    requires |f| > 0 && forall u :: 0 <= u < |f| ==> f[u] < frequencies.Length
    ensures most == BestOf(frequencies[..], f)
  {
    most := f[0];
    for j := 1 to |f|
      invariant most == BestOf(frequencies[..], f[..j])
    {
      assert f[..j + 1][..j] == f[..j];
      if frequencies[f[j]] > frequencies[most] {
        most := f[j];
      }
    }
    assert f[..|f|] == f;
  }

  /** The loop that counts minterm `i` out of the frequencies of its covering implicants. */
  method Decrement(frequencies: array<nat>, f: seq<nat>, ghost imps: seq<Implicant>, ghost ms: seq<uint64>, ghost i: nat)
    requires i < |ms| && frequencies.Length == |imps|
    requires f == Covering(imps, ms[i]) && frequencies[..] == Frequencies(imps, ms, i)
    modifies frequencies
    ensures frequencies[..] == Frequencies(imps, ms, i + 1)
  {
    ghost var before := Frequencies(imps, ms, i);
    ghost var after := Frequencies(imps, ms, i + 1);
    CoveringAscending(imps, ms[i], |imps|);
    for t := 0 to |f|
      invariant forall x :: 0 <= x < |imps| ==> frequencies[x] == if x in f[..t] then after[x] else before[x]
    {
      assert f[t] in f && f[t] !in f[..t];
      FrequencyStep(imps, ms, i, f[t]);
      frequencies[f[t]] := frequencies[f[t]] - 1;
      assert forall x :: x in f[..t + 1] <==> x in f[..t] || x == f[t];
    }
    forall x | 0 <= x < |imps|
      ensures frequencies[x] == after[x]
    {
      FrequencyStep(imps, ms, i, x);
      assert f[..|f|] == f;
    }
  }

  /** The body of the second loop for minterm `i`, up to the frequencies: an implicant
    * chosen for it unless a chosen one covers it already. */
  method Choose(minimal: array<bool>, frequencies: array<nat>, f: seq<nat>,
                ghost imps: seq<Implicant>, ghost ms: seq<uint64>, ghost i: nat)
    requires i < |ms| && Covered(imps, ms[i]) && f == Covering(imps, ms[i])
    requires minimal.Length == |imps| && minimal[..] == Minimal(imps, ms, i)
    requires frequencies.Length == |imps| && frequencies[..] == Frequencies(imps, ms, i)
    modifies minimal
    ensures minimal[..] == Minimal(imps, ms, i + 1)
  {
    CoveringBounds(imps, ms[i]);
    var absorbed := Absorbed(minimal, f);
    if !absorbed {
      var most := MostFrequent(frequencies, f);
      minimal[most] := true;
    }
  }

  /** The second loop: every minterm in order, choosing an implicant for it unless a
    * chosen one covers it already, then counting it out of the frequencies. */
  method Select(imps: seq<Implicant>, ms: seq<uint64>, factors: seq<seq<nat>>, frequencies: array<nat>)
    returns (minimal: array<bool>)
    requires AllCovered(imps, ms)
    requires |factors| == |ms| && forall i :: 0 <= i < |ms| ==> factors[i] == Covering(imps, ms[i])
    requires frequencies.Length == |imps| && frequencies[..] == Frequencies(imps, ms, 0)
    modifies frequencies
    ensures fresh(minimal) && minimal[..] == Minimal(imps, ms, |ms|)
  {
    minimal := new bool[|imps|](_ => false);
    for i := 0 to |ms|
      invariant minimal.Length == |imps| && minimal[..] == Minimal(imps, ms, i)
      invariant frequencies[..] == Frequencies(imps, ms, i)
    {
      Choose(minimal, frequencies, factors[i], imps, ms, i);
      Decrement(frequencies, factors[i], imps, ms, i);
    }
  }

  /** The last loop: from the back, every implicant not chosen moved out of the list. */
  method Compact(implicants: ImplicantList, minimal: array<bool>)
    requires minimal.Length == |implicants.data|
    modifies implicants
    ensures implicants.data == Keep(old(implicants.data), minimal[..])
  {
    ghost var D := implicants.data;
    var i := |implicants.data|;
    while i > 0
      invariant 0 <= i <= |D|
      invariant implicants.data == D[..i] + Keep(D[i..], minimal[i..])
    {
      i := i - 1;
      assert D[i..][1..] == D[i + 1..] && minimal[i..][1..] == minimal[i + 1..];
      if !minimal[i] {
        implicants.data := implicants.data[..i] + implicants.data[i + 1..];
      }
    }
  }

  /** `boolean_implicants_minimalize`. */
  method Minimalize(implicants: ImplicantList, minterms: seq<uint64>)
    requires AllCovered(implicants.data, minterms)
    modifies implicants
    ensures implicants.data == Reduced(old(implicants.data), minterms)
  {
    var imps := implicants.data;
    var factors, frequencies := Tally(imps, minterms);
    var minimal := Select(imps, minterms, factors, frequencies);
    Compact(implicants, minimal);
  }

  /** The greedy rule for minterm `k`, first half: nothing changes when a chosen
    * implicant covers it already. */
  lemma SkipRule(imps: seq<Implicant>, ms: seq<uint64>, k: nat)
    requires k < |ms| && CoveredBy(imps, Minimal(imps, ms, k), ms[k])
    ensures Minimal(imps, ms, k + 1) == Minimal(imps, ms, k)
  {
    var j :| 0 <= j < |imps| && Minimal(imps, ms, k)[j] && Covers(imps[j], ms[k]);
    assert j in Covering(imps, ms[k]);
  }

  /** The greedy rule for minterm `k`, second half: when no chosen implicant covers it,
    * exactly one implicant is chosen, one that covers it, covers no fewer of the
    * minterms from `k` on than any other that covers it, and has the lowest index
    * among those that cover as many. */
  lemma ChooseRule(imps: seq<Implicant>, ms: seq<uint64>, k: nat)
    requires k < |ms| && Covered(imps, ms[k]) && !CoveredBy(imps, Minimal(imps, ms, k), ms[k])
    ensures var F := Frequencies(imps, ms, k);
      exists b :: 0 <= b < |imps| && Minimal(imps, ms, k + 1) == Minimal(imps, ms, k)[b := true] && Covers(imps[b], ms[k])
        && (forall j :: 0 <= j < |imps| && Covers(imps[j], ms[k]) ==> F[j] <= F[b])
        && (forall j :: 0 <= j < |imps| && Covers(imps[j], ms[k]) && F[j] == F[b] ==> b <= j)
  {
    var prev := Minimal(imps, ms, k);
    var f := Covering(imps, ms[k]);
    CoveringBounds(imps, ms[k]);
    var F := Frequencies(imps, ms, k);
    var b := BestOf(F, f);
    CoveringAscending(imps, ms[k], |imps|);
    BestOfFirst(F, f);
    forall j | 0 <= j < |imps| && Covers(imps[j], ms[k])
      ensures F[j] <= F[b] && (F[j] == F[b] ==> b <= j)
    {
      assert j in f;
      var u :| 0 <= u < |f| && f[u] == j;
    }
    assert b in f;
  }

  /** A chosen implicant covers `m`. */
  ghost predicate CoveredBy(imps: seq<Implicant>, minimal: seq<bool>, m: uint64) {
    exists j :: 0 <= j < |imps| && j < |minimal| && minimal[j] && Covers(imps[j], m)
  }

  /** What a chosen implicant covers stays covered. */
  lemma CoveredByGrows(imps: seq<Implicant>, ms: seq<uint64>, k: nat, m: uint64)
    requires 0 < k <= |ms| && CoveredBy(imps, Minimal(imps, ms, k - 1), m)
    ensures CoveredBy(imps, Minimal(imps, ms, k), m)
  {
    var j :| 0 <= j < |imps| && Minimal(imps, ms, k - 1)[j] && Covers(imps[j], m);
    assert Minimal(imps, ms, k)[j];
  }

  /** Once minterm `k` is processed, a chosen implicant covers it. */
  lemma CoversCurrent(imps: seq<Implicant>, ms: seq<uint64>, k: nat)
    requires k < |ms| && Covered(imps, ms[k])
    ensures CoveredBy(imps, Minimal(imps, ms, k + 1), ms[k])
  {
    var prev := Minimal(imps, ms, k);
    var f := Covering(imps, ms[k]);
    CoveringBounds(imps, ms[k]);
    if Absorbs(prev, f) {
      var x :| x in f && x < |prev| && prev[x];
      assert Minimal(imps, ms, k + 1)[x];
    } else {
      var b := BestOf(Frequencies(imps, ms, k), f);
      assert Minimal(imps, ms, k + 1)[b];
    }
  }

  /** After `k` minterms, each of them is covered by a chosen implicant. */
  lemma {:induction false} MinimalCovers(imps: seq<Implicant>, ms: seq<uint64>, k: nat)
    requires AllCovered(imps, ms) && k <= |ms|
    ensures forall t {:trigger CoveredBy(imps, Minimal(imps, ms, k), ms[t])} :: 0 <= t < k ==> CoveredBy(imps, Minimal(imps, ms, k), ms[t])
  {
    if k > 0 {
      MinimalCovers(imps, ms, k - 1);
      forall t | 0 <= t < k - 1
        ensures CoveredBy(imps, Minimal(imps, ms, k), ms[t])
      {
        CoveredByGrows(imps, ms, k, ms[t]);
      }
      var p := k - 1;
      CoversCurrent(imps, ms, p);
      assert p + 1 == k;
    }
  }

  /** `a` is `b` with some elements left out, the rest in their order. */
  predicate Subsequence(a: seq<Implicant>, b: seq<Implicant>)
    decreases |b|
  {
    if |a| == 0 then true
    else if |b| == 0 then false
    else (a[0] == b[0] && Subsequence(a[1..], b[1..])) || Subsequence(a, b[1..])
  }

  /** A subsequence holds nothing that is not in the list. */
  lemma {:induction false} SubsequenceMembers(a: seq<Implicant>, b: seq<Implicant>)
    requires Subsequence(a, b)
    ensures forall x :: x in a ==> x in b
    decreases |b|
  {
    if |a| > 0 {
      if a[0] == b[0] && Subsequence(a[1..], b[1..]) {
        SubsequenceMembers(a[1..], b[1..]);
        forall x | x in a
          ensures x in b
        {
          if x != a[0] {
            assert x in a[1..];
          }
        }
      } else {
        SubsequenceMembers(a, b[1..]);
      }
    }
  }

  /** Keeping the flagged implicants keeps every one of them, nothing else, in order. */
  lemma {:induction false} KeepProperties(imps: seq<Implicant>, minimal: seq<bool>)
    requires |minimal| == |imps|
    ensures Subsequence(Keep(imps, minimal), imps)
    ensures forall j :: 0 <= j < |imps| && minimal[j] ==> imps[j] in Keep(imps, minimal)
  {
    if |imps| > 0 {
      KeepProperties(imps[1..], minimal[1..]);
      var rest := Keep(imps[1..], minimal[1..]);
      if minimal[0] {
        assert Keep(imps, minimal) == [imps[0]] + rest;
        assert ([imps[0]] + rest)[1..] == rest;
      } else {
        assert Keep(imps, minimal) == rest;
      }
      forall j | 0 < j < |imps| && minimal[j]
        ensures imps[j] in Keep(imps, minimal)
      {
        assert imps[1..][j - 1] == imps[j] && minimal[1..][j - 1];
      }
    }
  }

  /** What `boolean_implicants_minimalize` leaves is an order-preserving subsequence of
    * the list that still covers every minterm. */
  lemma ReducedCovers(imps: seq<Implicant>, ms: seq<uint64>)
    requires AllCovered(imps, ms)
    ensures Subsequence(Reduced(imps, ms), imps)
    ensures AllCovered(Reduced(imps, ms), ms)
  {
    var minimal := Minimal(imps, ms, |ms|);
    var r := Reduced(imps, ms);
    KeepProperties(imps, minimal);
    MinimalCovers(imps, ms, |ms|);
    forall t | 0 <= t < |ms|
      ensures exists x :: 0 <= x < |r| && Covers(r[x], ms[t])
    {
      assert CoveredBy(imps, minimal, ms[t]);
      var j :| 0 <= j < |imps| && minimal[j] && Covers(imps[j], ms[t]);
      var x :| 0 <= x < |r| && r[x] == imps[j];
    }
  }
}
