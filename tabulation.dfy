/**
 * `boolean_implicants_from_minterms`: the table of the minterms, then passes until
 * one combines nothing, collecting the terms each pass leaves uncombined. What the
 * passes keep: every term of a pass has the same number of selected bits, one fewer
 * than in the pass before (so there are at most `n + 1` passes); no term covers a
 * value outside the minterms; every minterm stays covered by a table term or by an
 * emitted implicant.
 */
module Tabulation {
  import opened Bits
  import opened Implicants
  import opened Tables
  import opened Passes

  /** Every term selects `d` bits, all below bit `n`. */
  ghost predicate Layered(G: Groups, n: nat, d: int) {
    forall g, j :: 0 <= g < |G| && 0 <= j < |G[g]| ==> G[g][j].mask < Pow2(n) && Popcount(G[g][j].mask) == d
  }

  /** `p` covers no value below `2^n` that is not a minterm. */
  ghost predicate SoundTerm(p: Implicant, minterms: seq<uint64>, n: nat) {
    forall x: uint64 :: x < Pow2(n) && Covers(p, x) ==> x in minterms
  }

  ghost predicate Sound(G: Groups, minterms: seq<uint64>, n: nat) {
    forall g, j :: 0 <= g < |G| && 0 <= j < |G[g]| ==> SoundTerm(G[g][j], minterms, n)
  }

  /** Some term of the table covers `x`. */
  ghost predicate TableCovers(G: Groups, x: nat) {
    exists g, j :: 0 <= g < |G| && 0 <= j < |G[g]| && Covers(G[g][j], x)
  }

  /** Some implicant of the list covers `x`. */
  ghost predicate ListCovers(P: seq<Implicant>, x: nat) {
    exists j :: 0 <= j < |P| && Covers(P[j], x)
  }

  /** A combination of two terms of layer `d` lies in layer `d - 1`. */
  lemma ProducedLayered(G: Groups, n: nat, d: int, x: Implicant)
    requires Layered(G, n, d) && Produced(G, x)
    ensures x.mask < Pow2(n) && Popcount(x.mask) == d - 1
  {
    var i, j, k :| 0 <= i && i + 1 < |G| && 0 <= j < |G[i]| && 0 <= k < |G[i + 1]|
      && Combinable(G[i][j], G[i + 1][k]) && x == Combine(G[i][j], G[i + 1][k]);
    var bit := DifferingBit(G[i][j], G[i + 1][k]);
    CombineMask(G[i][j], G[i + 1][k], bit);
  }

  /** A term below `2^n` belongs to one of the groups `0 .. n`. */
  lemma GroupBound(p: Implicant, n: nat)
    requires p.mask < Pow2(n)
    ensures Group(p) <= n
  {
    PopcountBound(And(p.value, p.mask), n);
  }

  /** A pass of layer `d` leaves an output table of layer `d - 1`; a layer with no
    * selected bit has no pair. */
  lemma PassLayered(G: Groups, n: nat, d: int)
    requires |G| > 0 && Layered(G, n, d)
    ensures Layered(Done(G, Start(G, n + 1)).output, n, d - 1)
    ensures AnyPair(G) ==> d >= 1
  {
    var out: Groups := Done(G, Start(G, n + 1)).output;
    PassOutput(G, n + 1);
    forall g, j | 0 <= g < |out| && 0 <= j < |out[g]|
      ensures out[g][j].mask < Pow2(n) && Popcount(out[g][j].mask) == d - 1
    {
      ProducedLayered(G, n, d, out[g][j]);
    }
    if AnyPair(G) {
      var i, j, k :| 0 <= i && i + 1 < |G| && 0 <= j < |G[i]| && 0 <= k < |G[i + 1]|
        && Combinable(G[i][j], G[i + 1][k]);
      assert Produced(G, Combine(G[i][j], G[i + 1][k]));
      ProducedLayered(G, n, d, Combine(G[i][j], G[i + 1][k]));
    }
  }

  /** A combination of two sound terms is sound. */
  lemma ProducedSound(G: Groups, minterms: seq<uint64>, n: nat, x: Implicant)
    requires Sound(G, minterms, n) && Produced(G, x)
    ensures SoundTerm(x, minterms, n)
  {
    var i, j, k :| 0 <= i && i + 1 < |G| && 0 <= j < |G[i]| && 0 <= k < |G[i + 1]|
      && Combinable(G[i][j], G[i + 1][k]) && x == Combine(G[i][j], G[i + 1][k]);
    forall y: uint64 | y < Pow2(n) && Covers(x, y)
      ensures y in minterms
    {
      CombineCovers(G[i][j], G[i + 1][k], y);
    }
  }

  /** A pass over a sound table emits sound implicants and leaves a sound table. */
  lemma PassSound(G: Groups, minterms: seq<uint64>, n: nat)
    requires |G| > 0 && Sound(G, minterms, n)
    ensures Sound(Done(G, Start(G, n + 1)).output, minterms, n)
    ensures forall p :: p in Done(G, Start(G, n + 1)).emitted ==> SoundTerm(p, minterms, n)
  {
    var r: PassState := Done(G, Start(G, n + 1));
    PassOutput(G, n + 1);
    PassEmitted(G, n + 1);
    forall g, j | 0 <= g < |r.output| && 0 <= j < |r.output[g]|
      ensures SoundTerm(r.output[g][j], minterms, n)
    {
      ProducedSound(G, minterms, n, r.output[g][j]);
    }
    forall p | p in r.emitted
      ensures SoundTerm(p, minterms, n)
    {
      assert Unflagged(G, p);
    }
  }

  /** The combination of `a` and `b` is in the output table and covers what `a` covers. */
  lemma CombinedCovers(G: Groups, n: nat, d: int, x: nat, a: Implicant, b: Implicant)
    requires |G| > 0 && Layered(G, n, d) && Combinable(a, b) && Produced(G, Combine(a, b))
    requires Covers(a, x) || Covers(b, x)
    ensures TableCovers(Done(G, Start(G, n + 1)).output, x)
  {
    var c := Combine(a, b);
    var out: Groups := Done(G, Start(G, n + 1)).output;
    PassOutput(G, n + 1);
    ProducedLayered(G, n, d, c);
    GroupBound(c, n);
    CombineCovers(a, b, x);
    var j :| 0 <= j < |out[Group(c)]| && out[Group(c)][j] == c;
    assert Covers(out[Group(c)][j], x);
  }

  /** A term left unflagged is emitted, with what it covers. */
  lemma UnflaggedCovers(G: Groups, n: nat, i: nat, j: nat, x: nat)
    requires i < |G| && j < |G[i]| && !Flag(G, i, j) && Covers(G[i][j], x)
    ensures ListCovers(Done(G, Start(G, n + 1)).emitted, x)
  {
    var e: seq<Implicant> := Done(G, Start(G, n + 1)).emitted;
    PassEmitted(G, n + 1);
    assert Unflagged(G, G[i][j]);
    var h :| 0 <= h < |e| && e[h] == G[i][j];
  }

  /** A flagged term combined with a neighbour, and the combination covers what it covers. */
  lemma FlaggedCovers(G: Groups, n: nat, d: int, i: nat, j: nat, x: nat)
    requires Layered(G, n, d) && i < |G| && j < |G[i]| && Flag(G, i, j) && Covers(G[i][j], x)
    ensures TableCovers(Done(G, Start(G, n + 1)).output, x)
  {
    var p := G[i][j];
    if i + 1 < |G| && CombinedAfter(p, G[i + 1], |G[i + 1]|) {
      var k :| 0 <= k < |G[i + 1]| && Combinable(p, G[i + 1][k]);
      assert Produced(G, Combine(p, G[i + 1][k]));
      CombinedCovers(G, n, d, x, p, G[i + 1][k]);
    } else {
      var i0 := i - 1;
      var k :| 0 <= k < |G[i0]| && Combinable(G[i0][k], p);
      assert G[i0 + 1][j] == p;
      assert Produced(G, Combine(G[i0][k], G[i0 + 1][j]));
      CombinedCovers(G, n, d, x, G[i0][k], p);
    }
  }

  /** What a table term covers, an emitted implicant or an output term covers. */
  lemma PassCovers(G: Groups, n: nat, d: int, x: nat)
    requires |G| > 0 && Layered(G, n, d) && TableCovers(G, x)
    ensures var r := Done(G, Start(G, n + 1));
      TableCovers(r.output, x) || ListCovers(r.emitted, x)
  {
    var i, j :| 0 <= i < |G| && 0 <= j < |G[i]| && Covers(G[i][j], x);
    if Flag(G, i, j) {
      FlaggedCovers(G, n, d, i, j, x);
    } else {
      UnflaggedCovers(G, n, i, j, x);
    }
  }

  /** An emitted implicant combines with no term of its table, in either order. */
  lemma PassPrime(G: Groups, n: nat, p: Implicant, g: nat, k: nat)
    requires |G| > 0 && Grouped(G) && p in Done(G, Start(G, n + 1)).emitted
    requires g < |G| && k < |G[g]|
    ensures !Combinable(p, G[g][k]) && !Combinable(G[g][k], p)
  {
    PassEmitted(G, n + 1);
    var i, j :| 0 <= i < |G| && 0 <= j < |G[i]| && G[i][j] == p && !Flag(G, i, j);
    var q := G[g][k];
    CombinableSymmetric(p, q);
    if Combinable(p, q) {
      var bit := CombinableGroups(p, q);
    }
  }

  /** A pass that combined something leaves a table of the next layer. */
  lemma NextLayer(G: Groups, n: nat, d: int)
    requires |G| > 0 && Layered(G, n, d) && !Done(G, Start(G, n + 1)).minimized
    ensures d >= 1
    ensures |Done(G, Start(G, n + 1)).output| == n + 1 && Layered(Done(G, Start(G, n + 1)).output, n, d - 1)
  {
    PassLayered(G, n, d);
    PassMinimized(G, n + 1);
    PassOutput(G, n + 1);
  }

  /** The implicants the passes emit from table `G` of layer `d` on: one pass, then the
    * passes over its output table unless it combined nothing. */
  function Primes(G: Groups, n: nat, d: nat): seq<Implicant>
    requires |G| == n + 1 && Layered(G, n, d)
    decreases d
  {
    var r := Done(G, Start(G, n + 1));
    if r.minimized then r.emitted
    else
      NextLayer(G, n, d);
      r.emitted + Primes(r.output, n, d - 1)
  }

  /** The number of passes from table `G` of layer `d` on: at most `d + 1`, as every
    * pass that combines something lowers the layer. */
  function PassCount(G: Groups, n: nat, d: nat): (r: nat)
    requires |G| == n + 1 && Layered(G, n, d)
    ensures 1 <= r <= d + 1
    decreases d
  {
    var r := Done(G, Start(G, n + 1));
    if r.minimized then 1
    else
      NextLayer(G, n, d);
      1 + PassCount(r.output, n, d - 1)
  }

  /** After a pass that combined something, the output table is the next layer, with
    * the table invariants, and the passes go on from it. */
  lemma PassNext(G: Groups, n: nat, d: nat)
    requires |G| == n + 1 && Layered(G, n, d) && !Done(G, Start(G, n + 1)).minimized
    ensures d >= 1
    ensures var out := Done(G, Start(G, n + 1)).output;
      |out| == n + 1 && Layered(out, n, d - 1)
    ensures Primes(G, n, d) == Done(G, Start(G, n + 1)).emitted + Primes(Done(G, Start(G, n + 1)).output, n, d - 1)
  {
    NextLayer(G, n, d);
  }

  lemma OutputKeeps(G: Groups, n: nat)
    requires |G| > 0
    ensures Unique(Done(G, Start(G, n + 1)).output) && Grouped(Done(G, Start(G, n + 1)).output)
  {
    PassOutput(G, n + 1);
  }

  /** The implicants a pass emits are terms of its layer. */
  lemma EmittedLayer(G: Groups, n: nat, d: nat)
    requires |G| > 0 && Layered(G, n, d)
    ensures forall p :: p in Done(G, Start(G, n + 1)).emitted ==> p.mask < Pow2(n) && Popcount(p.mask) == d
  {
    PassEmitted(G, n + 1);
    forall p | p in Done(G, Start(G, n + 1)).emitted
      ensures p.mask < Pow2(n) && Popcount(p.mask) == d
    {
      assert Unflagged(G, p);
    }
  }

  lemma EmittedDistinct(G: Groups, n: nat)
    requires |G| > 0 && Unique(G) && Grouped(G)
    ensures NoDuplicates(Done(G, Start(G, n + 1)).emitted)
  {
    PassEmitted(G, n + 1);
  }

  /** Every emitted implicant selects at most `d` bits, all below bit `n`. */
  lemma {:induction false} PrimesLayers(G: Groups, n: nat, d: nat)
    requires |G| == n + 1 && Layered(G, n, d)
    ensures forall p :: p in Primes(G, n, d) ==> p.mask < Pow2(n) && Popcount(p.mask) <= d
    decreases d
  {
    var r := Done(G, Start(G, n + 1));
    EmittedLayer(G, n, d);
    if !r.minimized {
      PassNext(G, n, d);
      PrimesLayers(r.output, n, d - 1);
    }
  }

  /** Every emitted implicant of a sound table is sound. */
  lemma {:induction false} PrimesSound(G: Groups, minterms: seq<uint64>, n: nat, d: nat)
    requires |G| == n + 1 && Layered(G, n, d) && Sound(G, minterms, n)
    ensures forall p :: p in Primes(G, n, d) ==> SoundTerm(p, minterms, n)
    decreases d
  {
    var r := Done(G, Start(G, n + 1));
    PassSound(G, minterms, n);
    if !r.minimized {
      PassNext(G, n, d);
      PrimesSound(r.output, minterms, n, d - 1);
    }
  }

  lemma ProducedPair(G: Groups, x: Implicant)
    requires Produced(G, x)
    ensures AnyPair(G)
  {
  }

  /** A pass that combines nothing leaves an empty output table. */
  lemma MinimizedEmpty(G: Groups, n: nat, x: nat)
    requires |G| > 0 && Done(G, Start(G, n + 1)).minimized
    ensures !TableCovers(Done(G, Start(G, n + 1)).output, x)
  {
    var out: Groups := Done(G, Start(G, n + 1)).output;
    PassMinimized(G, n + 1);
    PassOutput(G, n + 1);
    if TableCovers(out, x) {
      var g, j :| 0 <= g < |out| && 0 <= j < |out[g]| && Covers(out[g][j], x);
      assert out[g][j] in out[g];
      ProducedPair(G, out[g][j]);
    }
  }

  lemma ListCoversAppend(a: seq<Implicant>, b: seq<Implicant>, x: nat)
    requires ListCovers(a, x) || ListCovers(b, x)
    ensures ListCovers(a + b, x)
  {
    if ListCovers(a, x) {
      var j :| 0 <= j < |a| && Covers(a[j], x);
      assert (a + b)[j] == a[j];
    } else {
      var j :| 0 <= j < |b| && Covers(b[j], x);
      assert (a + b)[|a| + j] == b[j];
    }
  }

  /** What a table term covers, an emitted implicant covers. */
  lemma {:induction false} PrimesCover(G: Groups, n: nat, d: nat, x: nat)
    requires |G| == n + 1 && Layered(G, n, d) && TableCovers(G, x)
    ensures ListCovers(Primes(G, n, d), x)
    decreases d
  {
    var r := Done(G, Start(G, n + 1));
    PassCovers(G, n, d, x);
    if r.minimized {
      MinimizedEmpty(G, n, x);
    } else {
      PassNext(G, n, d);
      if !ListCovers(r.emitted, x) {
        PrimesCover(r.output, n, d - 1, x);
      }
      ListCoversAppend(r.emitted, Primes(r.output, n, d - 1), x);
    }
  }

  lemma ConcatNoDuplicates(a: seq<Implicant>, b: seq<Implicant>)
    requires NoDuplicates(a) && NoDuplicates(b) && forall x :: x in a ==> x !in b
    ensures NoDuplicates(a + b)
  {
    forall i, j | 0 <= i < j < |a + b|
      ensures (a + b)[i] != (a + b)[j]
    {
      if i < |a| && j >= |a| {
        assert (a + b)[j] in b;
      }
    }
  }

  /** Two lists of distinct implicants from different layers join into one. */
  lemma LayersNoDuplicates(a: seq<Implicant>, b: seq<Implicant>, d: nat)
    requires NoDuplicates(a) && NoDuplicates(b)
    requires forall p :: p in a ==> Popcount(p.mask) == d
    requires forall p :: p in b ==> Popcount(p.mask) <= d - 1
    ensures NoDuplicates(a + b)
  {
    ConcatNoDuplicates(a, b);
  }

  /** A table without duplicates, each term in its group, emits no implicant twice:
    * within a pass the terms differ, and passes differ in the layer. */
  lemma {:induction false} PrimesNoDuplicates(G: Groups, n: nat, d: nat)
    requires |G| == n + 1 && Layered(G, n, d) && Unique(G) && Grouped(G)
    ensures NoDuplicates(Primes(G, n, d))
    decreases d
  {
    var r := Done(G, Start(G, n + 1));
    if r.minimized {
      EmittedDistinct(G, n);
    } else {
      NextLayer(G, n, d);
      OutputKeeps(G, n);
      PrimesNoDuplicates(r.output, n, d - 1);
      NoDuplicatesStep(G, n, d);
    }
  }

  /** The step of `PrimesNoDuplicates`: the first pass's implicants, then the rest. */
  lemma NoDuplicatesStep(G: Groups, n: nat, d: nat)
    requires |G| == n + 1 && Layered(G, n, d) && Unique(G) && Grouped(G)
    requires !Done(G, Start(G, n + 1)).minimized
    requires NoDuplicates(PassNext(G, n, d); Primes(Done(G, Start(G, n + 1)).output, n, d - 1))
    ensures NoDuplicates(Primes(G, n, d))
  {
    var r := Done(G, Start(G, n + 1));
    PassNext(G, n, d);
    EmittedDistinct(G, n);
    PrimesLayers(r.output, n, d - 1);
    EmittedLayer(G, n, d);
    LayersNoDuplicates(r.emitted, Primes(r.output, n, d - 1), d);
  }

  /** The term of minterm `m`: its value with the low `n` bits selected, `(1 << n) - 1`. */
  function MintermTerm(m: uint64, n: nat): (p: Implicant)
    requires n < 64
    ensures p.value == m && p.mask == LowMask(n) && p.mask < Pow2(n) && Popcount(p.mask) == n
    ensures Group(p) <= n
  {
    Pow2Monotone(n, 64);
    Pow2Word();
    PopcountLowMask(n);
    GroupBound(Implicant(m, LowMask(n)), n);
    Implicant(m, LowMask(n))
  }

  /** The table the passes start from: the terms of the minterms, added in order. */
  function Initial(minterms: seq<uint64>, n: nat): (G: Groups)
    requires n < 64
    ensures |G| == n + 1
  {
    if |minterms| == 0 then Empty(n + 1)
    else Insert(Initial(minterms[..|minterms| - 1], n), MintermTerm(minterms[|minterms| - 1], n))
  }

  /** The initial table holds the term of every minterm once, in its group, and nothing else. */
  lemma {:induction false} InitialTable(minterms: seq<uint64>, n: nat)
    requires n < 64
    ensures var G := Initial(minterms, n);
      && Unique(G) && Grouped(G)
      && (forall g, x :: 0 <= g < |G| && x in G[g] ==> x.mask == LowMask(n) && x.value in minterms)
      && forall m :: m in minterms ==> MintermTerm(m, n) in G[Group(MintermTerm(m, n))]
  {
    if |minterms| > 0 {
      var front := minterms[..|minterms| - 1];
      var p := MintermTerm(minterms[|minterms| - 1], n);
      InitialTable(front, n);
      InsertMembers(Initial(front, n), p);
      InsertKeeps(Initial(front, n), p);
      GroupBound(p, n);
      forall m | m in minterms
        ensures MintermTerm(m, n) in Initial(minterms, n)[Group(MintermTerm(m, n))]
      {
        if m != minterms[|minterms| - 1] {
          assert m in front;
          GroupBound(MintermTerm(m, n), n);
        }
      }
    }
  }

  lemma InitialLayered(minterms: seq<uint64>, n: nat)
    requires n < 64
    ensures Layered(Initial(minterms, n), n, n)
  {
    var G: Groups := Initial(minterms, n);
    InitialTable(minterms, n);
    PopcountLowMask(n);
    forall g, j | 0 <= g < |G| && 0 <= j < |G[g]|
      ensures G[g][j].mask < Pow2(n) && Popcount(G[g][j].mask) == n
    {
      assert G[g][j] in G[g];
    }
  }

  /** A minterm's term covers no other value below `2^n`. */
  lemma MintermTermSound(m: uint64, n: nat, y: nat)
    requires n < 64 && m < Pow2(n) && y < Pow2(n) && Covers(MintermTerm(m, n), y)
    ensures y == m
  {
    var p := MintermTerm(m, n);
    CoversBits(p, y);
    forall k: nat | k < n
      ensures Bit(m, k) == Bit(y, k)
    {
      BitLowMask(n, k);
      assert Agrees(p, y, k);
    }
    BitsBelowEqual(m, y, n);
  }

  lemma InitialSound(minterms: seq<uint64>, n: nat)
    requires n < 64 && forall m :: m in minterms ==> m < Pow2(n)
    ensures Sound(Initial(minterms, n), minterms, n)
  {
    var G: Groups := Initial(minterms, n);
    InitialTable(minterms, n);
    forall g, j | 0 <= g < |G| && 0 <= j < |G[g]|
      ensures SoundTerm(G[g][j], minterms, n)
    {
      assert G[g][j] in G[g];
      var m := G[g][j].value;
      assert G[g][j] == MintermTerm(m, n);
      forall y: uint64 | y < Pow2(n) && Covers(G[g][j], y)
        ensures y in minterms
      {
        MintermTermSound(m, n, y);
      }
    }
  }

  lemma InitialCovers(minterms: seq<uint64>, n: nat, m: uint64)
    requires n < 64 && m in minterms
    ensures TableCovers(Initial(minterms, n), m)
  {
    var G: Groups := Initial(minterms, n);
    var p := MintermTerm(m, n);
    InitialTable(minterms, n);
    GroupBound(p, n);
    XorSelf(m);
    var j :| 0 <= j < |G[Group(p)]| && G[Group(p)][j] == p;
    assert Covers(G[Group(p)][j], m);
  }

  /** The implicants `boolean_implicants_from_minterms` returns for `n` variables. */
  function FromMinterms(minterms: seq<uint64>, n: nat): seq<Implicant>
    requires n < 64
  {
    InitialLayered(minterms, n);
    Primes(Initial(minterms, n), n, n)
  }

  /** For minterms below `2^n`: every implicant selects bits below `n` only and covers
    * only minterms, every minterm is covered, and no implicant comes twice. */
  lemma FromMintermsCorrect(minterms: seq<uint64>, n: nat)
    requires n < 64 && forall m :: m in minterms ==> m < Pow2(n)
    ensures var P := FromMinterms(minterms, n);
      && (forall p :: p in P ==> p.mask < Pow2(n) && SoundTerm(p, minterms, n))
      && (forall m :: m in minterms ==> ListCovers(P, m))
      && NoDuplicates(P)
  {
    var G: Groups := Initial(minterms, n);
    InitialLayered(minterms, n);
    InitialTable(minterms, n);
    InitialSound(minterms, n);
    PrimesLayers(G, n, n);
    PrimesSound(G, minterms, n, n);
    PrimesNoDuplicates(G, n, n);
    forall m | m in minterms
      ensures ListCovers(FromMinterms(minterms, n), m)
    {
      InitialCovers(minterms, n, m);
      PrimesCover(G, n, n, m);
    }
  }
}
