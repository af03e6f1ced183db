/**
 * `struct table` of `boolean_implicants.c`: one group of terms per population count
 * of the selected ones, each term an implicant with a `combined` flag. The model keeps
 * the implicants and the flags of the terms in two tables of the same shape; the
 * capacities of the groups are not behaviour.
 */
module Tables {
  import opened Bits
  import opened Implicants

  /** The implicants of the terms, group by group. */
  type Groups = seq<seq<Implicant>>

  /** `count` empty groups. */
  function Empty(count: nat): (r: Groups)
    ensures |r| == count && forall g :: 0 <= g < count ==> r[g] == []
  {
    seq(count, _ => [])
  }

  /** Flags for `count` empty groups. */
  function NoFlags(count: nat): (r: seq<seq<bool>>)
    ensures |r| == count && forall g :: 0 <= g < count ==> r[g] == []
  {
    seq(count, _ => [])
  }

  /** The implicants after `table_add_implicant`: `p` joins the end of its group unless
    * the group already holds it. A group outside the table fails the source's
    * assertion; `Table.AddImplicant` requires it to exist. */
  function Insert(groups: Groups, p: Implicant): Groups {
    var g := Group(p);
    if g < |groups| && p !in groups[g] then groups[g := groups[g] + [p]] else groups
  }

  /** No group holds an implicant twice. */
  ghost predicate Unique(groups: Groups) {
    forall g, j, k :: 0 <= g < |groups| && 0 <= j < k < |groups[g]| ==> groups[g][j] != groups[g][k]
  }

  /** Every implicant sits in the group of its population count. */
  ghost predicate Grouped(groups: Groups) {
    forall g, j :: 0 <= g < |groups| && 0 <= j < |groups[g]| ==> Group(groups[g][j]) == g
  }

  /** Insertion keeps every group's terms in place and adds at most `p`, at the end. */
  lemma InsertMembers(groups: Groups, p: Implicant)
    ensures |Insert(groups, p)| == |groups|
    ensures forall g :: 0 <= g < |groups| ==> groups[g] <= Insert(groups, p)[g]
    ensures forall g, x :: 0 <= g < |groups| ==>
              (x in Insert(groups, p)[g] <==> x in groups[g] || (x == p && g == Group(p)))
  {
  }

  /** Insertion never makes a duplicate and never puts a term in a wrong group. */
  lemma InsertKeeps(groups: Groups, p: Implicant)
    requires Unique(groups) && Grouped(groups)
    ensures Unique(Insert(groups, p)) && Grouped(Insert(groups, p))
  {
    var r := Insert(groups, p);
    var g := Group(p);
    if g < |groups| && p !in groups[g] {
      forall h, j, k | 0 <= h < |r| && 0 <= j < k < |r[h]|
        ensures r[h][j] != r[h][k]
      {
        if h == g && k == |groups[g]| {
          assert r[h][j] == groups[g][j];
        }
      }
    }
  }

  class Table {
    var implicants: Groups
    var combined: seq<seq<bool>>

    /** `table_new`: `count` empty groups. */
    constructor (count: nat)
      ensures implicants == Empty(count) && combined == NoFlags(count)
    {
      var groups: Groups := [];
      var flags: seq<seq<bool>> := [];
      for j := 0 to count
        invariant groups == Empty(j) && flags == NoFlags(j)
      {
        groups := groups + [[]];
        flags := flags + [[]];
      }
      implicants := groups;
      combined := flags;
    }

    /** `table_add_implicant`: a term with the flag cleared, at the end of the group
      * `popcount(value & mask)`, unless that group already holds the implicant. */
    method AddImplicant(p: Implicant)
      requires Group(p) < |implicants| && |combined| == |implicants|
      modifies this
      ensures implicants == Insert(old(implicants), p)
      ensures combined == if p in old(implicants)[Group(p)] then old(combined)
                          else old(combined)[Group(p) := old(combined)[Group(p)] + [false]]
    {
      var g := Group(p);
      var duplicate := false;
      var i := 0;
      while i < |implicants[g]|
        invariant i <= |implicants[g]|
        invariant duplicate <==> p in implicants[g][..i]
        decreases |implicants[g]| - i
      {
        if implicants[g][i] == p {
          duplicate := true;
          break;
        }
        i := i + 1;
      }
      assert duplicate <==> p in implicants[g] by {
        if !duplicate {
          assert implicants[g][..i] == implicants[g];
        }
      }
      if !duplicate {
        implicants := implicants[g := implicants[g] + [p]];
        combined := combined[g := combined[g] + [false]];
      }
    }

    /** The reset at the end of a pass: every group's `terms_count` becomes 0. */
    method Reset()
      requires |combined| == |implicants|
      modifies this
      ensures implicants == Empty(|old(implicants)|) && combined == NoFlags(|old(implicants)|)
    {
      for g := 0 to |implicants|
        invariant |implicants| == |old(implicants)| && |combined| == |implicants|
        invariant forall h :: 0 <= h < g ==> implicants[h] == [] && combined[h] == []
      {
        implicants := implicants[g := []];
        combined := combined[g := []];
      }
    }
  }
}
