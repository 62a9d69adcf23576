/**
 * Step 3 of web-app/src/logic/allSteps.ts: within each institute, sort the
 * rows stably by `num` of their rank ("Pořadí") and rewrite the ranks to
 * 1..n.
 */
module OrderNormalizer {
  import opened Cells
  import opened Rows
  import opened Sorting
  import opened Grouping

  /** The row with its rank cell cleared: everything step 3 must leave alone. */
  function Unranked(r: Row): Row {
    r.(rank := Missing)
  }

  /** One institute's rows after step 3: the stable sort by rank, then ranks 1..n in that order. */
  function Renumber(code: string, group: seq<Row>): (r: seq<Row>)
    ensures |r| == |group|
    ensures forall i :: 0 <= i < |r| ==> r[i].rank == Number(i + 1) && RankOf(r[i]) == i + 1
  {
    var sorted := SortBy(group, RankOf);
    seq(|sorted|, i requires 0 <= i < |sorted| => sorted[i].(rank := Number(i + 1)))
  }

  /**
   * The rows come out in the order of any sorted sequence that keeps the
   * rows of equal rank in input order, and only their ranks change.
   */
  lemma RenumberFollowsStableOrder(code: string, group: seq<Row>, t: seq<Row>)
    requires SortedBy(t, RankOf)
    requires forall k :: WithKey(t, RankOf, k) == WithKey(group, RankOf, k)
    ensures |t| == |group|
    ensures forall i :: 0 <= i < |t| ==> Renumber(code, group)[i] == t[i].(rank := Number(i + 1))
  {
    SortByCharacterized(group, t, RankOf);
  }

  /** Apart from the rank, step 3 permutes each group. */
  lemma RenumberPerm(code: string, group: seq<Row>)
    ensures multiset(Project(Renumber(code, group), Unranked)) == multiset(Project(group, Unranked))
  {
    var sorted := SortBy(group, RankOf);
    assert Project(Renumber(code, group), Unranked) == Project(sorted, Unranked);
    ProjectPerm(sorted, group, Unranked);
  }

  /** Renumbering a renumbered group changes nothing. */
  lemma RenumberIdempotent(code: string, group: seq<Row>)
    ensures Renumber(code, Renumber(code, group)) == Renumber(code, group)
  {
    var r := Renumber(code, group);
    SortBySortedIsIdentity(r, RankOf);
  }

  /** Renumbering keeps the rows in their institute. */
  lemma RenumberKeyed(code: string, group: seq<Row>, k: string)
    requires Keyed(group, Code, k)
    ensures Keyed(Renumber(code, group), Code, k)
  {
    var sorted := SortBy(group, RankOf);
    forall i | 0 <= i < |sorted| ensures Code(sorted[i]) == k {
      assert sorted[i] in multiset(group);
    }
  }

  /** `step3_normalizeOrdering`, specified: group by institute, enumerate, renumber each group. */
  function NormalizeOrdering(rows: seq<Row>): seq<Row> {
    Regroup(rows, Code, Renumber)
  }

  /** Each institute's rows in the output are its input rows, renumbered. */
  lemma PerInstitute(rows: seq<Row>, code: string)
    ensures Select(NormalizeOrdering(rows), Code, code) == Renumber(code, Select(rows, Code, code))
  {
    forall j, g | Keyed(g, Code, j) ensures Keyed(Renumber(j, g), Code, j) {
      RenumberKeyed(j, g, j);
    }
    RegroupSelect(rows, Code, Renumber, code);
  }

  /** Apart from the ranks, step 3 output is a permutation of its input; in particular no row is lost. */
  lemma NormalizeOrderingPerm(rows: seq<Row>)
    ensures multiset(Project(NormalizeOrdering(rows), Unranked)) == multiset(Project(rows, Unranked))
    ensures |NormalizeOrdering(rows)| == |rows|
  {
    forall j, g ensures multiset(Project(Renumber(j, g), Unranked)) == multiset(Project(g, Unranked)) {
      RenumberPerm(j, g);
    }
    RegroupProjectPerm(rows, Code, Renumber, Unranked);
    assert |multiset(Project(NormalizeOrdering(rows), Unranked))| == |multiset(Project(rows, Unranked))|;
  }

  // ------------------------------------------------------- the code

  /** `group.forEach((r, i) => { r[orderCol] = i + 1; })` on the sorted group. */
  method AssignRanks(a: array<Row>)
    modifies a
    ensures forall i :: 0 <= i < a.Length ==> a[i] == old(a[i]).(rank := Number(i + 1))
  {
    for i := 0 to a.Length
      invariant forall j :: 0 <= j < i ==> a[j] == old(a[j]).(rank := Number(j + 1))
      invariant forall j :: i <= j < a.Length ==> a[j] == old(a[j])
    {
      a[i] := a[i].(rank := Number(i + 1));
    }
  }

  /** One group: the library's stable sort, then the in-place renumbering. */
  method RenumberGroup(code: string, group: seq<Row>) returns (r: seq<Row>)
    ensures r == Renumber(code, group)
  {
    var sorted := SortBy(group, RankOf);
    var a := new Row[|sorted|](i requires 0 <= i < |sorted| => sorted[i]);
    AssignRanks(a);
    r := a[..];
  }

  /** The loop over the groups in enumeration order. */
  method RenumberGroups(rows: seq<Row>, groups: map<string, seq<Row>>, order: seq<string>) returns (result: seq<Row>)
    requires forall k :: k in order ==> k in groups && groups[k] == Select(rows, Code, k)
    ensures result == GroupMap(rows, Code, order, Renumber)
  {
    result := [];
    var j := 0;
    while j < |order|
      invariant 0 <= j <= |order|
      invariant result == GroupMap(rows, Code, order[..j], Renumber)
    {
      var k := order[j];
      var renumbered := RenumberGroup(k, groups[k]);
      GroupMapNext(rows, Code, order, Renumber, j);
      result := result + renumbered;
      j := j + 1;
    }
    assert order[..j] == order;
  }

  /** `step3_normalizeOrdering`: the grouping loop, then each group sorted and renumbered. */
  method NormalizeOrderingLoop(rows: seq<Row>) returns (result: seq<Row>)
    ensures result == NormalizeOrdering(rows)
  {
    var groups, keys := GroupBy(rows, Code);
    var order := EnumOrder(keys);
    EnumOrderDistinct(keys);
    result := RenumberGroups(rows, groups, order);
  }
}
