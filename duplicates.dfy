/**
 * Step 2 of web-app/src/logic/allSteps.ts: per student, keep only the rows
 * whose priority is at or better than the student's best accepted priority.
 *
 * The group logic is stated for any row type, with the accepted test and
 * the priority as parameters; `KeepBest` instantiates it with the flag
 * "ANO" and `num` of the priority cell.
 */
module DuplicateFilter {
  import opened Cells
  import opened Rows
  import opened Grouping

  /** Math.min over f of a non-empty list. */
  function MinOf<T>(s: seq<T>, f: T -> int): (m: int)
    requires s != []
    ensures forall i :: 0 <= i < |s| ==> m <= f(s[i])
    ensures exists i :: 0 <= i < |s| && m == f(s[i])
  {
    if |s| == 1 then f(s[0])
    else
      var m := MinOf(s[..|s| - 1], f);
      assert forall i :: 0 <= i < |s| - 1 ==> s[..|s| - 1][i] == s[i];
      if f(s[|s| - 1]) < m then f(s[|s| - 1]) else m
  }

  /** The elements whose priority is at most m. */
  function AtMost<T>(prio: T -> int, m: int): T -> bool {
    x => prio(x) <= m
  }

  /** All of the group without an accepted element, else the elements at or under the best accepted priority. */
  function KeepBestBy<T>(group: seq<T>, ano: T -> bool, prio: T -> int): seq<T> {
    var anos := Filter(group, ano);
    if anos == [] then group else Filter(group, AtMost(prio, MinOf(anos, prio)))
  }

  /** A group without an accepted element is kept whole. */
  lemma NoAnoKeepsAll<T>(group: seq<T>, ano: T -> bool, prio: T -> int)
    requires forall i :: 0 <= i < |group| ==> !ano(group[i])
    ensures KeepBestBy(group, ano, prio) == group
  {
    var anos := Filter(group, ano);
    if anos != [] {
      FilterHas(group, ano, anos[0]);
    }
  }

  /**
   * With an accepted element, exactly the elements whose priority is at or
   * under every accepted element's priority are kept.
   */
  lemma KeptIffAtBest<T>(group: seq<T>, ano: T -> bool, prio: T -> int, x: T)
    requires exists i :: 0 <= i < |group| && ano(group[i])
    ensures x in KeepBestBy(group, ano, prio) <==> x in group && forall i :: 0 <= i < |group| && ano(group[i]) ==> prio(x) <= prio(group[i])
  {
    var anos := Filter(group, ano);
    var i0 :| 0 <= i0 < |group| && ano(group[i0]);
    FilterHas(group, ano, group[i0]);
    var m := MinOf(anos, prio);
    forall i | 0 <= i < |group| && ano(group[i]) ensures m <= prio(group[i]) {
      FilterHas(group, ano, group[i]);
    }
    var j :| 0 <= j < |anos| && m == prio(anos[j]);
    FilterHas(group, ano, anos[j]);
    FilterHas(group, AtMost(prio, m), x);
  }

  /** A group with an accepted element keeps at least one accepted element. */
  lemma KeepsAnAno<T>(group: seq<T>, ano: T -> bool, prio: T -> int)
    requires exists i :: 0 <= i < |group| && ano(group[i])
    ensures exists i :: 0 <= i < |KeepBestBy(group, ano, prio)| && ano(KeepBestBy(group, ano, prio)[i])
  {
    var anos := Filter(group, ano);
    var i0 :| 0 <= i0 < |group| && ano(group[i0]);
    FilterHas(group, ano, group[i0]);
    var m := MinOf(anos, prio);
    var j :| 0 <= j < |anos| && m == prio(anos[j]);
    FilterHas(group, ano, anos[j]);
    FilterHas(group, AtMost(prio, m), anos[j]);
    var kept := KeepBestBy(group, ano, prio);
    var k :| 0 <= k < |kept| && kept[k] == anos[j];
  }

  /** Step 2 keeps part of each group. */
  lemma KeepBestSub<T>(group: seq<T>, ano: T -> bool, prio: T -> int)
    ensures multiset(KeepBestBy(group, ano, prio)) <= multiset(group)
  {
    var anos := Filter(group, ano);
    if anos != [] {
      FilterSub(group, AtMost(prio, MinOf(anos, prio)));
    }
  }

  /** Filtering a second time changes nothing. */
  lemma KeepBestIdempotent<T>(group: seq<T>, ano: T -> bool, prio: T -> int)
    ensures KeepBestBy(KeepBestBy(group, ano, prio), ano, prio) == KeepBestBy(group, ano, prio)
  {
    var kept := KeepBestBy(group, ano, prio);
    var anos := Filter(group, ano);
    if anos != [] {
      var m := MinOf(anos, prio);
      var j :| 0 <= j < |anos| && m == prio(anos[j]);
      FilterHas(group, ano, anos[j]);
      FilterHas(group, AtMost(prio, m), anos[j]);
      var anos2 := Filter(kept, ano);
      FilterHas(kept, ano, anos[j]);
      var m2 := MinOf(anos2, prio);
      var j2 :| 0 <= j2 < |anos2| && m2 == prio(anos2[j2]);
      FilterHas(kept, ano, anos2[j2]);
      FilterHas(group, AtMost(prio, m), anos2[j2]);
      FilterHas(group, ano, anos2[j2]);
      var j3 :| 0 <= j3 < |anos| && anos[j3] == anos2[j2];
      var j4 :| 0 <= j4 < |anos2| && anos2[j4] == anos[j];
      assert m2 == m;
      FilterAll(kept, AtMost(prio, m));
    }
  }

  lemma KeepBestKeyed<T>(g: seq<T>, ano: T -> bool, prio: T -> int, key: T -> string, k: string)
    requires Keyed(g, key, k)
    ensures Keyed(KeepBestBy(g, ano, prio), key, k)
  {
    var anos := Filter(g, ano);
    if anos != [] {
      FilterKeyed(g, AtMost(prio, MinOf(anos, prio)), key, k);
    }
  }

  // ------------------------------------------------------ on the rows

  /** One student's rows after step 2: accepted means flag "ANO", priority is `num` of PRIORITA. */
  function KeepBest(uk: string, group: seq<Row>): seq<Row> {
    KeepBestBy(group, IsAno, Prio)
  }

  /** `step2_filterDuplicates`, specified: group by student, enumerate, keep the best rows of each group. */
  function FilterDuplicates(rows: seq<Row>): seq<Row> {
    Regroup(rows, Uk, KeepBest)
  }

  /** Each student's rows in the output are exactly KeepBest of that student's rows in the input. */
  lemma PerStudent(rows: seq<Row>, uk: string)
    ensures Select(FilterDuplicates(rows), Uk, uk) == KeepBest(uk, Select(rows, Uk, uk))
  {
    forall j, g | Keyed(g, Uk, j) ensures Keyed(KeepBest(j, g), Uk, j) {
      KeepBestKeyed(g, IsAno, Prio, Uk, j);
    }
    RegroupSelect(rows, Uk, KeepBest, uk);
  }

  /** Step 2 output is a sub-multiset of its input. */
  lemma FilterDuplicatesSub(rows: seq<Row>)
    ensures multiset(FilterDuplicates(rows)) <= multiset(rows)
  {
    forall j, g ensures multiset(KeepBest(j, g)) <= multiset(g) {
      KeepBestSub(g, IsAno, Prio);
    }
    RegroupSub(rows, Uk, KeepBest);
  }

  /** `step2_filterDuplicates`: the grouping loop, then the loop over the groups pushing the kept rows. */
  method FilterDuplicatesLoop(rows: seq<Row>) returns (result: seq<Row>)
    ensures result == FilterDuplicates(rows)
  {
    result := RegroupLoop(rows, Uk, KeepBest);
  }
}
