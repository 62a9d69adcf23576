/**
 * `filter_duplicates_by_priority` of app.py: the Python reference of
 * step 2. The flag column is stripped and upper-cased, the priority column
 * coerced to numbers (NaN when not numeric); then, per student number
 * (NaN students form one group), a group without an "ANO" row, or whose
 * "ANO" rows have no numeric priority, is kept whole, and any other group
 * keeps the rows whose priority is at most the smallest "ANO" priority,
 * which drops its NaN-priority rows.
 */
module PyDuplicates {
  import opened Wrappers
  import opened Cells
  import opened Rows
  import opened Grouping
  import opened Pandas

  /** `Series.min()`: NaN values are skipped; the minimum of nothing numeric is NaN. */
  function MinSkipNaN<T>(s: seq<T>, prio: T -> Option<int>): (m: Option<int>)
    ensures m.None? <==> forall i :: 0 <= i < |s| ==> prio(s[i]).None?
    ensures m.Some? ==> (exists i :: 0 <= i < |s| && prio(s[i]) == m)
                        && forall i :: 0 <= i < |s| && prio(s[i]).Some? ==> m.value <= prio(s[i]).value
  {
    if s == [] then None
    else
      var init := s[..|s| - 1];
      var m := MinSkipNaN(init, prio);
      assert forall i :: 0 <= i < |init| ==> init[i] == s[i];
      var last := prio(s[|s| - 1]);
      if last.None? then m
      else if m.None? || last.value < m.value then last
      else m
  }

  /** `prio <= m`: false for a NaN priority. */
  function AtMost<T>(prio: T -> Option<int>, m: int): T -> bool {
    x => prio(x).Some? && prio(x).value <= m
  }

  /** `filter_group`, for any row type, accepted test and priority. */
  function FilterGroupBy<T>(group: seq<T>, ano: T -> bool, prio: T -> Option<int>): seq<T> {
    var anos := Filter(group, ano);
    if anos == [] then group
    else
      var m := MinSkipNaN(anos, prio);
      if m.None? then group else Filter(group, AtMost(prio, m.value))
  }

  /** The best priority among the accepted rows of a group, if any of them has a numeric one. */
  function BestAno<T>(group: seq<T>, ano: T -> bool, prio: T -> Option<int>): Option<int> {
    MinSkipNaN(Filter(group, ano), prio)
  }

  lemma BestAnoIsMin<T>(group: seq<T>, ano: T -> bool, prio: T -> Option<int>)
    ensures BestAno(group, ano, prio).None? <==> forall i :: 0 <= i < |group| && ano(group[i]) ==> prio(group[i]).None?
    ensures BestAno(group, ano, prio).Some? ==>
      (exists i :: 0 <= i < |group| && ano(group[i]) && prio(group[i]) == BestAno(group, ano, prio))
      && forall i :: 0 <= i < |group| && ano(group[i]) && prio(group[i]).Some? ==> BestAno(group, ano, prio).value <= prio(group[i]).value
  {
    var anos := Filter(group, ano);
    forall i | 0 <= i < |group| && ano(group[i]) ensures group[i] in anos {
      FilterHas(group, ano, group[i]);
    }
    if BestAno(group, ano, prio).Some? {
      var j :| 0 <= j < |anos| && prio(anos[j]) == BestAno(group, ano, prio);
      FilterHas(group, ano, anos[j]);
    }
  }

  /**
   * A group is kept whole when no accepted row has a numeric priority;
   * otherwise exactly its rows with a numeric priority at most the best
   * accepted one are kept.
   */
  lemma FilterGroupKeeps<T>(group: seq<T>, ano: T -> bool, prio: T -> Option<int>)
    ensures BestAno(group, ano, prio).None? ==> FilterGroupBy(group, ano, prio) == group
    ensures BestAno(group, ano, prio).Some? ==> FilterGroupBy(group, ano, prio) == Filter(group, AtMost(prio, BestAno(group, ano, prio).value))
  {
    if Filter(group, ano) == [] {
      assert MinSkipNaN(Filter(group, ano), prio).None?;
    }
  }

  /** A group whose best accepted priority is numeric keeps an accepted row, and no NaN-priority row. */
  lemma KeepsBestAno<T>(group: seq<T>, ano: T -> bool, prio: T -> Option<int>)
    requires BestAno(group, ano, prio).Some?
    ensures exists i :: 0 <= i < |FilterGroupBy(group, ano, prio)| && ano(FilterGroupBy(group, ano, prio)[i])
    ensures forall i :: 0 <= i < |FilterGroupBy(group, ano, prio)| ==> prio(FilterGroupBy(group, ano, prio)[i]).Some?
  {
    BestAnoIsMin(group, ano, prio);
    FilterGroupKeeps(group, ano, prio);
    var m := BestAno(group, ano, prio).value;
    var i :| 0 <= i < |group| && ano(group[i]) && prio(group[i]) == Some(m);
    var kept := Filter(group, AtMost(prio, m));
    FilterHas(group, AtMost(prio, m), group[i]);
    var j :| 0 <= j < |kept| && kept[j] == group[i];
  }

  lemma FilterGroupSub<T>(group: seq<T>, ano: T -> bool, prio: T -> Option<int>)
    ensures multiset(FilterGroupBy(group, ano, prio)) <= multiset(group)
  {
    FilterGroupKeeps(group, ano, prio);
    if BestAno(group, ano, prio).Some? {
      FilterSub(group, AtMost(prio, BestAno(group, ano, prio).value));
    }
  }

  lemma FilterGroupKeyed<T, K>(group: seq<T>, ano: T -> bool, prio: T -> Option<int>, key: T -> K, k: K)
    requires Keyed(group, key, k)
    ensures Keyed(FilterGroupBy(group, ano, prio), key, k)
  {
    FilterGroupKeeps(group, ano, prio);
    if BestAno(group, ano, prio).Some? {
      FilterKeyed(group, AtMost(prio, BestAno(group, ano, prio).value), key, k);
    }
  }

  // ------------------------------------------------------------ the rows

  const Step2Keys: seq<string> := ["Číslo UK", "NOMINOVÁN", "PRIORITA"]

  /** The frame after `df[nom_col] = ...strip().upper()` and `df[prio_col] = to_numeric(...)`. */
  function Prepared(r: Row): Row {
    r.(flag := Text(NormText(r.flag)), priority := Coerced(r.priority))
  }

  /** `group[nom_col] == "ANO"` on a prepared row. */
  predicate AnoRow(r: Row) { r.flag == Text("ANO") }

  function PrioOf(r: Row): Option<int> { PyNumeric(r.priority) }

  /** The student number as a group label. */
  function UkLabel(r: Row): Cell { r.uk }

  function FilterGroup(uk: Cell, group: seq<Row>): seq<Row> {
    FilterGroupBy(group, AnoRow, PrioOf)
  }

  /** The prepared frame. */
  function PreparedRows(rows: seq<Row>): seq<Row> {
    Project(rows, Prepared)
  }

  /** `filter_duplicates_by_priority`: groups are taken in order of first appearance. */
  function FilterDuplicates(rows: seq<Row>, appCols: Mapper): Result<seq<Row>, PyError> {
    if RequireColumns(appCols, Step2Keys).Some? then Failure(MissingColumns(Step2Keys))
    else
      var df := PreparedRows(rows);
      Success(GroupMap(df, UkLabel, Keys(df, UkLabel), FilterGroup))
  }

  /** It raises exactly when the student, flag or priority column is unmapped. */
  lemma FilterDuplicatesRaises(rows: seq<Row>, appCols: Mapper)
    ensures FilterDuplicates(rows, appCols).Failure? <==> !AllMapped(appCols, Step2Keys)
  {
  }

  /** Each student's rows come out as `filter_group` of that student's prepared rows. */
  lemma PerStudent(rows: seq<Row>, appCols: Mapper, uk: Cell)
    requires FilterDuplicates(rows, appCols).Success?
    ensures Select(FilterDuplicates(rows, appCols).value, UkLabel, uk) == FilterGroup(uk, Select(PreparedRows(rows), UkLabel, uk))
  {
    var df := PreparedRows(rows);
    var order := Keys(df, UkLabel);
    forall i | 0 <= i < |order| ensures Keyed(FilterGroup(order[i], Select(df, UkLabel, order[i])), UkLabel, order[i]) {
      SelectIsKeyed(df, UkLabel, order[i]);
      FilterGroupKeyed(Select(df, UkLabel, order[i]), AnoRow, PrioOf, UkLabel, order[i]);
    }
    SelectGroupMap(df, UkLabel, order, FilterGroup, uk);
    SelectNonEmptyIffKey(df, UkLabel, uk);
  }

  /** The output is a sub-multiset of the prepared rows. */
  lemma FilterDuplicatesSub(rows: seq<Row>, appCols: Mapper)
    requires FilterDuplicates(rows, appCols).Success?
    ensures multiset(FilterDuplicates(rows, appCols).value) <= multiset(PreparedRows(rows))
  {
    var df := PreparedRows(rows);
    var order := Keys(df, UkLabel);
    forall i | 0 <= i < |order| ensures multiset(FilterGroup(order[i], Select(df, UkLabel, order[i]))) <= multiset(Select(df, UkLabel, order[i])) {
      FilterGroupSub(Select(df, UkLabel, order[i]), AnoRow, PrioOf);
    }
    GroupMapSub(df, UkLabel, order, FilterGroup);
    KeysCover(df, UkLabel);
    GatherPerm(df, UkLabel, order);
  }
}
