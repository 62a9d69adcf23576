/**
 * `normalize_ordering_by_id_code` of app.py: the Python reference of step 3.
 * The rank column is coerced to numbers; within each institute (the raw
 * "ID code" cell, NaN codes forming one group) the rows are sorted by rank
 * with NaN ranks last and the ranks rewritten to 1..n.
 */
module PyOrdering {
  import opened Wrappers
  import opened Cells
  import opened Rows
  import opened Sorting
  import opened Grouping
  import opened Pandas
  import OrderNormalizer

  // ----------------------------------------- sort_values(na_position="last")

  function Numeric<T>(key: T -> Option<int>): T -> bool { x => key(x).Some? }

  function NaN<T>(key: T -> Option<int>): T -> bool { x => key(x).None? }

  function ValueOf<T>(key: T -> Option<int>): T -> int { x => key(x).GetOr(0) }

  /** Numeric keys ascend, and every NaN key comes after every numeric one. */
  predicate NaNLastSorted<T>(s: seq<T>, key: T -> Option<int>) {
    forall i, j :: 0 <= i < j < |s| && key(s[j]).Some? ==> key(s[i]).Some? && key(s[i]).value <= key(s[j]).value
  }

  /** p is an order `sort_values(na_position="last")` may produce from s. */
  predicate IsNaNLastOrder<T(==)>(s: seq<T>, p: seq<T>, key: T -> Option<int>) {
    multiset(p) == multiset(s) && NaNLastSorted(p, key)
  }

  /** Numeric keys in ascending order followed by NaN keys are sorted NaN-last. */
  lemma SortedThenNaN<T>(a: seq<T>, b: seq<T>, key: T -> Option<int>)
    requires forall i :: 0 <= i < |a| ==> key(a[i]).Some?
    requires forall i :: 0 <= i < |b| ==> key(b[i]).None?
    requires SortedBy(a, ValueOf(key))
    ensures NaNLastSorted(a + b, key)
  {
    var r := a + b;
    assert forall k :: |a| <= k < |r| ==> r[k] == b[k - |a|];
    forall i, j | 0 <= i < j < |r| && key(r[j]).Some? ensures key(r[i]).Some? && key(r[i]).value <= key(r[j]).value {
      assert r[i] == a[i] && r[j] == a[j];
      assert ValueOf(key)(a[i]) <= ValueOf(key)(a[j]);
    }
  }

  /** Every element of a sub-multiset passing p passes p. */
  lemma AllPass<T>(a: seq<T>, b: seq<T>, p: T -> bool)
    requires multiset(a) == multiset(b)
    requires forall i :: 0 <= i < |b| ==> p(b[i])
    ensures forall i :: 0 <= i < |a| ==> p(a[i])
  {
    forall i | 0 <= i < |a| ensures p(a[i]) {
      assert a[i] in multiset(b);
    }
  }

  /**
   * `sort_values(col, na_position="last")`: the numeric rows sorted by value,
   * then the NaN rows. Equal keys keep their input order here.
   */
  function SortNaNLast<T(==)>(s: seq<T>, key: T -> Option<int>): (r: seq<T>)
    ensures IsNaNLastOrder(s, r, key) && |r| == |s|
  {
    var nums := Filter(s, Numeric(key));
    var nans := Filter(s, NaN(key));
    var sorted := SortBy(nums, ValueOf(key));
    FilterSplit(s, Numeric(key), NaN(key));
    AllPass(sorted, nums, Numeric(key));
    SortedThenNaN(sorted, nans, key);
    assert |multiset(sorted + nans)| == |multiset(s)|;
    sorted + nans
  }

  // ------------------------------------------------------------ the rows

  const Step3Keys: seq<string> := ["ID code", "Pořadí"]

  /** `df[order_col] = pd.to_numeric(df[order_col], errors="coerce")`. */
  function CoerceRank(r: Row): Row {
    r.(rank := Coerced(r.rank))
  }

  function RankNum(r: Row): Option<int> { PyNumeric(r.rank) }

  /** The institute as a group label: the raw cell, so NaN codes form one group. */
  function CodeLabel(r: Row): Cell { r.code }

  /** r is p with the ranks 1..n written in p's order. */
  predicate Renumbered(p: seq<Row>, r: seq<Row>) {
    |r| == |p| && forall i :: 0 <= i < |r| ==> r[i] == p[i].(rank := Number(i + 1))
  }

  /** `renumber_group`. */
  function RenumberGroup(code: Cell, group: seq<Row>): (r: seq<Row>)
    ensures |r| == |group| && forall i :: 0 <= i < |r| ==> r[i].rank == Number(i + 1)
  {
    var sorted := SortNaNLast(group, RankNum);
    seq(|sorted|, i requires 0 <= i < |sorted| => sorted[i].(rank := Number(i + 1)))
  }

  /**
   * Whatever order the sort leaves equal ranks in, the renumbered group is
   * some NaN-last ordering of the group with ranks 1..n written over it.
   */
  lemma RenumberGroupSpec(code: Cell, group: seq<Row>)
    ensures exists p :: IsNaNLastOrder(group, p, RankNum) && Renumbered(p, RenumberGroup(code, group))
  {
    var p := SortNaNLast(group, RankNum);
    assert Renumbered(p, RenumberGroup(code, group));
  }

  lemma RenumberGroupPerm(code: Cell, group: seq<Row>)
    ensures multiset(Project(RenumberGroup(code, group), OrderNormalizer.Unranked)) == multiset(Project(group, OrderNormalizer.Unranked))
  {
    var sorted := SortNaNLast(group, RankNum);
    assert Project(RenumberGroup(code, group), OrderNormalizer.Unranked) == Project(sorted, OrderNormalizer.Unranked);
    ProjectPerm(sorted, group, OrderNormalizer.Unranked);
  }

  lemma RenumberGroupKeyed(code: Cell, group: seq<Row>, k: Cell)
    requires Keyed(group, CodeLabel, k)
    ensures Keyed(RenumberGroup(code, group), CodeLabel, k)
  {
    var sorted := SortNaNLast(group, RankNum);
    KeyedPerm(sorted, group, CodeLabel, k);
  }

  /** The frame after the rank column is coerced. */
  function CoercedRows(rows: seq<Row>): seq<Row> {
    Project(rows, CoerceRank)
  }

  /** `normalize_ordering_by_id_code`: groups are taken in order of first appearance. */
  function NormalizeOrdering(rows: seq<Row>, appCols: Mapper): Result<seq<Row>, PyError> {
    if RequireColumns(appCols, Step3Keys).Some? then Failure(MissingColumns(Step3Keys))
    else
      var df := CoercedRows(rows);
      Success(GroupMap(df, CodeLabel, Keys(df, CodeLabel), RenumberGroup))
  }

  /** It raises exactly when the institute or rank column is unmapped. */
  lemma NormalizeOrderingRaises(rows: seq<Row>, appCols: Mapper)
    ensures NormalizeOrdering(rows, appCols).Failure? <==> !AllMapped(appCols, Step3Keys)
  {
  }

  /**
   * Each institute's rows come out as `renumber_group` of its rows: ranked
   * 1..n, following the coerced ranks with NaN last.
   */
  lemma PerInstitute(rows: seq<Row>, appCols: Mapper, code: Cell)
    requires NormalizeOrdering(rows, appCols).Success?
    ensures Select(NormalizeOrdering(rows, appCols).value, CodeLabel, code) == RenumberGroup(code, Select(CoercedRows(rows), CodeLabel, code))
  {
    var df := CoercedRows(rows);
    var order := Keys(df, CodeLabel);
    forall i | 0 <= i < |order| ensures Keyed(RenumberGroup(order[i], Select(df, CodeLabel, order[i])), CodeLabel, order[i]) {
      SelectIsKeyed(df, CodeLabel, order[i]);
      RenumberGroupKeyed(order[i], Select(df, CodeLabel, order[i]), order[i]);
    }
    SelectGroupMap(df, CodeLabel, order, RenumberGroup, code);
    SelectNonEmptyIffKey(df, CodeLabel, code);
  }

  /** Each institute's rows carry the ranks 1..n, one per row it had. */
  lemma RanksPerInstitute(rows: seq<Row>, appCols: Mapper, code: Cell)
    requires NormalizeOrdering(rows, appCols).Success?
    ensures |Select(NormalizeOrdering(rows, appCols).value, CodeLabel, code)| == |Select(CoercedRows(rows), CodeLabel, code)|
    ensures forall i :: 0 <= i < |Select(NormalizeOrdering(rows, appCols).value, CodeLabel, code)| ==>
      Select(NormalizeOrdering(rows, appCols).value, CodeLabel, code)[i].rank == Number(i + 1)
  {
    PerInstitute(rows, appCols, code);
  }

  /** Apart from the ranks the rows are permuted, none lost and none added. */
  lemma NormalizeOrderingPerm(rows: seq<Row>, appCols: Mapper)
    requires NormalizeOrdering(rows, appCols).Success?
    ensures multiset(Project(NormalizeOrdering(rows, appCols).value, OrderNormalizer.Unranked)) == multiset(Project(rows, OrderNormalizer.Unranked))
    ensures |NormalizeOrdering(rows, appCols).value| == |rows|
  {
    var df := CoercedRows(rows);
    var order := Keys(df, CodeLabel);
    var out := NormalizeOrdering(rows, appCols).value;
    forall i | 0 <= i < |order|
      ensures multiset(Project(RenumberGroup(order[i], Select(df, CodeLabel, order[i])), OrderNormalizer.Unranked))
           == multiset(Project(Select(df, CodeLabel, order[i]), OrderNormalizer.Unranked))
    {
      RenumberGroupPerm(order[i], Select(df, CodeLabel, order[i]));
    }
    GroupMapProjectPerm(df, CodeLabel, order, RenumberGroup, OrderNormalizer.Unranked);
    KeysCover(df, CodeLabel);
    GatherPerm(df, CodeLabel, order);
    ProjectPerm(Gather(df, CodeLabel, order), df, OrderNormalizer.Unranked);
    assert Project(df, OrderNormalizer.Unranked) == Project(rows, OrderNormalizer.Unranked);
    assert |multiset(Project(out, OrderNormalizer.Unranked))| == |multiset(Project(rows, OrderNormalizer.Unranked))|;
  }
}
