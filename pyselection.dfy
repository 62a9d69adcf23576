/**
 * `build_result_table` of app.py: the Python reference of step 4. The rank
 * column is coerced to numbers; every institute whose capacity is positive
 * contributes its best-ranked rows (NaN ranks last), as many as its
 * capacity. The capacity of a code is its ALL counter when ALL is mapped,
 * otherwise the sum of its mapped BC, MGR and PHD counters; a code absent
 * from the capacity table has capacity 0.
 */
module PySelection {
  import opened Wrappers
  import opened Cells
  import opened Rows
  import opened Grouping
  import opened Pandas
  import opened PyOrdering

  // ------------------------------------------------------------ capacity

  datatype Counter = Bc | Mgr | Phd | All

  /** The key of the counter in the capacity column mapper. */
  function CounterKey(k: Counter): string {
    match k
    case Bc => "BC"
    case Mgr => "MGR"
    case Phd => "PHD"
    case All => "ALL"
  }

  function CounterCell(c: CapRow, k: Counter): Cell {
    match k
    case Bc => c.bc
    case Mgr => c.mgr
    case Phd => c.phd
    case All => c.all
  }

  /** The index label of `capacities_df.set_index(cap_id_col)`. */
  function CapLabel(c: CapRow): Cell { c.code }

  /**
   * `int(pd.to_numeric(capacity_map.loc[code, col], errors="coerce") or 0)`,
   * and 0 for a code not in the index. A label held by several rows gives a
   * Series, whose truth value raises; NaN is truthy and `int(NaN)` raises.
   */
  function LocInt(matches: seq<CapRow>, code: Cell, k: Counter): (r: Result<int, PyError>)
    ensures matches == [] ==> r == Success(0)
    ensures matches != [] ==> (r.Success? <==> |matches| == 1 && PyNumeric(CounterCell(matches[0], k)).Some?)
    ensures matches != [] && r.Success? ==> r.value == PyNumeric(CounterCell(matches[0], k)).value
    ensures r.Failure? ==> r.error == (if |matches| > 1 then AmbiguousLabel(code) else NotANumber(code))
  {
    if matches == [] then Success(0)
    else if |matches| > 1 then Failure(AmbiguousLabel(code))
    else match PyNumeric(CounterCell(matches[0], k))
      case None => Failure(NotANumber(code))
      case Some(n) => Success(n)
  }

  /** The lookup of one counter of one code. */
  function Lookup(caps: seq<CapRow>, code: Cell): Counter -> Result<int, PyError> {
    k => LocInt(Select(caps, CapLabel, code), code, k)
  }

  /** `cap_<counter>_col` is truthy: the counter's column is mapped. */
  function IsMapped(capCols: Mapper): Counter -> bool {
    k => Mapped(capCols, CounterKey(k))
  }

  /** The counters the sum branch consults: the mapped ones among BC, MGR and PHD, in that order. */
  function Counted(mapped: Counter -> bool): seq<Counter> {
    Filter([Bc, Mgr, Phd], mapped)
  }

  /** `capacity_for_id(code)`: ALL when it is mapped, otherwise the sum over the counted columns. */
  function CapacityFor(caps: seq<CapRow>, mapped: Counter -> bool, code: Cell): Result<int, PyError> {
    if mapped(All) then Lookup(caps, code)(All)
    else SumOf(Counted(mapped), Lookup(caps, code))
  }

  function CapacityOf(caps: seq<CapRow>, mapped: Counter -> bool): Cell -> Result<int, PyError> {
    code => CapacityFor(caps, mapped, code)
  }

  // ------------------------------------------------- sums that may raise

  /** `total += look(k)` for each k in turn, raising at the first lookup that raises. */
  function SumOf<K, E>(ks: seq<K>, look: K -> Result<int, E>): Result<int, E>
    decreases |ks|
  {
    if ks == [] then Success(0)
    else
      var t := SumOf(ks[..|ks| - 1], look);
      var n := look(ks[|ks| - 1]);
      if t.Failure? then t
      else if n.Failure? then Failure(n.error)
      else Success(t.value + n.value)
  }

  /** The sum of the lookups that succeed. */
  function TotalOf<K, E>(ks: seq<K>, look: K -> Result<int, E>): int
    decreases |ks|
  {
    if ks == [] then 0
    else TotalOf(ks[..|ks| - 1], look) + (if look(ks[|ks| - 1]).Success? then look(ks[|ks| - 1]).value else 0)
  }

  /** The sum succeeds exactly when every lookup does, and then it is their total. */
  lemma {:induction false} SumOfValue<K, E>(ks: seq<K>, look: K -> Result<int, E>)
    ensures SumOf(ks, look).Success? <==> forall i :: 0 <= i < |ks| ==> look(ks[i]).Success?
    ensures SumOf(ks, look).Success? ==> SumOf(ks, look).value == TotalOf(ks, look)
    decreases |ks|
  {
    if ks != [] {
      var init := ks[..|ks| - 1];
      SumOfValue(init, look);
      assert forall i :: 0 <= i < |init| ==> init[i] == ks[i];
    }
  }

  lemma SumOfSnoc<K, E>(ks: seq<K>, k: K, look: K -> Result<int, E>)
    ensures SumOf(ks + [k], look) ==
      if SumOf(ks, look).Failure? then SumOf(ks, look)
      else if look(k).Failure? then Failure(look(k).error)
      else Success(SumOf(ks, look).value + look(k).value)
  {
    assert (ks + [k])[..|ks|] == ks;
  }

  lemma FilterSnoc<T>(s: seq<T>, p: T -> bool, i: int)
    requires 0 <= i < |s|
    ensures Filter(s[..i + 1], p) == Filter(s[..i], p) + (if p(s[i]) then [s[i]] else [])
  {
    assert s[..i + 1][..i] == s[..i];
  }

  lemma SumOfNone<K, E>(ks: seq<K>, p: K -> bool, look: K -> Result<int, E>)
    ensures SumOf(Filter(ks[..0], p), look) == Success(0)
  {
    assert ks[..0] == [];
  }

  /** One more column of the loop: skipped when it fails the test, otherwise added or raised. */
  lemma SumStep<K, E>(ks: seq<K>, p: K -> bool, look: K -> Result<int, E>, i: int, total: int)
    requires 0 <= i < |ks|
    requires SumOf(Filter(ks[..i], p), look) == Success(total)
    ensures SumOf(Filter(ks[..i + 1], p), look) ==
      if !p(ks[i]) then Success(total)
      else if look(ks[i]).Failure? then Failure(look(ks[i]).error)
      else Success(total + look(ks[i]).value)
  {
    FilterSnoc(ks, p, i);
    if p(ks[i]) {
      SumOfSnoc(Filter(ks[..i], p), ks[i], look);
    } else {
      assert Filter(ks[..i + 1], p) == Filter(ks[..i], p);
    }
  }

  /** Once the sum over the filtered prefix raises, the sum over the whole filtered sequence raises the same way. */
  lemma {:induction false} SumOfPrefixFails<K, E>(ks: seq<K>, p: K -> bool, look: K -> Result<int, E>, j: int)
    requires 0 <= j <= |ks|
    requires SumOf(Filter(ks[..j], p), look).Failure?
    ensures SumOf(Filter(ks, p), look) == SumOf(Filter(ks[..j], p), look)
    decreases |ks| - j
  {
    if j < |ks| {
      FilterSnoc(ks, p, j);
      if p(ks[j]) {
        SumOfSnoc(Filter(ks[..j], p), ks[j], look);
      } else {
        assert Filter(ks[..j + 1], p) == Filter(ks[..j], p);
      }
      SumOfPrefixFails(ks, p, look, j + 1);
    } else {
      assert ks[..j] == ks;
    }
  }

  lemma FilterThree<T>(a: T, b: T, c: T, p: T -> bool)
    ensures Filter([a, b, c], p) == (if p(a) then [a] else []) + (if p(b) then [b] else []) + (if p(c) then [c] else [])
  {
    assert Filter([a], p) == (if p(a) then [a] else []) by { assert [a][..0] == []; }
    assert Filter([a, b], p) == Filter([a], p) + (if p(b) then [b] else []) by { assert [a, b][..1] == [a]; }
    assert Filter([a, b, c], p) == Filter([a, b], p) + (if p(c) then [c] else []) by { assert [a, b, c][..2] == [a, b]; }
  }

  /** What one lookup adds to a total. */
  function Part<K, E>(k: K, p: K -> bool, look: K -> Result<int, E>): int {
    if p(k) && look(k).Success? then look(k).value else 0
  }

  lemma TotalOfThree<K, E>(a: K, b: K, c: K, p: K -> bool, look: K -> Result<int, E>)
    ensures TotalOf(Filter([a, b, c], p), look) == Part(a, p, look) + Part(b, p, look) + Part(c, p, look)
  {
    FilterThree(a, b, c, p);
    var x := if p(a) then [a] else [];
    var y := if p(b) then [b] else [];
    var z := if p(c) then [c] else [];
    TotalOfAppend(x + y, z, look);
    TotalOfAppend(x, y, look);
  }

  lemma {:induction false} TotalOfAppend<K, E>(a: seq<K>, b: seq<K>, look: K -> Result<int, E>)
    ensures TotalOf(a + b, look) == TotalOf(a, look) + TotalOf(b, look)
    decreases |b|
  {
    if b == [] {
      assert a + b == a;
    } else {
      var init := b[..|b| - 1];
      assert (a + b)[..|a + b| - 1] == a + init;
      TotalOfAppend(a, init, look);
    }
  }

  // ------------------------------------------------- capacity properties

  /** What one counter contributes to the sum: its number when mapped, else nothing. */
  function Contribution(mapped: Counter -> bool, row: CapRow, k: Counter): int {
    if mapped(k) then PyNumeric(CounterCell(row, k)).GetOr(0) else 0
  }

  /** Every counter the capacity lookup consults is numeric. */
  predicate Consulted(mapped: Counter -> bool, row: CapRow) {
    if mapped(All) then PyNumeric(row.all).Some?
    else forall k :: k in Counted(mapped) ==> PyNumeric(CounterCell(row, k)).Some?
  }

  /** A code missing from the capacity table has capacity 0. */
  lemma CapacityAbsent(caps: seq<CapRow>, mapped: Counter -> bool, code: Cell)
    requires Select(caps, CapLabel, code) == []
    ensures CapacityFor(caps, mapped, code) == Success(0)
  {
    var look := Lookup(caps, code);
    SumOfValue(Counted(mapped), look);
    TotalOfThree(Bc, Mgr, Phd, mapped, look);
  }

  /**
   * A code held by exactly one row whose consulted counters are numeric has
   * as capacity its ALL counter when ALL is mapped, otherwise the sum of its
   * mapped BC, MGR and PHD counters.
   */
  lemma CapacityValue(caps: seq<CapRow>, mapped: Counter -> bool, code: Cell)
    requires |Select(caps, CapLabel, code)| == 1 && Consulted(mapped, Select(caps, CapLabel, code)[0])
    ensures var row := Select(caps, CapLabel, code)[0];
      CapacityFor(caps, mapped, code) == Success(
        if mapped(All) then PyNumeric(row.all).value
        else Contribution(mapped, row, Bc) + Contribution(mapped, row, Mgr) + Contribution(mapped, row, Phd))
  {
    var row := Select(caps, CapLabel, code)[0];
    if mapped(All) {
      assert CapacityFor(caps, mapped, code) == Lookup(caps, code)(All);
    } else {
      assert forall k :: k in Counted(mapped) ==> PyNumeric(CounterCell(row, k)).Some?;
      SumValue(caps, mapped, code);
      assert CapacityFor(caps, mapped, code) == SumOf(Counted(mapped), Lookup(caps, code));
    }
  }

  /** The sum branch on a code held by one row whose summed counters are numeric. */
  lemma SumValue(caps: seq<CapRow>, mapped: Counter -> bool, code: Cell)
    requires |Select(caps, CapLabel, code)| == 1
    requires forall k :: k in Counted(mapped) ==> PyNumeric(CounterCell(Select(caps, CapLabel, code)[0], k)).Some?
    ensures var row := Select(caps, CapLabel, code)[0];
      SumOf(Counted(mapped), Lookup(caps, code)) ==
        Success(Contribution(mapped, row, Bc) + Contribution(mapped, row, Mgr) + Contribution(mapped, row, Phd))
  {
    var look := Lookup(caps, code);
    var ks := Counted(mapped);
    forall i | 0 <= i < |ks| ensures look(ks[i]).Success? {
      assert ks[i] in ks;
    }
    SumOfValue(ks, look);
    TotalOfThree(Bc, Mgr, Phd, mapped, look);
    PartIsContribution(caps, mapped, code, Bc);
    PartIsContribution(caps, mapped, code, Mgr);
    PartIsContribution(caps, mapped, code, Phd);
  }

  lemma PartIsContribution(caps: seq<CapRow>, mapped: Counter -> bool, code: Cell, k: Counter)
    requires |Select(caps, CapLabel, code)| == 1
    ensures Part(k, mapped, Lookup(caps, code)) == Contribution(mapped, Select(caps, CapLabel, code)[0], k)
  {
    assert Lookup(caps, code)(k) == LocInt(Select(caps, CapLabel, code), code, k);
  }

  /**
   * The capacity lookup raises exactly when the code is in the table, some
   * counter is consulted, and the code is held by several rows or a
   * consulted counter is not numeric.
   */
  lemma CapacityRaises(caps: seq<CapRow>, mapped: Counter -> bool, code: Cell)
    ensures CapacityFor(caps, mapped, code).Failure? <==>
      var matches := Select(caps, CapLabel, code);
      matches != [] && (mapped(All) || Counted(mapped) != []) &&
      (|matches| > 1 || !Consulted(mapped, matches[0]))
  {
    var matches := Select(caps, CapLabel, code);
    if mapped(All) {
      assert CapacityFor(caps, mapped, code) == Lookup(caps, code)(All);
      assert matches != [] ==> (Consulted(mapped, matches[0]) <==> PyNumeric(matches[0].all).Some?);
    } else {
      SumRaises(caps, code, Counted(mapped));
      assert CapacityFor(caps, mapped, code) == SumOf(Counted(mapped), Lookup(caps, code));
      assert matches != [] ==> (Consulted(mapped, matches[0]) <==> forall k :: k in Counted(mapped) ==> PyNumeric(CounterCell(matches[0], k)).Some?);
    }
  }

  /** A sum of lookups raises exactly when the code is in the table, some counter is summed, and a lookup raises. */
  lemma SumRaises(caps: seq<CapRow>, code: Cell, ks: seq<Counter>)
    ensures SumOf(ks, Lookup(caps, code)).Failure? <==>
      var matches := Select(caps, CapLabel, code);
      matches != [] && ks != [] && (|matches| > 1 || exists k :: k in ks && PyNumeric(CounterCell(matches[0], k)).None?)
  {
    var look := Lookup(caps, code);
    var matches := Select(caps, CapLabel, code);
    SumOfValue(ks, look);
    if matches != [] && ks != [] {
      if |matches| > 1 {
        assert look(ks[0]).Failure?;
      } else if exists k :: k in ks && PyNumeric(CounterCell(matches[0], k)).None? {
        var k :| k in ks && PyNumeric(CounterCell(matches[0], k)).None?;
        var i :| 0 <= i < |ks| && ks[i] == k;
        assert look(ks[i]).Failure?;
      }
    }
  }

  /** `capacity_for_id`: the ALL lookup when ALL is mapped, otherwise the loop over the columns. */
  method CapacityForId(caps: seq<CapRow>, mapped: Counter -> bool, code: Cell) returns (r: Result<int, PyError>)
    ensures r == CapacityFor(caps, mapped, code)
  {
    if mapped(All) {
      var matches := Select(caps, CapLabel, code);
      r := LocInt(matches, code, All);
      assert r == Lookup(caps, code)(All);
    } else {
      r := SumColumns(caps, mapped, code);
    }
  }

  /** The loop `for col in [cap_bc_col, cap_mgr_col, cap_phd_col]` adding each mapped counter of the code. */
  method SumColumns(caps: seq<CapRow>, mapped: Counter -> bool, code: Cell) returns (r: Result<int, PyError>)
    ensures r == SumOf(Counted(mapped), Lookup(caps, code))
  {
    r := SumLoop([Bc, Mgr, Phd], mapped, Lookup(caps, code));
  }

  /** `total += look(col)` for each column passing the test, raising at the first lookup that raises. */
  method SumLoop<K>(cols: seq<K>, p: K -> bool, look: K -> Result<int, PyError>) returns (r: Result<int, PyError>)
    ensures r == SumOf(Filter(cols, p), look)
  {
    var total := 0;
    SumOfNone(cols, p, look);
    for i := 0 to |cols|
      invariant SumOf(Filter(cols[..i], p), look) == Success(total)
    {
      SumStep(cols, p, look, i, total);
      if p(cols[i]) {
        var n := look(cols[i]);
        if n.Failure? {
          SumOfPrefixFails(cols, p, look, i + 1);
          return Failure(n.error);
        }
        total := total + n.value;
      }
    }
    assert cols[..|cols|] == cols;
    return Success(total);
  }

  // ---------------------------------------------------------- selection

  /** `head(n)`: the first n elements, all of them when there are fewer. */
  function Head<T>(s: seq<T>, n: int): (r: seq<T>)
    ensures |r| == if n <= 0 then 0 else if n < |s| then n else |s|
  {
    if n <= 0 then [] else if n < |s| then s[..n] else s
  }

  /** What one institute contributes, given the outcome of its capacity lookup. */
  function TakeGroup(cap: Result<int, PyError>, group: seq<Row>): seq<Row> {
    if cap.Failure? || cap.value <= 0 then [] else Head(SortNaNLast(group, RankNum), cap.value)
  }

  function TakeBest(capacity: Cell -> Result<int, PyError>): (Cell, seq<Row>) -> seq<Row> {
    (code, group) => TakeGroup(capacity(code), group)
  }

  /** The error of the first code whose capacity lookup raises, if any. */
  function FirstError(capacity: Cell -> Result<int, PyError>, codes: seq<Cell>): Option<PyError>
    decreases |codes|
  {
    if codes == [] then None
    else
      var e := FirstError(capacity, codes[..|codes| - 1]);
      if e.Some? then e
      else
        match capacity(codes[|codes| - 1])
        case Failure(err) => Some(err)
        case Success(_) => None
  }

  /** The raised errors for unmapped columns: the capacity code column, then the institute and rank columns. */
  function ColumnsMissing(capCols: Mapper, appCols: Mapper): (e: Option<PyError>)
    ensures e.None? <==> Mapped(capCols, "ID code") && AllMapped(appCols, Step3Keys)
  {
    if !Mapped(capCols, "ID code") then Some(MissingColumns(["ID code"]))
    else RequireColumns(appCols, Step3Keys)
  }

  /** The groups of the coerced sheet, each cut down to its capacity; the first failing lookup raises. */
  function Selection(rows: seq<Row>, capacity: Cell -> Result<int, PyError>): Result<seq<Row>, PyError> {
    var df := CoercedRows(rows);
    var order := Keys(df, CodeLabel);
    match FirstError(capacity, order)
    case Some(e) => Failure(e)
    case None => Success(GroupMap(df, CodeLabel, order, TakeBest(capacity)))
  }

  /** `build_result_table`, before the projection onto the output columns; groups in order of first appearance. */
  function ResultTable(rows: seq<Row>, caps: seq<CapRow>, capCols: Mapper, appCols: Mapper): Result<seq<Row>, PyError> {
    match ColumnsMissing(capCols, appCols)
    case Some(e) => Failure(e)
    case None => Selection(rows, CapacityOf(caps, IsMapped(capCols)))
  }

  lemma {:induction false} FirstErrorPrefix(capacity: Cell -> Result<int, PyError>, codes: seq<Cell>, j: int)
    requires 0 <= j <= |codes|
    requires FirstError(capacity, codes[..j]).Some?
    ensures FirstError(capacity, codes) == FirstError(capacity, codes[..j])
    decreases |codes| - j
  {
    if j < |codes| {
      assert codes[..j + 1][..j] == codes[..j];
      FirstErrorPrefix(capacity, codes, j + 1);
    } else {
      assert codes[..j] == codes;
    }
  }

  /** No error is reported exactly when every lookup succeeds. */
  lemma {:induction false} FirstErrorNone(capacity: Cell -> Result<int, PyError>, codes: seq<Cell>)
    ensures FirstError(capacity, codes).None? <==> forall i :: 0 <= i < |codes| ==> capacity(codes[i]).Success?
    decreases |codes|
  {
    if codes != [] {
      var init := codes[..|codes| - 1];
      FirstErrorNone(capacity, init);
      assert forall i :: 0 <= i < |init| ==> init[i] == codes[i];
    }
  }

  /** `build_result_table` as the loop over the groups the source runs. */
  method BuildResultTable(rows: seq<Row>, caps: seq<CapRow>, capCols: Mapper, appCols: Mapper) returns (r: Result<seq<Row>, PyError>)
    ensures r == ResultTable(rows, caps, capCols, appCols)
  {
    var missing := ColumnsMissing(capCols, appCols);
    if missing.Some? {
      return Failure(missing.value);
    }
    r := SelectGroups(rows, caps, IsMapped(capCols));
  }

  /** The loop over the groups: `selected_rows.append(group_sorted.head(cap))` unless the capacity is 0 or less. */
  method SelectGroups(rows: seq<Row>, caps: seq<CapRow>, mapped: Counter -> bool) returns (r: Result<seq<Row>, PyError>)
    ensures r == Selection(rows, CapacityOf(caps, mapped))
  {
    var capacity := CapacityOf(caps, mapped);
    var df := CoercedRows(rows);
    var order := Keys(df, CodeLabel);
    var selected: seq<Row> := [];
    for i := 0 to |order|
      invariant FirstError(capacity, order[..i]).None?
      invariant selected == GroupMap(df, CodeLabel, order[..i], TakeBest(capacity))
    {
      var cap := CapacityForId(caps, mapped, order[i]);
      assert cap == capacity(order[i]);
      FirstErrorStep(capacity, order, i);
      if cap.Failure? {
        FirstErrorPrefix(capacity, order, i + 1);
        return Failure(cap.error);
      }
      SelectionStep(df, order, capacity, i);
      if cap.value <= 0 {
        continue;
      }
      var group := Select(df, CodeLabel, order[i]);
      var sorted := SortNaNLast(group, RankNum);
      selected := selected + Head(sorted, cap.value);
    }
    assert order[..|order|] == order;
    return Success(selected);
  }

  lemma FirstErrorStep(capacity: Cell -> Result<int, PyError>, codes: seq<Cell>, i: int)
    requires 0 <= i < |codes|
    ensures FirstError(capacity, codes[..i + 1]) ==
      if FirstError(capacity, codes[..i]).Some? then FirstError(capacity, codes[..i])
      else if capacity(codes[i]).Failure? then Some(capacity(codes[i]).error)
      else None
  {
    assert codes[..i + 1][..i] == codes[..i];
  }

  /** The output grows by the share of the next institute. */
  lemma SelectionStep(df: seq<Row>, order: seq<Cell>, capacity: Cell -> Result<int, PyError>, i: int)
    requires 0 <= i < |order|
    ensures GroupMap(df, CodeLabel, order[..i + 1], TakeBest(capacity)) ==
      GroupMap(df, CodeLabel, order[..i], TakeBest(capacity)) + TakeGroup(capacity(order[i]), Select(df, CodeLabel, order[i]))
  {
    GroupMapNext(df, CodeLabel, order, TakeBest(capacity), i);
  }

  // ------------------------------------------------------------ lemmas

  /**
   * It raises exactly when the capacity code column, the institute column
   * or the rank column is unmapped, or the capacity lookup of some
   * institute in the table raises.
   */
  lemma ResultTableRaises(rows: seq<Row>, caps: seq<CapRow>, capCols: Mapper, appCols: Mapper)
    ensures ResultTable(rows, caps, capCols, appCols).Failure? <==>
      ColumnsMissing(capCols, appCols).Some? || exists i :: 0 <= i < |rows| && CapacityOf(caps, IsMapped(capCols))(rows[i].code).Failure?
  {
    SelectionRaises(rows, CapacityOf(caps, IsMapped(capCols)));
  }

  lemma SelectionRaises(rows: seq<Row>, capacity: Cell -> Result<int, PyError>)
    ensures Selection(rows, capacity).Failure? <==> exists i :: 0 <= i < |rows| && capacity(rows[i].code).Failure?
  {
    var df := CoercedRows(rows);
    var order := Keys(df, CodeLabel);
    FirstErrorNone(capacity, order);
    KeysSome(df, CodeLabel, (c: Cell) => capacity(c).Failure?);
    assert forall i :: 0 <= i < |rows| ==> CodeLabel(df[i]) == rows[i].code;
  }

  /** Some key passes a test exactly when some element's key does. */
  lemma KeysSome<T, K>(s: seq<T>, key: T -> K, bad: K -> bool)
    ensures (exists j :: 0 <= j < |Keys(s, key)| && bad(Keys(s, key)[j])) <==> exists i :: 0 <= i < |s| && bad(key(s[i]))
  {
    var ks := Keys(s, key);
    if exists i :: 0 <= i < |s| && bad(key(s[i])) {
      var i :| 0 <= i < |s| && bad(key(s[i]));
      KeysHas(s, key, key(s[i]));
      var j :| 0 <= j < |ks| && ks[j] == key(s[i]);
    }
    if exists j :: 0 <= j < |ks| && bad(ks[j]) {
      var j :| 0 <= j < |ks| && bad(ks[j]);
      KeysHas(s, key, ks[j]);
      var i :| 0 <= i < |s| && key(s[i]) == ks[j];
    }
  }

  lemma TakeGroupKeyed(cap: Result<int, PyError>, group: seq<Row>, k: Cell)
    requires Keyed(group, CodeLabel, k)
    ensures Keyed(TakeGroup(cap, group), CodeLabel, k)
  {
    if !(cap.Failure? || cap.value <= 0) {
      var sorted := SortNaNLast(group, RankNum);
      KeyedPerm(sorted, group, CodeLabel, k);
      assert Keyed(Head(sorted, cap.value), CodeLabel, k);
    }
  }

  /** How many rows an institute with the given capacity lookup receives out of n. */
  function Quota(cap: Result<int, PyError>, n: nat): (q: nat)
    ensures q <= n
  {
    if cap.Failure? || cap.value <= 0 then 0 else if cap.value < n then cap.value else n
  }

  /** An institute's share is a prefix, as long as its quota, of some NaN-last ordering of its rows by rank. */
  lemma TakeGroupSpec(cap: Result<int, PyError>, group: seq<Row>)
    ensures exists p :: IsNaNLastOrder(group, p, RankNum) && |p| == |group| && TakeGroup(cap, group) == p[..Quota(cap, |group|)]
  {
    var p := SortNaNLast(group, RankNum);
    assert TakeGroup(cap, group) == p[..Quota(cap, |group|)];
  }

  /**
   * Each institute receives its best-ranked rows: a prefix, as long as its
   * capacity allows, of some NaN-last ordering of its rows by rank; an
   * institute with capacity 0 or less receives none.
   */
  lemma PerInstitute(rows: seq<Row>, capacity: Cell -> Result<int, PyError>, code: Cell)
    requires Selection(rows, capacity).Success?
    ensures var group := Select(CoercedRows(rows), CodeLabel, code);
      exists p :: IsNaNLastOrder(group, p, RankNum) && |p| == |group| &&
        Select(Selection(rows, capacity).value, CodeLabel, code) == p[..Quota(capacity(code), |group|)]
  {
    var group := Select(CoercedRows(rows), CodeLabel, code);
    SelectionPerInstitute(rows, capacity, code);
    var p := SortNaNLast(group, RankNum);
    assert TakeGroup(capacity(code), group) == p[..Quota(capacity(code), |group|)];
  }

  lemma SelectionPerInstitute(rows: seq<Row>, capacity: Cell -> Result<int, PyError>, code: Cell)
    requires Selection(rows, capacity).Success?
    ensures Select(Selection(rows, capacity).value, CodeLabel, code) == TakeGroup(capacity(code), Select(CoercedRows(rows), CodeLabel, code))
  {
    var df := CoercedRows(rows);
    var order := Keys(df, CodeLabel);
    forall i | 0 <= i < |order| ensures Keyed(TakeBest(capacity)(order[i], Select(df, CodeLabel, order[i])), CodeLabel, order[i]) {
      SelectIsKeyed(df, CodeLabel, order[i]);
      TakeGroupKeyed(capacity(order[i]), Select(df, CodeLabel, order[i]), order[i]);
    }
    SelectGroupMap(df, CodeLabel, order, TakeBest(capacity), code);
    SelectNonEmptyIffKey(df, CodeLabel, code);
  }

  /** The selection takes rows of the coerced sheet, each at most once. */
  lemma SelectionSub(rows: seq<Row>, capacity: Cell -> Result<int, PyError>)
    requires Selection(rows, capacity).Success?
    ensures multiset(Selection(rows, capacity).value) <= multiset(CoercedRows(rows))
  {
    var df := CoercedRows(rows);
    var order := Keys(df, CodeLabel);
    forall i | 0 <= i < |order|
      ensures multiset(TakeBest(capacity)(order[i], Select(df, CodeLabel, order[i]))) <= multiset(Select(df, CodeLabel, order[i]))
    {
      TakeGroupSub(capacity(order[i]), Select(df, CodeLabel, order[i]));
    }
    GroupMapSub(df, CodeLabel, order, TakeBest(capacity));
    KeysCover(df, CodeLabel);
    GatherPerm(df, CodeLabel, order);
  }

  lemma TakeGroupSub(cap: Result<int, PyError>, group: seq<Row>)
    ensures multiset(TakeGroup(cap, group)) <= multiset(group)
  {
    if !(cap.Failure? || cap.value <= 0) {
      var sorted := SortNaNLast(group, RankNum);
      var n := |Head(sorted, cap.value)|;
      assert sorted == Head(sorted, cap.value) + sorted[n..];
    }
  }
}
