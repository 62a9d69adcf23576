/**
 * `resolve_duplicate_cycles` of app.py: the Python reference of step 6.
 * The flag is compared as stripped upper-case text, ranks and priorities
 * as coerced numbers, students and institutes as raw cells under pandas
 * `==` (NaN equals nothing). Conflicted students form a graph searched by
 * the same depth-first search as the web version; each cycle loses its
 * members' accepted rows when they would all still be admitted without
 * them and their refused rows otherwise; refused rows of conflicted
 * students outside every cycle are dropped where no accepted competitor
 * holds more than one row.
 */
module PyCycles {
  import opened Wrappers
  import opened Cells
  import opened Rows
  import opened Grouping
  import opened Pandas
  import opened GraphSearch
  import opened PyOrdering
  import PS = PySelection
  import CR = CycleResolution

  const Step6Keys: seq<string> := ["Číslo UK", "NOMINOVÁN", "ID code", "Pořadí"]

  // ------------------------------------------------ the prepared frame

  /**
   * `df`: the flag stripped and upper-cased as text, the rank coerced to a
   * number, and the priority too when its column is mapped.
   */
  function Prepare(prioMapped: bool): Row -> Row {
    (r: Row) => r.(flag := Text(NormText(r.flag)), rank := Coerced(r.rank),
            priority := if prioMapped then Coerced(r.priority) else r.priority)
  }

  function Prepared(rows: seq<Row>, prioMapped: bool): (df: seq<Row>)
    ensures |df| == |rows|
  {
    Project(rows, Prepare(prioMapped))
  }

  predicate Ano(r: Row) { r.flag == Text("ANO") }

  predicate Ne(r: Row) { r.flag == Text("NE") }

  function UkLabel(r: Row): Cell { r.uk }

  /** `df[uk_col] == uk`. */
  function OfStudent(u: Cell): Row -> bool {
    (r: Row) => Same(r.uk, u)
  }

  predicate HasAno(df: seq<Row>, u: Cell) {
    exists i :: 0 <= i < |df| && Same(df[i].uk, u) && Ano(df[i])
  }

  predicate HasNe(df: seq<Row>, u: Cell) {
    exists i :: 0 <= i < |df| && Same(df[i].uk, u) && Ne(df[i])
  }

  /** A student holding both an accepted and a refused row. */
  predicate Conflicted(df: seq<Row>, u: Cell) {
    HasAno(df, u) && HasNe(df, u)
  }

  /** `students_with_both`: never NaN, since NaN selects no rows. */
  function BothSet(df: seq<Row>): (s: set<Cell>)
    ensures forall u :: u in s <==> Conflicted(df, u)
    ensures Missing !in s
  {
    var s := set i | 0 <= i < |df| && Conflicted(df, df[i].uk) :: df[i].uk;
    assert forall u :: Conflicted(df, u) ==> u in s by {
      forall u | Conflicted(df, u) ensures u in s {
        var i :| 0 <= i < |df| && Same(df[i].uk, u) && Ano(df[i]);
      }
    }
    s
  }

  /** Row j is an accepted row of another conflicted student at institute `school`. */
  predicate Blocker(df: seq<Row>, both: set<Cell>, u: Cell, school: Cell, j: int) {
    0 <= j < |df| && Same(df[j].code, school) && Ano(df[j]) && !Same(df[j].uk, u) && df[j].uk in both
  }

  /** The edge u -> x: u is refused somewhere that conflicted student x is accepted. */
  predicate Edge(df: seq<Row>, both: set<Cell>, u: Cell, x: Cell) {
    exists i, j :: 0 <= i < |df| && 0 <= j < |df| && Same(df[i].uk, u) && Ne(df[i]) && Blocker(df, both, u, df[i].code, j) && df[j].uk == x
  }

  /** A cycle of the conflict graph: at least two distinct students, each with an edge to the next, the last to the first. */
  predicate IsConflictCycle(df: seq<Row>, c: seq<Cell>) {
    |c| >= 2 && Distinct(c)
    && (forall i :: 0 <= i < |c| - 1 ==> Edge(df, BothSet(df), c[i], c[i + 1]))
    && Edge(df, BothSet(df), c[|c| - 1], c[0])
  }

  /**
   * `students_with_both`, in the order the model iterates that set: the
   * conflicted students in order of first appearance.
   */
  function ConflictOrder(df: seq<Row>): seq<Cell> {
    Filter(Keys(df, UkLabel), u => Conflicted(df, u))
  }

  /** The students `find_cycles` tries are exactly the conflicted ones. */
  lemma ConflictOrderHas(df: seq<Row>)
    ensures forall u :: u in ConflictOrder(df) <==> u in BothSet(df)
  {
    forall u ensures u in ConflictOrder(df) <==> u in BothSet(df) {
      FilterHas(Keys(df, UkLabel), u => Conflicted(df, u), u);
      KeysHas(df, UkLabel, u);
      if Conflicted(df, u) {
        var i :| 0 <= i < |df| && Same(df[i].uk, u) && Ano(df[i]);
        assert UkLabel(df[i]) == u;
      }
    }
  }

  /**
   * `edges[uk]` after the scan of rows df[..j] for one refused row at
   * institute `school`, starting from `succ`: each new blocker once, at
   * the end.
   */
  function AddedBlockers(df: seq<Row>, both: set<Cell>, u: Cell, school: Cell, succ: seq<Cell>, j: int): seq<Cell>
    requires 0 <= j <= |df|
  {
    if j == 0 then succ
    else
      var out := AddedBlockers(df, both, u, school, succ, j - 1);
      if Blocker(df, both, u, school, j - 1) && df[j - 1].uk !in out then out + [df[j - 1].uk] else out
  }

  /** `edges[uk]` after u's refused rows among df[..i] have been scanned. */
  function SuccessorsUpTo(df: seq<Row>, both: set<Cell>, u: Cell, i: int): seq<Cell>
    requires 0 <= i <= |df|
  {
    if i == 0 then []
    else
      var succ := SuccessorsUpTo(df, both, u, i - 1);
      if Same(df[i - 1].uk, u) && Ne(df[i - 1]) then AddedBlockers(df, both, u, df[i - 1].code, succ, |df|) else succ
  }

  /** The edge lists `find_cycles` builds: one per conflicted student. */
  function EdgeMap(df: seq<Row>): map<Cell, seq<Cell>> {
    map u | u in BothSet(df) :: SuccessorsUpTo(df, BothSet(df), u, |df|)
  }

  /** The search's precondition on the graph; EdgeMapGraph and ConflictOrderHas show it always holds. */
  predicate Searchable(df: seq<Row>) {
    GraphOver(EdgeMap(df), BothSet(df)) && forall u :: u in ConflictOrder(df) ==> u in BothSet(df)
  }

  /** The cycles `find_cycles` returns for the prepared frame. */
  function FoundConflictCycles(df: seq<Row>): seq<seq<Cell>> {
    if Searchable(df) then FoundCycles(ConflictOrder(df), EdgeMap(df), BothSet(df)) else []
  }

  lemma {:induction false} AddedBlockersHas(df: seq<Row>, both: set<Cell>, u: Cell, school: Cell, succ: seq<Cell>, j: int)
    requires Distinct(succ) && 0 <= j <= |df|
    ensures Distinct(AddedBlockers(df, both, u, school, succ, j))
    ensures forall x :: x in AddedBlockers(df, both, u, school, succ, j) <==>
      x in succ || exists j' :: 0 <= j' < j && Blocker(df, both, u, school, j') && df[j'].uk == x
  {
    if j > 0 {
      AddedBlockersHas(df, both, u, school, succ, j - 1);
    }
  }

  lemma {:induction false} SuccessorsHas(df: seq<Row>, both: set<Cell>, u: Cell, i: int)
    requires 0 <= i <= |df|
    ensures Distinct(SuccessorsUpTo(df, both, u, i))
    ensures forall x :: x in SuccessorsUpTo(df, both, u, i) <==>
      exists i', j :: 0 <= i' < i && Same(df[i'].uk, u) && Ne(df[i']) && Blocker(df, both, u, df[i'].code, j) && df[j].uk == x
  {
    if i > 0 {
      SuccessorsHas(df, both, u, i - 1);
      if Same(df[i - 1].uk, u) && Ne(df[i - 1]) {
        AddedBlockersHas(df, both, u, df[i - 1].code, SuccessorsUpTo(df, both, u, i - 1), |df|);
      }
    }
  }

  /** An edge joins two different conflicted students. */
  lemma EdgeEnds(df: seq<Row>, u: Cell, x: Cell)
    requires Edge(df, BothSet(df), u, x)
    ensures x in BothSet(df) && x != u
  {
  }

  /** The edge lists are the conflict graph's edges, over the conflicted students. */
  lemma EdgeMapGraph(df: seq<Row>)
    ensures GraphOver(EdgeMap(df), BothSet(df))
    ensures forall u :: u in EdgeMap(df) <==> u in BothSet(df)
    ensures forall u :: u in EdgeMap(df) ==> Distinct(EdgeMap(df)[u])
    ensures forall u, x :: u in EdgeMap(df) ==> (x in EdgeMap(df)[u] <==> Edge(df, BothSet(df), u, x))
  {
    forall u | u in BothSet(df)
      ensures Distinct(EdgeMap(df)[u])
      ensures forall x :: x in EdgeMap(df)[u] <==> Edge(df, BothSet(df), u, x)
    {
      SuccessorsHas(df, BothSet(df), u, |df|);
    }
    forall u, x | u in EdgeMap(df) && x in EdgeMap(df)[u] ensures x in BothSet(df) && x != u {
      EdgeEnds(df, u, x);
    }
  }

  /** Any edge lists with the conflict graph's successors have its cycles. */
  lemma EdgeListCycles(df: seq<Row>, edges: map<Cell, seq<Cell>>, c: seq<Cell>)
    requires forall u :: u in edges <==> u in BothSet(df)
    requires forall u, x :: u in edges ==> (x in edges[u] <==> Edge(df, BothSet(df), u, x))
    ensures IsCycleIn(edges, c) <==> IsConflictCycle(df, c)
  {
    if IsCycleIn(edges, c) {
      CycleOfEdges(df, edges, c);
    }
    if IsConflictCycle(df, c) {
      forall i | 0 <= i < |c| ensures c[i] in BothSet(df) {
        var from := if i == 0 then |c| - 1 else i - 1;
        assert Edge(df, BothSet(df), c[from], c[i]);
      }
      forall i | 0 <= i < |c| - 1 ensures c[i + 1] in SuccOf(edges, c[i]) {
        assert Edge(df, BothSet(df), c[i], c[i + 1]);
      }
      assert c[0] in SuccOf(edges, c[|c| - 1]);
    }
  }

  /**
   * Python iterates `students_with_both` and each `edges[uk]` in an order
   * it does not fix. Whatever the order, the search reports no cycle
   * exactly when the conflict graph has none, and every cycle it reports
   * is one.
   */
  lemma AnyOrderComplete(df: seq<Row>, order: seq<Cell>, edges: map<Cell, seq<Cell>>)
    requires forall u :: u in order <==> u in BothSet(df)
    requires forall u :: u in edges <==> u in BothSet(df)
    requires forall u, x :: u in edges ==> (x in edges[u] <==> Edge(df, BothSet(df), u, x))
    ensures GraphOver(edges, BothSet(df))
    ensures forall c :: c in FoundCycles(order, edges, BothSet(df)) ==> IsConflictCycle(df, c)
    ensures FoundCycles(order, edges, BothSet(df)) == [] <==> !exists c :: IsConflictCycle(df, c)
  {
    var nodes := BothSet(df);
    forall u, x | u in edges && x in edges[u] ensures x in nodes && x != u {
      EdgeEnds(df, u, x);
    }
    CollectSound(order, edges, nodes, {});
    forall c | c in FoundCycles(order, edges, nodes) ensures IsConflictCycle(df, c) {
      CycleOfEdges(df, edges, c);
    }
    FoundCyclesComplete(order, edges, nodes);
    if c :| IsConflictCycle(df, c) {
      EdgeListCycles(df, edges, c);
    }
    if c :| IsCycleIn(edges, c) {
      EdgeListCycles(df, edges, c);
    }
  }

  /** In particular for the order the model fixes: `find_cycles` is sound and complete. */
  lemma FoundConflictCyclesComplete(df: seq<Row>)
    ensures forall c :: c in FoundConflictCycles(df) ==> IsConflictCycle(df, c)
    ensures FoundConflictCycles(df) == [] <==> !exists c :: IsConflictCycle(df, c)
  {
    EdgeMapGraph(df);
    ConflictOrderHas(df);
    assert FoundConflictCycles(df) == FoundCycles(ConflictOrder(df), EdgeMap(df), BothSet(df));
    AnyOrderComplete(df, ConflictOrder(df), EdgeMap(df));
  }

  /** A student whose only edge goes to b has the edge list [b]. */
  lemma SingleEdge(df: seq<Row>, u: Cell, b: Cell)
    requires u in BothSet(df)
    requires forall x :: Edge(df, BothSet(df), u, x) <==> x == b
    ensures EdgeMap(df)[u] == [b]
  {
    EdgeMapGraph(df);
    OnlyMember(EdgeMap(df)[u], b);
  }

  /** Three conflicted students, each with a single edge to the next, have the ring as their edge lists. */
  lemma RingEdges(df: seq<Row>, a: Cell, b: Cell, c: Cell)
    requires a != b && b != c && a != c
    requires BothSet(df) == {a, b, c}
    requires forall x :: Edge(df, {a, b, c}, a, x) <==> x == b
    requires forall x :: Edge(df, {a, b, c}, b, x) <==> x == c
    requires forall x :: Edge(df, {a, b, c}, c, x) <==> x == a
    ensures EdgeMap(df) == Ring(a, b, c)
  {
    SingleEdge(df, a, b);
    SingleEdge(df, b, c);
    SingleEdge(df, c, a);
    var e, r := EdgeMap(df), Ring(a, b, c);
    assert e.Keys == r.Keys;
    forall u | u in e ensures e[u] == r[u] {
      assert u == a || u == b || u == c;
    }
  }

  /** On three conflicted students blocking each other in a ring, `find_cycles` returns the three as one cycle. */
  lemma RingFound(df: seq<Row>, a: Cell, b: Cell, c: Cell)
    requires a != b && b != c && a != c
    requires BothSet(df) == {a, b, c}
    requires forall x :: Edge(df, {a, b, c}, a, x) <==> x == b
    requires forall x :: Edge(df, {a, b, c}, b, x) <==> x == c
    requires forall x :: Edge(df, {a, b, c}, c, x) <==> x == a
    ensures |FoundConflictCycles(df)| == 1
    ensures forall u :: u in FoundConflictCycles(df)[0] <==> u in {a, b, c}
  {
    RingEdges(df, a, b, c);
    ConflictOrderHas(df);
    var order := ConflictOrder(df);
    assert a in order;
    RingOfThree(a, b, c, order);
    assert FoundConflictCycles(df) == FoundCycles(order, Ring(a, b, c), {a, b, c});
    var cycle := FoundConflictCycles(df)[0];
    assert Members(cycle) == {a, b, c};
    forall u ensures u in cycle <==> u in {a, b, c} {
      assert u in Members(cycle) <==> u in cycle;
    }
  }

  // ------------------------------------------------ building the graph

  /** The loop over `df[uk_col].unique()` filling `students_with_both`. */
  method ConflictedStudents(df: seq<Row>) returns (both: seq<Cell>, bothSet: set<Cell>)
    ensures both == ConflictOrder(df)
    ensures bothSet == BothSet(df)
    ensures forall u :: u in both <==> u in bothSet
  {
    var students := Keys(df, UkLabel);
    both := [];
    bothSet := {};
    for k := 0 to |students|
      invariant both == Filter(students[..k], u => Conflicted(df, u))
      invariant forall u :: u in both <==> u in bothSet
      invariant forall u :: u in bothSet <==> u in students[..k] && Conflicted(df, u)
    {
      var uk := students[k];
      var hasAno := exists i :: 0 <= i < |df| && Same(df[i].uk, uk) && Ano(df[i]);
      var hasNe := exists i :: 0 <= i < |df| && Same(df[i].uk, uk) && Ne(df[i]);
      assert students[..k + 1] == students[..k] + [uk];
      assert students[..k + 1][..k] == students[..k];
      if hasAno && hasNe {
        both := both + [uk];
        bothSet := bothSet + {uk};
      }
    }
    assert students[..|students|] == students;
    forall u | Conflicted(df, u) ensures u in students {
      var i :| 0 <= i < |df| && Same(df[i].uk, u) && Ano(df[i]);
      KeysHas(df, UkLabel, UkLabel(df[i]));
    }
  }

  /** The loop over `school_anos` of one refused row: `edges[uk].add(...)`, each student once. */
  method AddBlockers(df: seq<Row>, both: set<Cell>, u: Cell, school: Cell, succ: seq<Cell>) returns (out: seq<Cell>)
    requires Distinct(succ)
    ensures out == AddedBlockers(df, both, u, school, succ, |df|)
    ensures Distinct(out)
    ensures forall x :: x in out <==> x in succ || exists j :: Blocker(df, both, u, school, j) && df[j].uk == x
  {
    out := succ;
    for j := 0 to |df|
      invariant out == AddedBlockers(df, both, u, school, succ, j)
    {
      if Same(df[j].code, school) && Ano(df[j]) && !Same(df[j].uk, u) && df[j].uk in both {
        if df[j].uk !in out {
          out := out + [df[j].uk];
        }
      }
    }
    AddedBlockersHas(df, both, u, school, succ, |df|);
  }

  /** `edges[uk]`: the blockers met through each of u's refused rows. */
  method Successors(df: seq<Row>, both: set<Cell>, u: Cell) returns (succ: seq<Cell>)
    ensures succ == SuccessorsUpTo(df, both, u, |df|)
    ensures Distinct(succ)
    ensures forall x :: x in succ <==> Edge(df, both, u, x)
  {
    succ := [];
    for i := 0 to |df|
      invariant succ == SuccessorsUpTo(df, both, u, i)
    {
      if Same(df[i].uk, u) && Ne(df[i]) {
        SuccessorsHas(df, both, u, i);
        succ := AddBlockers(df, both, u, df[i].code, succ);
      }
    }
    SuccessorsHas(df, both, u, |df|);
  }

  /** The loop filling `edges`, one conflicted student at a time. */
  method BuildEdges(df: seq<Row>, both: seq<Cell>, bothSet: set<Cell>) returns (edges: map<Cell, seq<Cell>>)
    requires bothSet == BothSet(df)
    requires forall u :: u in both <==> u in bothSet
    ensures edges == EdgeMap(df)
    ensures GraphOver(edges, bothSet)
    ensures forall u :: u in edges <==> u in bothSet
    ensures forall u, x :: u in edges ==> (x in edges[u] <==> Edge(df, bothSet, u, x))
  {
    edges := map[];
    for k := 0 to |both|
      invariant forall u :: u in edges <==> u in both[..k]
      invariant forall u :: u in edges ==> edges[u] == SuccessorsUpTo(df, bothSet, u, |df|)
    {
      var succ := Successors(df, bothSet, both[k]);
      edges := edges[both[k] := succ];
    }
    assert both[..|both|] == both;
    EdgeMapGraph(df);
  }

  /** A cycle of the edge lists built by BuildEdges is a cycle of the conflict graph. */
  lemma CycleOfEdges(df: seq<Row>, edges: map<Cell, seq<Cell>>, c: seq<Cell>)
    requires forall u :: u in edges <==> u in BothSet(df)
    requires forall u, x :: u in edges ==> (x in edges[u] <==> Edge(df, BothSet(df), u, x))
    requires IsCycleIn(edges, c)
    ensures IsConflictCycle(df, c)
  {
    forall i | 0 <= i < |c| - 1 ensures Edge(df, BothSet(df), c[i], c[i + 1]) {
      assert c[i + 1] in SuccOf(edges, c[i]);
    }
    assert c[0] in SuccOf(edges, c[|c| - 1]);
  }

  /** Building `edges` over the conflicted students and searching it from each of them in turn. */
  method SearchConflicts(df: seq<Row>, both: seq<Cell>, bothSet: set<Cell>) returns (cycles: seq<seq<Cell>>)
    requires both == ConflictOrder(df) && bothSet == BothSet(df)
    ensures cycles == FoundConflictCycles(df)
    ensures forall c :: c in cycles ==> IsConflictCycle(df, c)
  {
    ConflictOrderHas(df);
    var edges := BuildEdges(df, both, bothSet);
    cycles := FindCycles(both, edges, bothSet);
    assert cycles == FoundConflictCycles(df);
    forall c | c in cycles ensures IsConflictCycle(df, c) {
      CycleOfEdges(df, edges, c);
    }
  }

  /** `find_cycles`: no conflicted student gives no cycle; otherwise the graph is built and searched. */
  method FindConflictCycles(df: seq<Row>) returns (cycles: seq<seq<Cell>>)
    ensures cycles == FoundConflictCycles(df)
    ensures forall c :: c in cycles ==> IsConflictCycle(df, c)
    ensures BothSet(df) == {} ==> cycles == []
  {
    var both, bothSet := ConflictedStudents(df);
    if |both| == 0 {
      assert bothSet == {};
      ConflictOrderHas(df);
      assert FoundConflictCycles(df) == Collect([], EdgeMap(df), BothSet(df), {});
      return [];
    }
    cycles := SearchConflicts(df, both, bothSet);
    assert both[0] in bothSet;
  }

  // ------------------------------------------------ the admission test

  /** `uk` is one of the cycle's students under `==`: NaN is none of them. */
  predicate Member(cycle: seq<Cell>, c: Cell) {
    c != Missing && c in cycle
  }

  /** Rows that survive dropping the accepted rows of the cycle's students. */
  function NotAcceptedIn(cycle: seq<Cell>): Row -> bool {
    (r: Row) => !(Member(cycle, r.uk) && Ano(r))
  }

  /** `test_df`. */
  function Hypothetical(df: seq<Row>, cycle: seq<Cell>): seq<Row> {
    Filter(df, NotAcceptedIn(cycle))
  }

  /** Rows that survive dropping the accepted rows of student u. */
  function NotAcceptedOf(u: Cell): Row -> bool {
    (r: Row) => !(Same(r.uk, u) && Ano(r))
  }

  /** The loop dropping each cycle student's accepted rows from `test_df`. */
  method DropAccepted(df: seq<Row>, cycle: seq<Cell>) returns (t: seq<Row>)
    ensures t == Hypothetical(df, cycle)
  {
    t := df;
    FilterAll(df, NotAcceptedIn([]));
    for k := 0 to |cycle|
      invariant t == Filter(df, NotAcceptedIn(cycle[..k]))
    {
      assert cycle[..k + 1] == cycle[..k] + [cycle[k]];
      FilterFilter(df, NotAcceptedIn(cycle[..k]), NotAcceptedOf(cycle[k]), NotAcceptedIn(cycle[..k + 1]));
      t := Filter(t, NotAcceptedOf(cycle[k]));
    }
    assert cycle[..|cycle|] == cycle;
  }

  function PrioNum(r: Row): Option<int> { PyNumeric(r.priority) }

  /**
   * The row the test looks at: the student's first remaining row, after
   * `sort_values(prio_col)` when the priority column is mapped.
   */
  function BestRow(rows: seq<Row>, prioMapped: bool): (b: Row)
    requires rows != []
    ensures b in rows
  {
    if prioMapped then
      var sorted := SortNaNLast(rows, PrioNum);
      assert sorted[0] in multiset(rows);
      sorted[0]
    else rows[0]
  }

  /** `get_capacity(code)`: the ALL cell of the institute's capacity row, or 0. */
  function CapacityOf(caps: seq<CapRow>, allMapped: bool, code: Cell): Result<int, PyError> {
    if allMapped then PS.LocInt(Select(caps, PS.CapLabel, code), code, PS.All) else Success(0)
  }

  /** Rows at `school` ranked strictly before `order`. */
  function Ahead(school: Cell, order: Option<int>): Row -> bool {
    (r: Row) => Same(r.code, school) && Less(PyNumeric(r.rank), order)
  }

  /**
   * One student of the test: with no row left the student passes; else
   * the best row passes when fewer rows at its institute are ranked
   * before it than the institute's capacity.
   */
  function Admission(t: seq<Row>, caps: seq<CapRow>, allMapped: bool, prioMapped: bool, u: Cell): Result<bool, PyError> {
    var rows := Filter(t, OfStudent(u));
    if rows == [] then Success(true)
    else
      var best := BestRow(rows, prioMapped);
      match CapacityOf(caps, allMapped, best.code)
      case Failure(e) => Failure(e)
      case Success(cap) => Success(|Filter(t, Ahead(best.code, PyNumeric(best.rank)))| < cap)
  }

  /** The test of each student against the frame t. */
  function Check(t: seq<Row>, caps: seq<CapRow>, allMapped: bool, prioMapped: bool): Cell -> Result<bool, PyError> {
    u => Admission(t, caps, allMapped, prioMapped, u)
  }

  /** The items in turn: the first failure is raised, the first refusal ends the test. */
  function AllPassed<K, E>(us: seq<K>, check: K -> Result<bool, E>): Result<bool, E>
    decreases |us|
  {
    if us == [] then Success(true)
    else
      match check(us[0])
      case Failure(e) => Failure(e)
      case Success(ok) => if !ok then Success(false) else AllPassed(us[1..], check)
  }

  /** `would_all_get_nominated(set(cycle))`. */
  function WouldAllGetNominated(df: seq<Row>, caps: seq<CapRow>, allMapped: bool, prioMapped: bool, cycle: seq<Cell>): Result<bool, PyError> {
    AllPassed(cycle, Check(Hypothetical(df, cycle), caps, allMapped, prioMapped))
  }

  /** One student of `would_all_get_nominated`: the sorted rows, the first of them, `break`. */
  method Admitted(t: seq<Row>, caps: seq<CapRow>, allMapped: bool, prioMapped: bool, u: Cell) returns (r: Result<bool, PyError>)
    ensures r == Admission(t, caps, allMapped, prioMapped, u)
  {
    var rows := Filter(t, OfStudent(u));
    if prioMapped {
      rows := SortNaNLast(rows, PrioNum);
    }
    if |rows| == 0 {
      return Success(true);
    }
    var ne := rows[0];
    var capacity := CapacityOf(caps, allMapped, ne.code);
    if capacity.Failure? {
      return Failure(capacity.error);
    }
    var better := |Filter(t, Ahead(ne.code, PyNumeric(ne.rank)))|;
    if better >= capacity.value {
      return Success(false);
    }
    return Success(true);
  }

  /** `would_all_get_nominated`: drop the accepted rows, then test the students in turn. */
  method WouldAllGetNominatedLoop(df: seq<Row>, caps: seq<CapRow>, allMapped: bool, prioMapped: bool, cycle: seq<Cell>)
    returns (r: Result<bool, PyError>)
    ensures r == WouldAllGetNominated(df, caps, allMapped, prioMapped, cycle)
  {
    var t := DropAccepted(df, cycle);
    var check := Check(t, caps, allMapped, prioMapped);
    for k := 0 to |cycle|
      invariant AllPassed(cycle, check) == AllPassed(cycle[k..], check)
    {
      var a := Admitted(t, caps, allMapped, prioMapped, cycle[k]);
      if a.Failure? {
        return Failure(a.error);
      }
      if !a.value {
        return Success(false);
      }
      assert cycle[k..][1..] == cycle[k + 1..];
    }
    return Success(true);
  }

  // ------------------------------------------------ the deletions

  /** Row r falls to a cycle whose test came out `admitted`: a member's accepted row if so, a member's refused row if not. */
  predicate Victim(r: Row, cycle: seq<Cell>, admitted: bool) {
    Member(cycle, r.uk) && (if admitted then Ano(r) else Ne(r))
  }

  function Victims(df: seq<Row>, cycle: seq<Cell>, admitted: bool): set<int> {
    set i | 0 <= i < |df| && Victim(df[i], cycle, admitted)
  }

  /** The rows the cycle loop marks, cycle after cycle; a test that raises ends it. */
  function CycleDeletions(df: seq<Row>, caps: seq<CapRow>, allMapped: bool, prioMapped: bool, cycles: seq<seq<Cell>>)
    : Result<set<int>, PyError>
    decreases |cycles|
  {
    if cycles == [] then Success({})
    else
      var last := cycles[|cycles| - 1];
      match CycleDeletions(df, caps, allMapped, prioMapped, cycles[..|cycles| - 1])
      case Failure(e) => Failure(e)
      case Success(del) =>
        match WouldAllGetNominated(df, caps, allMapped, prioMapped, last)
        case Failure(e) => Failure(e)
        case Success(ok) => Success(del + Victims(df, last, ok))
  }

  /** Once the loop has raised on a prefix of the cycles, it raises the same error on all of them. */
  lemma {:induction false} CycleDeletionsFailed(df: seq<Row>, caps: seq<CapRow>, allMapped: bool, prioMapped: bool, cycles: seq<seq<Cell>>, k: int)
    requires 0 <= k <= |cycles|
    requires CycleDeletions(df, caps, allMapped, prioMapped, cycles[..k]).Failure?
    ensures CycleDeletions(df, caps, allMapped, prioMapped, cycles) == CycleDeletions(df, caps, allMapped, prioMapped, cycles[..k])
    decreases |cycles|
  {
    if k < |cycles| {
      var init := cycles[..|cycles| - 1];
      assert init[..k] == cycles[..k];
      CycleDeletionsFailed(df, caps, allMapped, prioMapped, init, k);
    } else {
      assert cycles[..k] == cycles;
    }
  }

  /** Row j is an accepted row at `school` of a student other than u who holds more than one row. */
  predicate DupAt(df: seq<Row>, u: Cell, school: Cell, j: int) {
    0 <= j < |df| && Same(df[j].code, school) && Ano(df[j]) && !Same(df[j].uk, u) && |Filter(df, OfStudent(df[j].uk))| > 1
  }

  /** `any_has_duplicate`. */
  predicate AnyDup(df: seq<Row>, u: Cell, school: Cell) {
    exists j :: 0 <= j < |df| && DupAt(df, u, school, j)
  }

  /** Row i is a refused row of conflicted student u at a school whose accepted competitors hold one row each. */
  predicate DanglingOf(df: seq<Row>, u: Cell, i: int) {
    0 <= i < |df| && Same(df[i].uk, u) && Ne(df[i]) && Conflicted(df, u) && !AnyDup(df, u, df[i].code)
  }

  /** Row i is such a row of a student outside every cycle. */
  predicate DanglingAt(df: seq<Row>, processed: set<Cell>, i: int) {
    0 <= i < |df| && df[i].uk !in processed && DanglingOf(df, df[i].uk, i)
  }

  function Dangling(df: seq<Row>, processed: set<Cell>): set<int> {
    set i | 0 <= i < |df| && DanglingAt(df, processed, i)
  }

  /** `rows_to_delete` once the cycle loop has not raised: its marks and the dangling refused rows. */
  function Marked(df: seq<Row>, caps: seq<CapRow>, allMapped: bool, prioMapped: bool, cycles: seq<seq<Cell>>): set<int>
    requires CycleDeletions(df, caps, allMapped, prioMapped, cycles).Success?
  {
    CycleDeletions(df, caps, allMapped, prioMapped, cycles).value + Dangling(df, Processed(cycles))
  }

  /** The table once the column checks pass, for the cycles the search reports. */
  function Resolution(rows: seq<Row>, caps: seq<CapRow>, allMapped: bool, prioMapped: bool, cycles: seq<seq<Cell>>)
    : Result<seq<Row>, PyError>
  {
    var df := Prepared(rows, prioMapped);
    if CycleDeletions(df, caps, allMapped, prioMapped, cycles).Failure? then Failure(CycleDeletions(df, caps, allMapped, prioMapped, cycles).error)
    else Success(CR.KeepRows(df, Marked(df, caps, allMapped, prioMapped, cycles)))
  }

  /**
   * The checks that raise: an unmapped student, flag, institute or rank
   * column, then an unmapped capacity ID column (`set_index(None)`).
   */
  function ColumnCheck(capCols: Mapper, appCols: Mapper): (e: Option<PyError>)
    ensures e.None? <==> AllMapped(appCols, Step6Keys) && Mapped(capCols, "ID code")
  {
    if RequireColumns(appCols, Step6Keys).Some? then Some(MissingColumns(Step6Keys))
    else if !Mapped(capCols, "ID code") then Some(MissingColumns(["ID code"]))
    else None
  }

  /** `resolve_duplicate_cycles`, specified for the cycles the search reports. */
  function Resolve(rows: seq<Row>, caps: seq<CapRow>, capCols: Mapper, appCols: Mapper, cycles: seq<seq<Cell>>)
    : Result<seq<Row>, PyError>
  {
    match ColumnCheck(capCols, appCols)
    case Some(e) => Failure(e)
    case None => Resolution(rows, caps, Mapped(capCols, "ALL"), Mapped(appCols, "PRIORITA"), cycles)
  }

  /** `resolve_duplicate_cycles` as a function of its inputs alone: the cycles are the ones `find_cycles` returns. */
  function ResolveDuplicates(rows: seq<Row>, caps: seq<CapRow>, capCols: Mapper, appCols: Mapper): Result<seq<Row>, PyError> {
    Resolve(rows, caps, capCols, appCols, FoundConflictCycles(Prepared(rows, Mapped(appCols, "PRIORITA"))))
  }

  // ------------------------------------------------ marking, as the code does it

  /** The marking pass of one cycle over `df`. */
  method MarkVictims(df: seq<Row>, cycle: seq<Cell>, admitted: bool, del: set<int>) returns (out: set<int>)
    ensures out == del + Victims(df, cycle, admitted)
  {
    out := del;
    for i := 0 to |df|
      invariant forall j :: j in out <==> j in del || (0 <= j < i && Victim(df[j], cycle, admitted))
    {
      if Member(cycle, df[i].uk) && (if admitted then Ano(df[i]) else Ne(df[i])) {
        out := out + {i};
      }
    }
  }

  /** The loop over the cycles: test each, mark its victims. */
  method MarkCycles(df: seq<Row>, caps: seq<CapRow>, allMapped: bool, prioMapped: bool, cycles: seq<seq<Cell>>)
    returns (r: Result<set<int>, PyError>)
    ensures r == CycleDeletions(df, caps, allMapped, prioMapped, cycles)
  {
    var del: set<int> := {};
    for k := 0 to |cycles|
      invariant CycleDeletions(df, caps, allMapped, prioMapped, cycles[..k]) == Success(del)
    {
      assert cycles[..k + 1][..k] == cycles[..k];
      var ok := WouldAllGetNominatedLoop(df, caps, allMapped, prioMapped, cycles[k]);
      if ok.Failure? {
        CycleDeletionsFailed(df, caps, allMapped, prioMapped, cycles, k + 1);
        return Failure(ok.error);
      }
      del := MarkVictims(df, cycles[k], ok.value, del);
    }
    assert cycles[..|cycles|] == cycles;
    return Success(del);
  }

  /** The loop over `school_anos` that breaks at the first competitor holding several rows. */
  method FindDup(df: seq<Row>, u: Cell, school: Cell) returns (dup: bool)
    ensures dup == AnyDup(df, u, school)
  {
    var j := 0;
    while j < |df|
      invariant 0 <= j <= |df|
      invariant forall j' :: 0 <= j' < j ==> !DupAt(df, u, school, j')
    {
      if Same(df[j].code, school) && Ano(df[j]) && !Same(df[j].uk, u) && |Filter(df, OfStudent(df[j].uk))| > 1 {
        assert DupAt(df, u, school, j);
        return true;
      }
      j := j + 1;
    }
    return false;
  }

  /** One student of the non-cycle pass: nothing unless the student is conflicted, then each refused row in turn. */
  method PruneStudent(df: seq<Row>, u: Cell, del: set<int>) returns (out: set<int>)
    ensures forall i :: i in out <==> i in del || DanglingOf(df, u, i)
  {
    out := del;
    var hasAno := exists i :: 0 <= i < |df| && Same(df[i].uk, u) && Ano(df[i]);
    var hasNe := exists i :: 0 <= i < |df| && Same(df[i].uk, u) && Ne(df[i]);
    if !hasAno || !hasNe {
      return;
    }
    for i := 0 to |df|
      invariant forall k :: k in out <==> k in del || (k < i && DanglingOf(df, u, k))
    {
      if Same(df[i].uk, u) && Ne(df[i]) {
        var dup := FindDup(df, u, df[i].code);
        if !dup {
          out := out + {i};
        }
      }
    }
  }

  /** The loop over `df[uk_col].unique()` skipping processed students. */
  method PruneDangling(df: seq<Row>, processed: set<Cell>, del: set<int>) returns (out: set<int>)
    ensures out == del + Dangling(df, processed)
  {
    var students := Keys(df, UkLabel);
    out := del;
    for k := 0 to |students|
      invariant forall i :: i in out <==> i in del || (DanglingAt(df, processed, i) && df[i].uk in students[..k])
    {
      var uk := students[k];
      assert students[..k + 1] == students[..k] + [uk];
      if uk !in processed {
        out := PruneStudent(df, uk, out);
      }
    }
    assert students[..|students|] == students;
    KeysCover(df, UkLabel);
  }

  /**
   * `resolve_duplicate_cycles`: the column checks, the prepared frame, the
   * cycles, the cycle loop, the non-cycle pass, the final drop.
   */
  method ResolveDuplicateCycles(rows: seq<Row>, caps: seq<CapRow>, capCols: Mapper, appCols: Mapper)
    returns (out: Result<seq<Row>, PyError>, cycles: seq<seq<Cell>>)
    ensures out == ResolveDuplicates(rows, caps, capCols, appCols)
    ensures ColumnCheck(capCols, appCols).None? ==> cycles == FoundConflictCycles(Prepared(rows, Mapped(appCols, "PRIORITA")))
    ensures out == Resolve(rows, caps, capCols, appCols, cycles)
    ensures forall c :: c in cycles ==> IsConflictCycle(Prepared(rows, Mapped(appCols, "PRIORITA")), c)
  {
    var check := ColumnCheck(capCols, appCols);
    if check.Some? {
      return Failure(check.value), [];
    }
    var allMapped := Mapped(capCols, "ALL");
    var prioMapped := Mapped(appCols, "PRIORITA");
    var df := Prepared(rows, prioMapped);
    cycles := FindConflictCycles(df);
    var marked := MarkCycles(df, caps, allMapped, prioMapped, cycles);
    if marked.Failure? {
      return Failure(marked.error), cycles;
    }
    var processed := ProcessedStudents(cycles);
    var del := PruneDangling(df, processed, marked.value);
    var kept := CR.KeepRowsLoop(df, del);
    return Success(kept), cycles;
  }

  // ------------------------------------------------ properties

  /**
   * The test passes exactly when every student passes, and raises only
   * with the error of a student whose own check raised.
   */
  lemma {:induction false} AllPassedIff<K, E>(us: seq<K>, check: K -> Result<bool, E>)
    ensures AllPassed(us, check) == Success(true) <==> forall k :: 0 <= k < |us| ==> check(us[k]) == Success(true)
    ensures AllPassed(us, check).Failure? ==> exists k :: 0 <= k < |us| && check(us[k]) == Failure(AllPassed(us, check).error)
    decreases |us|
  {
    if us != [] {
      AllPassedIff(us[1..], check);
      assert forall k :: 1 <= k < |us| ==> us[k] == us[1..][k - 1];
      if AllPassed(us, check).Failure? && check(us[0]).Success? {
        var k :| 0 <= k < |us[1..]| && check(us[1..][k]) == Failure(AllPassed(us, check).error);
        assert us[k + 1] == us[1..][k];
      }
    }
  }

  /** Items none of which raises never raise together. */
  lemma {:induction false} AllPassedSucceeds<K, E>(us: seq<K>, check: K -> Result<bool, E>)
    requires forall x :: x in us ==> check(x).Success?
    ensures AllPassed(us, check).Success?
    decreases |us|
  {
    if us != [] {
      assert us[0] in us;
      AllPassedSucceeds(us[1..], check);
    }
  }

  /** Tested in any order, the same items give the same verdict as long as none of them raises. */
  lemma AllPassedOrderFree<K, E>(us: seq<K>, vs: seq<K>, check: K -> Result<bool, E>)
    requires forall x :: x in us <==> x in vs
    requires forall x :: x in us ==> check(x).Success?
    ensures AllPassed(us, check) == AllPassed(vs, check)
  {
    AllPassedSucceeds(us, check);
    AllPassedSucceeds(vs, check);
    AllPassedIff(us, check);
    AllPassedIff(vs, check);
    assert (forall k :: 0 <= k < |us| ==> check(us[k]) == Success(true))
       <==> (forall k :: 0 <= k < |vs| ==> check(vs[k]) == Success(true)) by {
      if forall k :: 0 <= k < |us| ==> check(us[k]) == Success(true) {
        forall k | 0 <= k < |vs| ensures check(vs[k]) == Success(true) {
          assert vs[k] in us;
          var j :| 0 <= j < |us| && us[j] == vs[k];
        }
      }
      if forall k :: 0 <= k < |vs| ==> check(vs[k]) == Success(true) {
        forall k | 0 <= k < |us| ensures check(us[k]) == Success(true) {
          assert us[k] in vs;
          var j :| 0 <= j < |vs| && vs[j] == us[k];
        }
      }
    }
    var r, q := AllPassed(us, check), AllPassed(vs, check);
    assert r.Success? && q.Success?;
    assert r == Success(true) <==> q == Success(true);
    assert r.value == q.value;
  }

  /**
   * `would_all_get_nominated` iterates `set(cycle)`, in an order Python does
   * not fix. Whatever that order, the verdict is the one the cycle order
   * gives when no member's capacity lookup raises.
   */
  lemma AnyOrderSameVerdict(df: seq<Row>, caps: seq<CapRow>, allMapped: bool, prioMapped: bool, cycle: seq<Cell>, order: seq<Cell>)
    requires forall u :: u in order <==> u in cycle
    requires forall u :: u in cycle ==> Admission(Hypothetical(df, cycle), caps, allMapped, prioMapped, u).Success?
    ensures AllPassed(order, Check(Hypothetical(df, cycle), caps, allMapped, prioMapped))
         == WouldAllGetNominated(df, caps, allMapped, prioMapped, cycle)
  {
    AllPassedOrderFree(cycle, order, Check(Hypothetical(df, cycle), caps, allMapped, prioMapped));
  }

  /** When one member is refused and another's lookup raises, the order decides between False and the error. */
  lemma OrderDecidesRaise<K, E>(a: K, b: K, check: K -> Result<bool, E>)
    requires check(a) == Success(false) && check(b).Failure?
    ensures AllPassed([a, b], check) == Success(false)
    ensures AllPassed([b, a], check) == Failure(check(b).error)
  {
  }

  /**
   * With the priority column mapped, the best row has the lowest numeric
   * priority of the student's rows (a NaN priority only when all are NaN);
   * without it the best row is the first one.
   */
  lemma BestRowLowest(rows: seq<Row>, prioMapped: bool)
    requires rows != []
    ensures !prioMapped ==> BestRow(rows, prioMapped) == rows[0]
    ensures prioMapped ==> forall j :: 0 <= j < |rows| && PrioNum(rows[j]).Some? ==>
      PrioNum(BestRow(rows, prioMapped)).Some? && PrioNum(BestRow(rows, prioMapped)).value <= PrioNum(rows[j]).value
  {
    if prioMapped {
      var sorted := SortNaNLast(rows, PrioNum);
      forall j | 0 <= j < |rows| && PrioNum(rows[j]).Some?
        ensures PrioNum(sorted[0]).Some? && PrioNum(sorted[0]).value <= PrioNum(rows[j]).value
      {
        assert rows[j] in multiset(sorted);
        var m :| 0 <= m < |sorted| && sorted[m] == rows[j];
        if m > 0 {
          assert NaNLastSorted(sorted, PrioNum);
        }
      }
    }
  }

  /** Every member of a conflict cycle is a conflicted student. */
  lemma CycleMembersConflicted(df: seq<Row>, c: seq<Cell>, u: Cell)
    requires IsConflictCycle(df, c) && u in c
    ensures Conflicted(df, u)
  {
    var t :| 0 <= t < |c| && c[t] == u;
    var s := if t == 0 then |c| - 1 else t - 1;
    assert Edge(df, BothSet(df), c[s], c[t]);
  }

  /**
   * Without a mapped ALL column every capacity is 0, so no member of a
   * cycle can pass: the cycle keeps its accepted rows and loses its
   * refused ones.
   */
  lemma NoAllColumnKeepsAccepted(df: seq<Row>, caps: seq<CapRow>, prioMapped: bool, cycle: seq<Cell>)
    requires IsConflictCycle(df, cycle)
    ensures WouldAllGetNominated(df, caps, false, prioMapped, cycle) == Success(false)
  {
    var u := cycle[0];
    CycleMembersConflicted(df, cycle, u);
    var i :| 0 <= i < |df| && Same(df[i].uk, u) && Ne(df[i]);
    var t := Hypothetical(df, cycle);
    assert NotAcceptedIn(cycle)(df[i]);
    FilterHas(df, NotAcceptedIn(cycle), df[i]);
    var rows := Filter(t, OfStudent(u));
    FilterHas(t, OfStudent(u), df[i]);
    assert rows != [];
  }


  /** The cycle loop raises only when the ALL column is mapped. */
  lemma {:induction false} CycleDeletionsNoAll(df: seq<Row>, caps: seq<CapRow>, prioMapped: bool, cycles: seq<seq<Cell>>)
    ensures CycleDeletions(df, caps, false, prioMapped, cycles).Success?
    decreases |cycles|
  {
    if cycles != [] {
      CycleDeletionsNoAll(df, caps, prioMapped, cycles[..|cycles| - 1]);
      AllPassedIff(cycles[|cycles| - 1], Check(Hypothetical(df, cycles[|cycles| - 1]), caps, false, prioMapped));
    }
  }

  /**
   * The function raises exactly when a required column is unmapped or a
   * cycle's test raised; with the columns mapped and no ALL column it
   * never raises.
   */
  lemma ResolveRaises(rows: seq<Row>, caps: seq<CapRow>, capCols: Mapper, appCols: Mapper, cycles: seq<seq<Cell>>)
    ensures Resolve(rows, caps, capCols, appCols, cycles).Failure? <==>
      !AllMapped(appCols, Step6Keys) || !Mapped(capCols, "ID code")
      || CycleDeletions(Prepared(rows, Mapped(appCols, "PRIORITA")), caps, Mapped(capCols, "ALL"), Mapped(appCols, "PRIORITA"), cycles).Failure?
    ensures AllMapped(appCols, Step6Keys) && Mapped(capCols, "ID code") && !Mapped(capCols, "ALL") ==>
      Resolve(rows, caps, capCols, appCols, cycles).Success?
  {
    CycleDeletionsNoAll(Prepared(rows, Mapped(appCols, "PRIORITA")), caps, Mapped(appCols, "PRIORITA"), cycles);
  }

  /** The rows a cycle deletes are among the deletions of the whole loop, whenever the loop does not raise. */
  lemma {:induction false} VictimsDeleted(df: seq<Row>, caps: seq<CapRow>, allMapped: bool, prioMapped: bool, cycles: seq<seq<Cell>>, k: int)
    requires 0 <= k < |cycles|
    requires CycleDeletions(df, caps, allMapped, prioMapped, cycles).Success?
    ensures WouldAllGetNominated(df, caps, allMapped, prioMapped, cycles[k]).Success?
    ensures Victims(df, cycles[k], WouldAllGetNominated(df, caps, allMapped, prioMapped, cycles[k]).value)
         <= CycleDeletions(df, caps, allMapped, prioMapped, cycles).value
    decreases |cycles|
  {
    var init := cycles[..|cycles| - 1];
    if k < |cycles| - 1 {
      VictimsDeleted(df, caps, allMapped, prioMapped, init, k);
      assert init[k] == cycles[k];
    }
  }

  /** A deletion of the cycle loop is a victim of some cycle's outcome. */
  lemma {:induction false} CycleDeletionOrigin(df: seq<Row>, caps: seq<CapRow>, allMapped: bool, prioMapped: bool, cycles: seq<seq<Cell>>, i: int)
    requires CycleDeletions(df, caps, allMapped, prioMapped, cycles).Success?
    requires i in CycleDeletions(df, caps, allMapped, prioMapped, cycles).value
    ensures exists k :: 0 <= k < |cycles| && WouldAllGetNominated(df, caps, allMapped, prioMapped, cycles[k]).Success?
                        && i in Victims(df, cycles[k], WouldAllGetNominated(df, caps, allMapped, prioMapped, cycles[k]).value)
    decreases |cycles|
  {
    var n := |cycles| - 1;
    var ok := WouldAllGetNominated(df, caps, allMapped, prioMapped, cycles[n]);
    if !(ok.Success? && i in Victims(df, cycles[n], ok.value)) {
      CycleDeletionOrigin(df, caps, allMapped, prioMapped, cycles[..n], i);
      var k :| 0 <= k < n && WouldAllGetNominated(df, caps, allMapped, prioMapped, cycles[..n][k]).Success?
               && i in Victims(df, cycles[..n][k], WouldAllGetNominated(df, caps, allMapped, prioMapped, cycles[..n][k]).value);
      assert cycles[..n][k] == cycles[k];
    }
  }

  /**
   * Each cycle is resolved one way: when its members would all still be
   * admitted, every accepted row of theirs is deleted, otherwise every
   * refused row.
   */
  lemma CycleResolved(df: seq<Row>, caps: seq<CapRow>, allMapped: bool, prioMapped: bool, cycles: seq<seq<Cell>>, k: int, i: int)
    requires 0 <= k < |cycles| && 0 <= i < |df| && Member(cycles[k], df[i].uk)
    requires CycleDeletions(df, caps, allMapped, prioMapped, cycles).Success?
    ensures WouldAllGetNominated(df, caps, allMapped, prioMapped, cycles[k]) == Success(true) && Ano(df[i]) ==>
      i in CycleDeletions(df, caps, allMapped, prioMapped, cycles).value
    ensures WouldAllGetNominated(df, caps, allMapped, prioMapped, cycles[k]) == Success(false) && Ne(df[i]) ==>
      i in CycleDeletions(df, caps, allMapped, prioMapped, cycles).value
  {
    VictimsDeleted(df, caps, allMapped, prioMapped, cycles, k);
  }

  /**
   * Three conflicted students blocking each other in a ring are reported
   * as one cycle and resolved together: all their accepted rows are marked
   * when they would all still be admitted, all their refused rows otherwise.
   */
  lemma RingResolvedTogether(df: seq<Row>, caps: seq<CapRow>, allMapped: bool, prioMapped: bool, a: Cell, b: Cell, c: Cell)
    requires a != b && b != c && a != c
    requires BothSet(df) == {a, b, c}
    requires forall x :: Edge(df, {a, b, c}, a, x) <==> x == b
    requires forall x :: Edge(df, {a, b, c}, b, x) <==> x == c
    requires forall x :: Edge(df, {a, b, c}, c, x) <==> x == a
    ensures var cycles := FoundConflictCycles(df);
            var marks := CycleDeletions(df, caps, allMapped, prioMapped, cycles);
            |cycles| == 1 && (forall u :: u in cycles[0] <==> u in {a, b, c})
            && (marks.Success? && WouldAllGetNominated(df, caps, allMapped, prioMapped, cycles[0]) == Success(true) ==>
                  forall i :: 0 <= i < |df| && df[i].uk in {a, b, c} && Ano(df[i]) ==> i in marks.value)
            && (marks.Success? && WouldAllGetNominated(df, caps, allMapped, prioMapped, cycles[0]) == Success(false) ==>
                  forall i :: 0 <= i < |df| && df[i].uk in {a, b, c} && Ne(df[i]) ==> i in marks.value)
  {
    RingFound(df, a, b, c);
    var cycles := FoundConflictCycles(df);
    if CycleDeletions(df, caps, allMapped, prioMapped, cycles).Success? {
      forall i | 0 <= i < |df| && df[i].uk in {a, b, c}
        ensures WouldAllGetNominated(df, caps, allMapped, prioMapped, cycles[0]) == Success(true) && Ano(df[i]) ==>
                  i in CycleDeletions(df, caps, allMapped, prioMapped, cycles).value
        ensures WouldAllGetNominated(df, caps, allMapped, prioMapped, cycles[0]) == Success(false) && Ne(df[i]) ==>
                  i in CycleDeletions(df, caps, allMapped, prioMapped, cycles).value
      {
        assert Member(cycles[0], df[i].uk);
        CycleResolved(df, caps, allMapped, prioMapped, cycles, 0, i);
      }
    }
  }

  /** Only rows of students holding both an accepted and a refused row are deleted; NaN students never lose a row. */
  lemma DeletedAreConflicted(df: seq<Row>, caps: seq<CapRow>, allMapped: bool, prioMapped: bool, cycles: seq<seq<Cell>>, i: int)
    requires forall c :: c in cycles ==> IsConflictCycle(df, c)
    requires CycleDeletions(df, caps, allMapped, prioMapped, cycles).Success?
    requires i in Marked(df, caps, allMapped, prioMapped, cycles)
    ensures 0 <= i < |df| && Conflicted(df, df[i].uk)
  {
    if i in CycleDeletions(df, caps, allMapped, prioMapped, cycles).value {
      CycleDeletionOrigin(df, caps, allMapped, prioMapped, cycles, i);
      var k :| 0 <= k < |cycles| && WouldAllGetNominated(df, caps, allMapped, prioMapped, cycles[k]).Success?
               && i in Victims(df, cycles[k], WouldAllGetNominated(df, caps, allMapped, prioMapped, cycles[k]).value);
      CycleMembersConflicted(df, cycles[k], df[i].uk);
    }
  }

  /** A student without both kinds of row keeps all of their rows, in order. */
  lemma UnconflictedKept(rows: seq<Row>, caps: seq<CapRow>, allMapped: bool, prioMapped: bool, cycles: seq<seq<Cell>>, u: Cell)
    requires forall c :: c in cycles ==> IsConflictCycle(Prepared(rows, prioMapped), c)
    requires Resolution(rows, caps, allMapped, prioMapped, cycles).Success?
    requires !Conflicted(Prepared(rows, prioMapped), u)
    ensures Select(Resolution(rows, caps, allMapped, prioMapped, cycles).value, UkLabel, u) == Select(Prepared(rows, prioMapped), UkLabel, u)
  {
    var df := Prepared(rows, prioMapped);
    var del := Marked(df, caps, allMapped, prioMapped, cycles);
    forall i | 0 <= i < |df| && i in del ensures UkLabel(df[i]) != u {
      DeletedAreConflicted(df, caps, allMapped, prioMapped, cycles, i);
    }
    CR.KeepRowsSelect(df, del, UkLabel, u);
  }

  /** Without conflicted students the conflict graph has no cycle. */
  lemma NoConflictNoCycle(df: seq<Row>, cycles: seq<seq<Cell>>)
    requires forall c :: c in cycles ==> IsConflictCycle(df, c)
    requires forall u :: !Conflicted(df, u)
    ensures cycles == []
  {
    if cycles != [] {
      assert cycles[0] in cycles;
      CycleMembersConflicted(df, cycles[0], cycles[0][0]);
      assert false;
    }
  }

  /** Without conflicted students nothing is marked for deletion. */
  lemma NothingMarked(df: seq<Row>, caps: seq<CapRow>, allMapped: bool, prioMapped: bool, cycles: seq<seq<Cell>>)
    requires forall c :: c in cycles ==> IsConflictCycle(df, c)
    requires forall u :: !Conflicted(df, u)
    ensures CycleDeletions(df, caps, allMapped, prioMapped, cycles) == Success({})
    ensures Marked(df, caps, allMapped, prioMapped, cycles) == {}
  {
    NoConflictNoCycle(df, cycles);
    assert Dangling(df, Processed(cycles)) == {} by {
      forall i | 0 <= i < |df| ensures !DanglingAt(df, Processed(cycles), i) {
        assert !Conflicted(df, df[i].uk);
      }
    }
  }

  /** When no student holds both kinds of row, the prepared frame comes back whole. */
  lemma NoConflictNoChange(rows: seq<Row>, caps: seq<CapRow>, allMapped: bool, prioMapped: bool, cycles: seq<seq<Cell>>)
    requires forall c :: c in cycles ==> IsConflictCycle(Prepared(rows, prioMapped), c)
    requires forall u :: !Conflicted(Prepared(rows, prioMapped), u)
    ensures Resolution(rows, caps, allMapped, prioMapped, cycles) == Success(Prepared(rows, prioMapped))
  {
    var df := Prepared(rows, prioMapped);
    NothingMarked(df, caps, allMapped, prioMapped, cycles);
    CR.KeepRowsUnchanged(df, {});
  }

  /** With the columns mapped and no student holding both kinds of row, step 6 returns the prepared frame whole. */
  lemma NoConflictUnchanged(rows: seq<Row>, caps: seq<CapRow>, capCols: Mapper, appCols: Mapper)
    requires ColumnCheck(capCols, appCols).None?
    requires forall u :: !Conflicted(Prepared(rows, Mapped(appCols, "PRIORITA")), u)
    ensures ResolveDuplicates(rows, caps, capCols, appCols) == Success(Prepared(rows, Mapped(appCols, "PRIORITA")))
  {
    var prioMapped := Mapped(appCols, "PRIORITA");
    FoundConflictCyclesComplete(Prepared(rows, prioMapped));
    NoConflictNoChange(rows, caps, Mapped(capCols, "ALL"), prioMapped, FoundConflictCycles(Prepared(rows, prioMapped)));
  }

  /** The output is a sub-multiset of the prepared frame, and shorter exactly when a row is deleted. */
  lemma ResolutionShrinks(rows: seq<Row>, caps: seq<CapRow>, allMapped: bool, prioMapped: bool, cycles: seq<seq<Cell>>)
    requires Resolution(rows, caps, allMapped, prioMapped, cycles).Success?
    ensures multiset(Resolution(rows, caps, allMapped, prioMapped, cycles).value) <= multiset(Prepared(rows, prioMapped))
    ensures |Resolution(rows, caps, allMapped, prioMapped, cycles).value| <= |rows|
    ensures |Resolution(rows, caps, allMapped, prioMapped, cycles).value| == |rows| <==>
      forall i :: 0 <= i < |rows| ==> i !in Marked(Prepared(rows, prioMapped), caps, allMapped, prioMapped, cycles)
  {
    var df := Prepared(rows, prioMapped);
    var del := Marked(df, caps, allMapped, prioMapped, cycles);
    assert Resolution(rows, caps, allMapped, prioMapped, cycles) == Success(CR.KeepRows(df, del));
    CR.KeepRowsSub(df, del);
    CR.KeepRowsUnchanged(df, del);
  }
}
