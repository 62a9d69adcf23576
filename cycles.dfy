/**
 * Step 6 of web-app/src/logic/allSteps.ts, the conflict graph: students
 * holding both an accepted ("ANO") and a refused ("NE") row, the edges
 * "u is refused at an institute where conflicted student x is accepted",
 * and the depth-first search that reports cycles of that graph.
 */
module ConflictGraph {
  import opened Wrappers
  import opened Cells
  import opened Rows
  import opened Grouping
  import opened GraphSearch

  /**
   * What step 6 reads of one normalised row, with its position in the
   * table (the row object's identity: `df.indexOf(ne)` finds it there).
   */
  datatype Entry = Entry(pos: int, uk: string, code: string, flag: string, prio: int, rank: int)

  function EntryUk(e: Entry): string { e.uk }

  function EntryPrio(e: Entry): int { e.prio }

  predicate Ano(e: Entry) { e.flag == "ANO" }

  predicate Ne(e: Entry) { e.flag == "NE" }

  /**
   * The normalisation pass: the flag becomes `str(flag).toUpperCase()`, the
   * rank and the priority become `num` of themselves.
   */
  function Normalize(r: Row): (n: Row)
    ensures Uk(n) == Uk(r) && Code(n) == Code(r)
    ensures Unnormalized(n) == Unnormalized(r)
  {
    r.(flag := Text(FlagText(r)), rank := Number(RankOf(r)), priority := Number(Prio(r)))
  }

  /** The row without the three cells the normalisation rewrites. */
  function Unnormalized(r: Row): Row {
    r.(flag := Missing, rank := Missing, priority := Missing)
  }

  /** Row i of the normalised table as step 6 reads it: the flag is compared as stored, rank and priority are numbers. */
  function Entries(rows: seq<Row>): (v: seq<Entry>)
    ensures |v| == |rows|
    ensures forall i :: 0 <= i < |v| ==> v[i].pos == i && v[i].uk == Uk(rows[i]) && v[i].code == Code(rows[i])
  {
    seq(|rows|, i requires 0 <= i < |rows| => Entry(i, Uk(rows[i]), Code(rows[i]), FlagText(rows[i]), Prio(rows[i]), RankOf(rows[i])))
  }

  /** Each entry sits at its own position. */
  predicate Positioned(v: seq<Entry>) {
    forall i :: 0 <= i < |v| ==> v[i].pos == i
  }

  predicate HasAno(v: seq<Entry>, u: string) {
    exists i :: 0 <= i < |v| && v[i].uk == u && Ano(v[i])
  }

  predicate HasNe(v: seq<Entry>, u: string) {
    exists i :: 0 <= i < |v| && v[i].uk == u && Ne(v[i])
  }

  /** A student holding both an accepted and a refused row. */
  predicate Conflicted(v: seq<Entry>, u: string) {
    HasAno(v, u) && HasNe(v, u)
  }

  /** `studentsWithBoth`. */
  function BothSet(v: seq<Entry>): (s: set<string>)
    ensures forall u :: u in s <==> Conflicted(v, u)
  {
    var s := set i | 0 <= i < |v| && Conflicted(v, v[i].uk) :: v[i].uk;
    assert forall u :: Conflicted(v, u) ==> u in s by {
      forall u | Conflicted(v, u) ensures u in s {
        var i :| 0 <= i < |v| && v[i].uk == u && Ano(v[i]);
      }
    }
    s
  }

  /** Row j is an accepted row of another conflicted student at institute `school`. */
  predicate Blocker(v: seq<Entry>, both: set<string>, u: string, school: string, j: int) {
    0 <= j < |v| && v[j].code == school && Ano(v[j]) && v[j].uk != u && v[j].uk in both
  }

  /** The edge u -> x: u is refused somewhere that conflicted student x is accepted. */
  predicate Edge(v: seq<Entry>, both: set<string>, u: string, x: string) {
    exists i, j :: 0 <= i < |v| && 0 <= j < |v| && v[i].uk == u && Ne(v[i]) && Blocker(v, both, u, v[i].code, j) && v[j].uk == x
  }

  /** A cycle of the conflict graph: at least two distinct students, each with an edge to the next, the last to the first. */
  predicate IsConflictCycle(v: seq<Entry>, c: seq<string>) {
    |c| >= 2 && Distinct(c)
    && (forall i :: 0 <= i < |c| - 1 ==> Edge(v, BothSet(v), c[i], c[i + 1]))
    && Edge(v, BothSet(v), c[|c| - 1], c[0])
  }

  /** Students in byUk's enumeration order (`Object.entries`). */
  function StudentOrder(v: seq<Entry>): seq<string> {
    EnumOrder(Keys(v, EntryUk))
  }

  /** The conflicted students among `order`, in that order. */
  function ConflictedAmong(v: seq<Entry>, order: seq<string>): seq<string> {
    Filter(order, u => Conflicted(v, u))
  }

  /** `studentsWithBoth` in its insertion order, the order `findCycles` tries them in. */
  function ConflictOrder(v: seq<Entry>): seq<string> {
    ConflictedAmong(v, StudentOrder(v))
  }

  /** The students `findCycles` tries are exactly the conflicted ones, each once. */
  lemma ConflictOrderHas(v: seq<Entry>)
    ensures Distinct(StudentOrder(v))
    ensures forall u :: u in StudentOrder(v) <==> exists i :: 0 <= i < |v| && v[i].uk == u
    ensures forall u :: u in ConflictOrder(v) <==> u in BothSet(v)
  {
    EnumOrderDistinct(Keys(v, EntryUk));
    forall u ensures u in StudentOrder(v) <==> exists i :: 0 <= i < |v| && v[i].uk == u {
      KeysHas(v, EntryUk, u);
    }
    forall u ensures u in ConflictOrder(v) <==> u in BothSet(v) {
      FilterHas(StudentOrder(v), u => Conflicted(v, u), u);
      if Conflicted(v, u) {
        var i :| 0 <= i < |v| && v[i].uk == u && Ano(v[i]);
      }
    }
  }

  /**
   * `edges[uk]` after the scan of rows v[..j] for one refused row at
   * institute `school`, starting from `succ`: each new blocker is added
   * once, at the end.
   */
  function AddedBlockers(v: seq<Entry>, both: set<string>, u: string, school: string, succ: seq<string>, j: int): seq<string>
    requires 0 <= j <= |v|
  {
    if j == 0 then succ
    else
      var out := AddedBlockers(v, both, u, school, succ, j - 1);
      if Blocker(v, both, u, school, j - 1) && v[j - 1].uk !in out then out + [v[j - 1].uk] else out
  }

  /** `edges[uk]` after u's refused rows among v[..i] have been scanned. */
  function SuccessorsUpTo(v: seq<Entry>, both: set<string>, u: string, i: int): seq<string>
    requires 0 <= i <= |v|
  {
    if i == 0 then []
    else
      var succ := SuccessorsUpTo(v, both, u, i - 1);
      if v[i - 1].uk == u && Ne(v[i - 1]) then AddedBlockers(v, both, u, v[i - 1].code, succ, |v|) else succ
  }

  /** The edge lists step 6 builds: one per conflicted student. */
  function EdgeMap(v: seq<Entry>): map<string, seq<string>> {
    map u | u in BothSet(v) :: SuccessorsUpTo(v, BothSet(v), u, |v|)
  }

  /** The search's precondition on the graph step 6 builds; EdgeMapGraph and ConflictOrderHas show it always holds. */
  predicate Searchable(v: seq<Entry>) {
    GraphOver(EdgeMap(v), BothSet(v)) && forall u :: u in ConflictOrder(v) ==> u in BothSet(v)
  }

  /** The cycles `findCycles` reports for the table. */
  function FoundConflictCycles(v: seq<Entry>): seq<seq<string>> {
    if Searchable(v) then FoundCycles(ConflictOrder(v), EdgeMap(v), BothSet(v)) else []
  }

  lemma {:induction false} AddedBlockersHas(v: seq<Entry>, both: set<string>, u: string, school: string, succ: seq<string>, j: int)
    requires Distinct(succ) && 0 <= j <= |v|
    ensures Distinct(AddedBlockers(v, both, u, school, succ, j))
    ensures forall x :: x in AddedBlockers(v, both, u, school, succ, j) <==>
      x in succ || exists j' :: 0 <= j' < j && Blocker(v, both, u, school, j') && v[j'].uk == x
  {
    if j > 0 {
      AddedBlockersHas(v, both, u, school, succ, j - 1);
    }
  }

  lemma {:induction false} SuccessorsHas(v: seq<Entry>, both: set<string>, u: string, i: int)
    requires 0 <= i <= |v|
    ensures Distinct(SuccessorsUpTo(v, both, u, i))
    ensures forall x :: x in SuccessorsUpTo(v, both, u, i) <==>
      exists i', j :: 0 <= i' < i && v[i'].uk == u && Ne(v[i']) && Blocker(v, both, u, v[i'].code, j) && v[j].uk == x
  {
    if i > 0 {
      SuccessorsHas(v, both, u, i - 1);
      if v[i - 1].uk == u && Ne(v[i - 1]) {
        AddedBlockersHas(v, both, u, v[i - 1].code, SuccessorsUpTo(v, both, u, i - 1), |v|);
      }
    }
  }

  /** The edge lists are the conflict graph's edges, over the conflicted students. */
  lemma EdgeMapGraph(v: seq<Entry>)
    ensures GraphOver(EdgeMap(v), BothSet(v))
    ensures forall u :: u in EdgeMap(v) <==> u in BothSet(v)
    ensures forall u :: u in EdgeMap(v) ==> Distinct(EdgeMap(v)[u])
    ensures forall u, x :: u in EdgeMap(v) ==> (x in EdgeMap(v)[u] <==> Edge(v, BothSet(v), u, x))
  {
    forall u | u in BothSet(v)
      ensures Distinct(EdgeMap(v)[u])
      ensures forall x :: x in EdgeMap(v)[u] <==> Edge(v, BothSet(v), u, x)
    {
      SuccessorsHas(v, BothSet(v), u, |v|);
    }
  }

  /** The edge lists and the conflict graph have the same cycles. */
  lemma EdgeMapCycles(v: seq<Entry>, c: seq<string>)
    ensures IsCycleIn(EdgeMap(v), c) <==> IsConflictCycle(v, c)
  {
    if IsCycleIn(EdgeMap(v), c) {
      EdgeMapGraph(v);
      CycleOfEdges(v, EdgeMap(v), c);
    }
    if IsConflictCycle(v, c) {
      ConflictCycleOfEdges(v, c);
    }
  }

  /** A conflict cycle is a cycle of the edge lists. */
  lemma ConflictCycleOfEdges(v: seq<Entry>, c: seq<string>)
    requires IsConflictCycle(v, c)
    ensures IsCycleIn(EdgeMap(v), c)
  {
    EdgeMapGraph(v);
    forall i | 0 <= i < |c| ensures c[i] in BothSet(v) {
      var from := if i == 0 then |c| - 1 else i - 1;
      assert Edge(v, BothSet(v), c[from], c[i]);
    }
    forall i | 0 <= i < |c| - 1 ensures c[i + 1] in SuccOf(EdgeMap(v), c[i]) {
      assert Edge(v, BothSet(v), c[i], c[i + 1]);
    }
    assert c[0] in SuccOf(EdgeMap(v), c[|c| - 1]);
  }

  /** Every reported cycle is a cycle of the conflict graph. */
  lemma FoundConflictCyclesSound(v: seq<Entry>)
    ensures forall c :: c in FoundConflictCycles(v) ==> IsConflictCycle(v, c)
  {
    EdgeMapGraph(v);
    ConflictOrderHas(v);
    var edges, nodes := EdgeMap(v), BothSet(v);
    assert FoundConflictCycles(v) == FoundCycles(ConflictOrder(v), edges, nodes);
    CollectSound(ConflictOrder(v), edges, nodes, {});
    forall c | c in FoundConflictCycles(v) ensures IsConflictCycle(v, c) {
      EdgeMapCycles(v, c);
    }
  }

  /** Step 6 reports no cycle exactly when the conflict graph has none. */
  lemma FoundConflictCyclesComplete(v: seq<Entry>)
    ensures FoundConflictCycles(v) == [] <==> !exists c :: IsConflictCycle(v, c)
  {
    EdgeMapGraph(v);
    ConflictOrderHas(v);
    var edges, nodes := EdgeMap(v), BothSet(v);
    assert FoundConflictCycles(v) == FoundCycles(ConflictOrder(v), edges, nodes);
    FoundCyclesComplete(ConflictOrder(v), edges, nodes);
    if c :| IsConflictCycle(v, c) {
      EdgeMapCycles(v, c);
    }
    if c :| IsCycleIn(edges, c) {
      EdgeMapCycles(v, c);
    }
  }

  /** A student whose only edge goes to b has the edge list [b]. */
  lemma SingleEdge(v: seq<Entry>, u: string, b: string)
    requires u in BothSet(v)
    requires forall x :: Edge(v, BothSet(v), u, x) <==> x == b
    ensures EdgeMap(v)[u] == [b]
  {
    EdgeMapGraph(v);
    OnlyMember(EdgeMap(v)[u], b);
  }

  /** Three conflicted students, each with a single edge to the next, have the ring as their edge lists. */
  lemma RingEdges(v: seq<Entry>, a: string, b: string, c: string)
    requires a != b && b != c && a != c
    requires BothSet(v) == {a, b, c}
    requires forall x :: Edge(v, {a, b, c}, a, x) <==> x == b
    requires forall x :: Edge(v, {a, b, c}, b, x) <==> x == c
    requires forall x :: Edge(v, {a, b, c}, c, x) <==> x == a
    ensures EdgeMap(v) == Ring(a, b, c)
  {
    SingleEdge(v, a, b);
    SingleEdge(v, b, c);
    SingleEdge(v, c, a);
    var e, r := EdgeMap(v), Ring(a, b, c);
    assert e.Keys == r.Keys;
    forall u | u in e ensures e[u] == r[u] {
      assert u == a || u == b || u == c;
    }
  }

  /** On such a ring step 6 reports exactly one cycle, made of the three. */
  lemma RingFound(v: seq<Entry>, a: string, b: string, c: string)
    requires a != b && b != c && a != c
    requires BothSet(v) == {a, b, c}
    requires forall x :: Edge(v, {a, b, c}, a, x) <==> x == b
    requires forall x :: Edge(v, {a, b, c}, b, x) <==> x == c
    requires forall x :: Edge(v, {a, b, c}, c, x) <==> x == a
    ensures |FoundConflictCycles(v)| == 1
    ensures forall u :: u in FoundConflictCycles(v)[0] <==> u in {a, b, c}
  {
    RingEdges(v, a, b, c);
    ConflictOrderHas(v);
    var order := ConflictOrder(v);
    assert a in order;
    RingOfThree(a, b, c, order);
    assert FoundConflictCycles(v) == FoundCycles(order, Ring(a, b, c), {a, b, c});
    var cycle := FoundConflictCycles(v)[0];
    assert Members(cycle) == {a, b, c};
    forall u ensures u in cycle <==> u in {a, b, c} {
      assert u in Members(cycle) <==> u in cycle;
    }
  }

  // ---------------------------------------------------------- building it

  /** The loop over the rows of one refused row's institute: `edges[uk].add(...)` keeps first-insertion order. */
  method AddBlockers(v: seq<Entry>, both: set<string>, u: string, school: string, succ: seq<string>) returns (out: seq<string>)
    requires Distinct(succ)
    ensures out == AddedBlockers(v, both, u, school, succ, |v|)
    ensures Distinct(out)
    ensures forall x :: x in out <==> x in succ || exists j :: Blocker(v, both, u, school, j) && v[j].uk == x
  {
    out := succ;
    for j := 0 to |v|
      invariant out == AddedBlockers(v, both, u, school, succ, j)
    {
      if v[j].code == school && Ano(v[j]) && v[j].uk != u && v[j].uk in both {
        if v[j].uk !in out {
          out := out + [v[j].uk];
        }
      }
    }
    AddedBlockersHas(v, both, u, school, succ, |v|);
  }

  /** `edges[uk]`: the blockers met through each of u's refused rows, in table order. */
  method Successors(v: seq<Entry>, both: set<string>, u: string) returns (succ: seq<string>)
    ensures succ == SuccessorsUpTo(v, both, u, |v|)
    ensures Distinct(succ)
    ensures forall x :: x in succ <==> Edge(v, both, u, x)
  {
    succ := [];
    for i := 0 to |v|
      invariant succ == SuccessorsUpTo(v, both, u, i)
    {
      if v[i].uk == u && Ne(v[i]) {
        SuccessorsHas(v, both, u, i);
        succ := AddBlockers(v, both, u, v[i].code, succ);
      }
    }
    SuccessorsHas(v, both, u, |v|);
  }


  /** The loop filling `edges`, one conflicted student at a time. */
  method BuildEdges(v: seq<Entry>, both: seq<string>, bothSet: set<string>) returns (edges: map<string, seq<string>>)
    requires bothSet == BothSet(v)
    requires forall u :: u in both <==> u in bothSet
    ensures edges == EdgeMap(v)
    ensures GraphOver(edges, bothSet)
    ensures forall u :: u in edges ==> Distinct(edges[u])
    ensures forall u :: u in edges <==> u in bothSet
    ensures forall u, x :: u in edges ==> (x in edges[u] <==> Edge(v, bothSet, u, x))
  {
    edges := map[];
    for k := 0 to |both|
      invariant forall u :: u in edges <==> u in both[..k]
      invariant forall u :: u in edges ==> edges[u] == SuccessorsUpTo(v, bothSet, u, |v|)
    {
      var succ := Successors(v, bothSet, both[k]);
      edges := edges[both[k] := succ];
    }
    assert both[..|both|] == both;
    EdgeMapGraph(v);
  }

  /** A cycle of the edge lists built by BuildEdges is a cycle of the conflict graph. */
  lemma CycleOfEdges(v: seq<Entry>, edges: map<string, seq<string>>, c: seq<string>)
    requires forall u :: u in edges <==> u in BothSet(v)
    requires forall u, x :: u in edges ==> (x in edges[u] <==> Edge(v, BothSet(v), u, x))
    requires IsCycleIn(edges, c)
    ensures IsConflictCycle(v, c)
  {
    forall i | 0 <= i < |c| - 1 ensures Edge(v, BothSet(v), c[i], c[i + 1]) {
      assert c[i + 1] in SuccOf(edges, c[i]);
    }
    assert c[0] in SuccOf(edges, c[|c| - 1]);
  }
}
