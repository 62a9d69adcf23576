/**
 * The depth-first cycle search of step 6, over any kind of student key:
 * a path of distinct students joined by edges, the set of students on it,
 * and the students visited, as `findCycles`/`dfs` keep them.
 */
module GraphSearch {
  import opened Wrappers
  import opened Grouping

  /** Every edge list names students of the graph other than its owner. */
  predicate GraphOver<K(==)>(edges: map<K, seq<K>>, nodes: set<K>) {
    forall u :: u in edges ==> u in nodes && forall x :: x in edges[u] ==> x in nodes && x != u
  }

  function SuccOf<K(==)>(edges: map<K, seq<K>>, u: K): seq<K> {
    if u in edges then edges[u] else []
  }

  /** Each student in the path has an edge to the next. */
  predicate Chain<K(==)>(edges: map<K, seq<K>>, p: seq<K>) {
    forall i :: 0 <= i < |p| - 1 ==> p[i + 1] in SuccOf(edges, p[i])
  }

  /** A cycle of the edge lists. */
  predicate IsCycleIn<K(==)>(edges: map<K, seq<K>>, c: seq<K>) {
    |c| >= 2 && Distinct(c) && Chain(edges, c) && c[0] in SuccOf(edges, c[|c| - 1])
  }

  /** The first position of x in s: `path.indexOf(cur)`. */
  function IndexOf<K(==)>(s: seq<K>, x: K): (k: int)
    requires x in s
    ensures 0 <= k < |s| && s[k] == x
    ensures forall j :: 0 <= j < k ==> s[j] != x
  {
    if s[0] == x then 0 else 1 + IndexOf(s[1..], x)
  }

  /**
   * The search's invariant: the path holds distinct students joined by
   * edges, `pathSet` is its set, and every student on it is visited.
   */
  ghost predicate SearchState<K>(edges: map<K, seq<K>>, nodes: set<K>, path: seq<K>, pathSet: set<K>, visited: set<K>) {
    GraphOver(edges, nodes)
    && pathSet == (set x | x in path)
    && Distinct(path)
    && Chain(edges, path)
    && pathSet <= visited <= nodes
  }

  /**
   * Meeting a student already on the path closes a cycle: the path from
   * that student on, with the edge from the path's end back to it.
   */
  lemma ClosingCycle<K>(edges: map<K, seq<K>>, nodes: set<K>, path: seq<K>, pathSet: set<K>, visited: set<K>, cur: K)
    requires SearchState(edges, nodes, path, pathSet, visited)
    requires cur in pathSet && cur in SuccOf(edges, path[|path| - 1])
    ensures cur in path
    ensures IsCycleIn(edges, path[IndexOf(path, cur)..])
    ensures forall u :: u in path[IndexOf(path, cur)..] ==> u in nodes
  {
    var k := IndexOf(path, cur);
    var c := path[k..];
    assert path[|path| - 1] != cur;
    assert Chain(edges, c) by {
      forall i | 0 <= i < |c| - 1 ensures c[i + 1] in SuccOf(edges, c[i]) {
        assert c[i] == path[k + i] && c[i + 1] == path[k + i + 1];
      }
    }
    forall u | u in c ensures u in nodes {
      assert u in path;
    }
  }

  /** Stepping onto an unvisited successor of the path's end keeps the invariant. */
  lemma Push<K>(edges: map<K, seq<K>>, nodes: set<K>, path: seq<K>, pathSet: set<K>, visited: set<K>, cur: K)
    requires SearchState(edges, nodes, path, pathSet, visited)
    requires cur in nodes && cur !in visited
    requires path == [] || cur in SuccOf(edges, path[|path| - 1])
    ensures SearchState(edges, nodes, path + [cur], pathSet + {cur}, visited + {cur})
  {
    var p := path + [cur];
    assert Chain(edges, p) by {
      forall i | 0 <= i < |p| - 1 ensures p[i + 1] in SuccOf(edges, p[i]) {
        if i < |path| - 1 {
          assert p[i] == path[i] && p[i + 1] == path[i + 1];
        }
      }
    }
  }

  /** Backing out of a student restores the path as it was, with more students visited. */
  lemma Pop<K>(edges: map<K, seq<K>>, nodes: set<K>, path: seq<K>, pathSet: set<K>, before: set<K>, visited: set<K>, cur: K)
    requires SearchState(edges, nodes, path, pathSet, before)
    requires SearchState(edges, nodes, path + [cur], pathSet + {cur}, visited)
    requires before <= visited
    ensures SearchState(edges, nodes, path, pathSet, visited)
  {
  }

  /** Marking an unvisited student visited shrinks what is left to visit. */
  lemma FewerUnvisited<K>(nodes: set<K>, before: set<K>, visited: set<K>, cur: K)
    requires cur in nodes && cur !in before && before + {cur} <= visited
    ensures |nodes - visited| < |nodes - before|
  {
    var rest := nodes - visited;
    var gone := (nodes - before) - rest;
    assert cur in gone;
    assert nodes - before == rest + gone;
    assert rest * gone == {};
  }

  function Members<K>(s: seq<K>): set<K> {
    set x | x in s
  }

  lemma MembersSnoc<K>(s: seq<K>, x: K)
    ensures Members(s + [x]) == Members(s) + {x}
  {
  }

  /** What one `dfs` call leaves behind: the students visited, and the cycle it returns, if any. */
  datatype Outcome<K> = Outcome(visited: set<K>, cycle: Option<seq<K>>)

  /**
   * `dfs(cur)` as a function of the path and the visited set it starts
   * from: a student on the path closes the cycle from its first position
   * on, a visited one is a dead end, otherwise the search goes through
   * the student's successors with the student pushed.
   */
  function Search<K(==)>(edges: map<K, seq<K>>, nodes: set<K>, path: seq<K>, visited: set<K>, cur: K): (r: Outcome<K>)
    requires GraphOver(edges, nodes) && cur in nodes && visited <= nodes
    ensures visited <= r.visited <= nodes
    decreases nodes - visited, 0, 0
  {
    if cur in path then Outcome(visited, Some(path[IndexOf(path, cur)..]))
    else if cur in visited then Outcome(visited, None)
    else Through(edges, nodes, path + [cur], visited + {cur}, SuccOf(edges, cur))
  }

  /** The loop over a student's successors: the first cycle found ends it. */
  function Through<K(==)>(edges: map<K, seq<K>>, nodes: set<K>, path: seq<K>, visited: set<K>, succ: seq<K>): (r: Outcome<K>)
    requires GraphOver(edges, nodes) && visited <= nodes
    requires forall x :: x in succ ==> x in nodes
    ensures visited <= r.visited <= nodes
    decreases nodes - visited, 1, |succ|
  {
    if succ == [] then Outcome(visited, None)
    else
      var o := Search(edges, nodes, path, visited, succ[0]);
      if o.cycle.Some? then o
      else Through(edges, nodes, path, o.visited, succ[1..])
  }

  /** A cycle of the edge lists whose students all belong to the graph. */
  predicate CycleOver<K(==)>(edges: map<K, seq<K>>, nodes: set<K>, c: seq<K>) {
    IsCycleIn(edges, c) && forall u :: u in c ==> u in nodes
  }

  /**
   * The loop of `findCycles` over the students still to try: a student
   * already in a reported cycle is skipped; otherwise a fresh search
   * starts from it, and a cycle it returns is reported and its students
   * added to `found`.
   */
  function Collect<K(==)>(order: seq<K>, edges: map<K, seq<K>>, nodes: set<K>, found: set<K>): seq<seq<K>>
    requires GraphOver(edges, nodes)
    requires forall u :: u in order ==> u in nodes
  {
    if order == [] then []
    else if order[0] in found then Collect(order[1..], edges, nodes, found)
    else
      var o := Search(edges, nodes, [], {}, order[0]);
      if o.cycle.Some? && |o.cycle.value| >= 2 then
        [o.cycle.value] + Collect(order[1..], edges, nodes, found + Members(o.cycle.value))
      else
        Collect(order[1..], edges, nodes, found)
  }

  /** The cycles `findCycles` reports, trying the students in the given order. */
  function FoundCycles<K(==)>(order: seq<K>, edges: map<K, seq<K>>, nodes: set<K>): seq<seq<K>>
    requires GraphOver(edges, nodes)
    requires forall u :: u in order ==> u in nodes
  {
    Collect(order, edges, nodes, {})
  }

  // ------------------------------------------------------------ soundness

  /** Every cycle `findCycles` reports is a cycle of the graph. */
  lemma {:induction false} CollectSound<K>(order: seq<K>, edges: map<K, seq<K>>, nodes: set<K>, found: set<K>)
    requires GraphOver(edges, nodes)
    requires forall u :: u in order ==> u in nodes
    ensures forall c :: c in Collect(order, edges, nodes, found) ==> CycleOver(edges, nodes, c)
  {
    if order != [] {
      if order[0] in found {
        CollectSound(order[1..], edges, nodes, found);
      } else {
        var o := Search(edges, nodes, [], {}, order[0]);
        SearchSound(edges, nodes, [], {}, order[0]);
        CollectSound(order[1..], edges, nodes, found + (if o.cycle.Some? then Members(o.cycle.value) else {}));
        CollectSound(order[1..], edges, nodes, found);
      }
    }
  }

  /** A cycle the search returns is a cycle of the graph. */
  lemma {:induction false} SearchSound<K>(edges: map<K, seq<K>>, nodes: set<K>, path: seq<K>, visited: set<K>, cur: K)
    requires SearchState(edges, nodes, path, Members(path), visited)
    requires cur in nodes
    requires path == [] || cur in SuccOf(edges, path[|path| - 1])
    ensures Search(edges, nodes, path, visited, cur).cycle.Some? ==>
              CycleOver(edges, nodes, Search(edges, nodes, path, visited, cur).cycle.value)
    decreases nodes - visited, 0, 0
  {
    if cur in path {
      ClosingCycle(edges, nodes, path, Members(path), visited, cur);
    } else if cur !in visited {
      Push(edges, nodes, path, Members(path), visited, cur);
      assert Members(path) + {cur} == Members(path + [cur]);
      ThroughSound(edges, nodes, path + [cur], visited + {cur}, SuccOf(edges, cur));
    }
  }

  lemma {:induction false} ThroughSound<K>(edges: map<K, seq<K>>, nodes: set<K>, path: seq<K>, visited: set<K>, succ: seq<K>)
    requires SearchState(edges, nodes, path, Members(path), visited) && |path| > 0
    requires forall x :: x in succ ==> x in SuccOf(edges, path[|path| - 1]) && x in nodes
    ensures Through(edges, nodes, path, visited, succ).cycle.Some? ==>
              CycleOver(edges, nodes, Through(edges, nodes, path, visited, succ).cycle.value)
    decreases nodes - visited, 1, |succ|
  {
    if succ != [] {
      SearchSound(edges, nodes, path, visited, succ[0]);
      var o := Search(edges, nodes, path, visited, succ[0]);
      if o.cycle.None? {
        assert forall x :: x in succ[1..] ==> x in succ;
        assert SearchState(edges, nodes, path, Members(path), o.visited);
        ThroughSound(edges, nodes, path, o.visited, succ[1..]);
      }
    }
  }

  // ------------------------------------------------------------ completeness

  /**
   * Students whose search has finished without a cycle, in the order they
   * finished: every successor of one finished before it.
   */
  predicate Finished<K(==)>(edges: map<K, seq<K>>, fin: seq<K>) {
    forall i, x :: 0 <= i < |fin| && x in SuccOf(edges, fin[i]) ==> x in fin[..i]
  }

  lemma AppendFinished<K>(edges: map<K, seq<K>>, fin: seq<K>, cur: K)
    requires Finished(edges, fin)
    requires forall x :: x in SuccOf(edges, cur) ==> x in fin
    ensures Finished(edges, fin + [cur])
  {
    var f := fin + [cur];
    forall i, x | 0 <= i < |f| && x in SuccOf(edges, f[i]) ensures x in f[..i] {
      if i < |fin| {
        assert f[i] == fin[i] && f[..i] == fin[..i];
      } else {
        assert f[..i] == fin;
      }
    }
  }

  /**
   * A search from `cur` that returns no cycle finishes `cur`: every
   * student it visits is finished or on the path.
   */
  lemma {:induction false} SearchFinishes<K>(edges: map<K, seq<K>>, nodes: set<K>, path: seq<K>, visited: set<K>, cur: K, fin: seq<K>)
    returns (done: seq<K>)
    requires GraphOver(edges, nodes) && cur in nodes && visited <= nodes
    requires Finished(edges, fin) && Members(fin) + Members(path) == visited
    requires Search(edges, nodes, path, visited, cur).cycle.None?
    ensures Finished(edges, done) && Members(fin) <= Members(done) && cur in done
    ensures Members(done) + Members(path) == Search(edges, nodes, path, visited, cur).visited
    decreases nodes - visited, 0, 1
  {
    assert cur !in path;
    if cur in visited {
      assert cur in Members(fin);
      done := fin;
    } else {
      done := EnterFinishes(edges, nodes, path, visited, cur, fin);
    }
  }

  /** The search from an unvisited student, off the path, that returns no cycle. */
  lemma {:induction false} EnterFinishes<K>(edges: map<K, seq<K>>, nodes: set<K>, path: seq<K>, visited: set<K>, cur: K, fin: seq<K>)
    returns (done: seq<K>)
    requires GraphOver(edges, nodes) && cur in nodes && visited <= nodes
    requires cur !in path && cur !in visited
    requires Finished(edges, fin) && Members(fin) + Members(path) == visited
    requires Search(edges, nodes, path, visited, cur).cycle.None?
    ensures Finished(edges, done) && Members(fin) <= Members(done) && cur in done
    ensures Members(done) + Members(path) == Search(edges, nodes, path, visited, cur).visited
    decreases nodes - visited, 0, 0
  {
    MembersSnoc(path, cur);
    var succ := SuccOf(edges, cur);
    var r := Through(edges, nodes, path + [cur], visited + {cur}, succ);
    assert Search(edges, nodes, path, visited, cur) == r;
    var d := ThroughFinishes(edges, nodes, path + [cur], visited + {cur}, succ, fin);
    AppendFinished(edges, d, cur);
    done := d + [cur];
    MembersSnoc(d, cur);
  }

  lemma {:induction false} ThroughFinishes<K>(edges: map<K, seq<K>>, nodes: set<K>, path: seq<K>, visited: set<K>, succ: seq<K>, fin: seq<K>)
    returns (done: seq<K>)
    requires GraphOver(edges, nodes) && visited <= nodes
    requires forall x :: x in succ ==> x in nodes
    requires Finished(edges, fin) && Members(fin) + Members(path) == visited
    requires Through(edges, nodes, path, visited, succ).cycle.None?
    ensures Finished(edges, done) && Members(fin) <= Members(done)
    ensures forall x :: x in succ ==> x in done
    ensures Members(done) + Members(path) == Through(edges, nodes, path, visited, succ).visited
    decreases nodes - visited, 1, |succ|
  {
    if succ == [] {
      done := fin;
    } else {
      var o := Search(edges, nodes, path, visited, succ[0]);
      var d := SearchFinishes(edges, nodes, path, visited, succ[0], fin);
      done := ThroughFinishes(edges, nodes, path, o.visited, succ[1..], d);
      forall x | x in succ ensures x in done {
        if x != succ[0] {
          assert x in succ[1..];
        } else {
          assert x in Members(d);
        }
      }
    }
  }

  /** A successor of a finished student finished earlier. */
  lemma SuccBefore<K>(edges: map<K, seq<K>>, fin: seq<K>, i: int, x: K)
    requires Finished(edges, fin) && 0 <= i < |fin| && x in SuccOf(edges, fin[i])
    ensures x in fin && IndexOf(fin, x) < i
  {
    assert x in fin[..i];
    var k :| 0 <= k < i && fin[..i][k] == x;
    assert fin[k] == x;
  }

  /** Following a chain from a finished student goes back one finishing position per step. */
  lemma {:induction false} DescendAlong<K>(edges: map<K, seq<K>>, fin: seq<K>, c: seq<K>, j: int)
    requires Finished(edges, fin) && Chain(edges, c) && 0 <= j < |c| && c[0] in fin
    ensures c[j] in fin && IndexOf(fin, c[j]) <= IndexOf(fin, c[0]) - j
  {
    if j > 0 {
      DescendAlong(edges, fin, c, j - 1);
      SuccBefore(edges, fin, IndexOf(fin, c[j - 1]), c[j]);
    }
  }

  /** No cycle runs through a finished student. */
  lemma FinishedAcyclic<K>(edges: map<K, seq<K>>, fin: seq<K>, c: seq<K>)
    requires Finished(edges, fin) && IsCycleIn(edges, c)
    ensures c[0] !in fin
  {
    if c[0] in fin {
      DescendAlong(edges, fin, c, |c| - 1);
      SuccBefore(edges, fin, IndexOf(fin, c[|c| - 1]), c[0]);
      assert false;
    }
  }

  /** Reporting no cycle means every search came back with none. */
  lemma {:induction false} CollectNone<K>(order: seq<K>, edges: map<K, seq<K>>, nodes: set<K>, u: K)
    requires GraphOver(edges, nodes)
    requires forall v :: v in order ==> v in nodes
    requires Collect(order, edges, nodes, {}) == [] && u in order
    ensures Search(edges, nodes, [], {}, u).cycle.None?
  {
    var o := Search(edges, nodes, [], {}, order[0]);
    SearchSound(edges, nodes, [], {}, order[0]);
    if u != order[0] {
      assert u in order[1..];
      CollectNone(order[1..], edges, nodes, u);
    }
  }

  /**
   * Trying every student of the graph, `findCycles` reports no cycle
   * exactly when the graph has none.
   */
  lemma FoundCyclesComplete<K>(order: seq<K>, edges: map<K, seq<K>>, nodes: set<K>)
    requires GraphOver(edges, nodes)
    requires forall u :: u in order <==> u in nodes
    ensures FoundCycles(order, edges, nodes) == [] <==> !exists c :: IsCycleIn(edges, c)
  {
    var cycles := FoundCycles(order, edges, nodes);
    if cycles != [] {
      CollectSound(order, edges, nodes, {});
      assert cycles[0] in cycles;
      assert IsCycleIn(edges, cycles[0]);
    } else if c :| IsCycleIn(edges, c) {
      assert c[|c| - 1] in edges;
      CollectNone(order, edges, nodes, c[0]);
      var done := SearchFinishes(edges, nodes, [], {}, c[0], []);
      FinishedAcyclic(edges, done, c);
      assert false;
    }
  }

  // ------------------------------------------------------------ three in a ring

  /** Three students, each blocking the next. */
  function Ring<K>(a: K, b: K, c: K): map<K, seq<K>> {
    map[a := [b], b := [c], c := [a]]
  }

  /** Skipping students already in reported cycles reports nothing more. */
  lemma {:induction false} CollectFound<K>(order: seq<K>, edges: map<K, seq<K>>, nodes: set<K>, found: set<K>)
    requires GraphOver(edges, nodes)
    requires forall u :: u in order ==> u in nodes && u in found
    ensures Collect(order, edges, nodes, found) == []
  {
    if order != [] {
      CollectFound(order[1..], edges, nodes, found);
    }
  }

  lemma RingFrom<K>(a: K, b: K, c: K, order: seq<K>)
    requires a != b && b != c && a != c
    requires order != [] && order[0] == a && forall u :: u in order ==> u in {a, b, c}
    ensures GraphOver(Ring(a, b, c), {a, b, c})
    ensures FoundCycles(order, Ring(a, b, c), {a, b, c}) == [[a, b, c]]
  {
    var r, n := Ring(a, b, c), {a, b, c};
    assert SuccOf(r, a) == [b] && SuccOf(r, b) == [c] && SuccOf(r, c) == [a];
    var closed := Outcome(n, Some([a, b, c]));
    assert IndexOf([a, b, c], a) == 0;
    assert Search(r, n, [a, b, c], n, a) == closed;
    assert Through(r, n, [a, b, c], n, [a]) == closed;
    assert [a, b] + [c] == [a, b, c] && {a, b} + {c} == n;
    assert Search(r, n, [a, b], {a, b}, c) == closed;
    assert Through(r, n, [a, b], {a, b}, [c]) == closed;
    assert [a] + [b] == [a, b] && {a} + {b} == {a, b};
    assert Search(r, n, [a], {a}, b) == closed;
    assert Through(r, n, [a], {a}, [b]) == closed;
    assert [] + [a] == [a] && {} + {a} == {a};
    assert Search(r, n, [], {}, a) == closed;
    assert Members([a, b, c]) == n && {} + n == n;
    assert forall u :: u in order[1..] ==> u in order;
    CollectFound(order[1..], r, n, n);
    assert Collect(order, r, n, {}) == [[a, b, c]] + Collect(order[1..], r, n, {} + Members([a, b, c]));
  }

  /**
   * Three students blocking each other in a ring are reported as one
   * cycle, starting from whichever of them is tried first.
   */
  lemma RingOfThree<K>(a: K, b: K, c: K, order: seq<K>)
    requires a != b && b != c && a != c
    requires order != [] && forall u :: u in order ==> u in {a, b, c}
    ensures GraphOver(Ring(a, b, c), {a, b, c})
    ensures var cycles := FoundCycles(order, Ring(a, b, c), {a, b, c});
      |cycles| == 1 && |cycles[0]| == 3 && cycles[0][0] == order[0] && Members(cycles[0]) == {a, b, c}
  {
    assert order[0] in order;
    if order[0] == a {
      RingFrom(a, b, c, order);
      assert Members([a, b, c]) == {a, b, c};
    } else if order[0] == b {
      assert Ring(a, b, c) == Ring(b, c, a) && {a, b, c} == {b, c, a};
      RingFrom(b, c, a, order);
      assert Members([b, c, a]) == {a, b, c};
    } else {
      assert Ring(a, b, c) == Ring(c, a, b) && {a, b, c} == {c, a, b};
      RingFrom(c, a, b, order);
      assert Members([c, a, b]) == {a, b, c};
    }
  }

  /** The state of one `dfs` run: the current path, its set, and the students visited. */
  class CycleSearch<K(==)> {
    const edges: map<K, seq<K>>
    const nodes: set<K>
    var path: seq<K>
    var pathSet: set<K>
    var visited: set<K>

    ghost predicate Valid()
      reads this
    {
      SearchState(edges, nodes, path, pathSet, visited)
    }

    constructor (edges: map<K, seq<K>>, nodes: set<K>)
      requires GraphOver(edges, nodes)
      ensures this.edges == edges && this.nodes == nodes
      ensures path == [] && pathSet == {} && visited == {}
      ensures Valid()
    {
      this.edges := edges;
      this.nodes := nodes;
      path := [];
      pathSet := {};
      visited := {};
    }

    /**
     * `dfs(cur)`: a student already on the path closes a cycle, which is
     * returned; a visited one is a dead end; otherwise the student is
     * pushed and the search goes on through its successors.
     */
    method Dfs(cur: K) returns (cycle: Option<seq<K>>)
      requires Valid() && cur in nodes
      requires path == [] || cur in SuccOf(edges, path[|path| - 1])
      modifies this
      ensures Valid()
      ensures old(visited) <= visited
      ensures cycle.None? ==> path == old(path) && pathSet == old(pathSet)
      ensures cycle.Some? ==> IsCycleIn(edges, cycle.value) && forall u :: u in cycle.value ==> u in nodes
      ensures Outcome(visited, cycle) == Search(edges, nodes, old(path), old(visited), cur)
      decreases |nodes - visited|, 2
    {
      if cur in pathSet {
        ClosingCycle(edges, nodes, path, pathSet, visited, cur);
        var k := IndexOf(path, cur);
        return Some(path[k..]);
      }
      if cur in visited {
        return None;
      }
      ghost var before := visited;
      Enter(cur);
      cycle := Explore(cur, before);
    }

    /** `visited.add(cur); path.push(cur); pathSet.add(cur)`. */
    method Enter(cur: K)
      requires Valid() && cur in nodes && cur !in visited
      requires path == [] || cur in SuccOf(edges, path[|path| - 1])
      modifies this
      ensures Valid()
      ensures visited == old(visited) + {cur}
      ensures path == old(path) + [cur] && pathSet == old(pathSet) + {cur}
      ensures SearchState(edges, nodes, path[..|path| - 1], pathSet - {cur}, old(visited))
      ensures cur !in path[..|path| - 1]
    {
      Push(edges, nodes, path, pathSet, visited, cur);
      assert (path + [cur])[..|path|] == path;
      assert pathSet + {cur} - {cur} == pathSet;
      visited, path, pathSet := visited + {cur}, path + [cur], pathSet + {cur};
    }

    /** One turn of the loop over `edges[cur]`: the search from successor `next`. */
    method Visit(cur: K, ghost before: set<K>, next: K) returns (cycle: Option<seq<K>>)
      requires Valid() && cur in nodes && cur !in before && before + {cur} <= visited
      requires |path| > 0 && path[|path| - 1] == cur && next in SuccOf(edges, cur)
      modifies this
      ensures Valid()
      ensures old(visited) <= visited
      ensures cycle.None? ==> path == old(path) && pathSet == old(pathSet)
      ensures cycle.Some? ==> IsCycleIn(edges, cycle.value) && forall u :: u in cycle.value ==> u in nodes
      ensures Outcome(visited, cycle) == Search(edges, nodes, old(path), old(visited), next)
      decreases |nodes - before|, 0
    {
      FewerUnvisited(nodes, before, visited, cur);
      cycle := Dfs(next);
    }

    /**
     * The loop over `edges[cur]` with `cur` on top of the path: the first
     * cycle found is returned; finding none, `cur` is popped again.
     */
    method Explore(cur: K, ghost before: set<K>) returns (cycle: Option<seq<K>>)
      requires Valid() && cur in nodes && cur !in before && before + {cur} <= visited
      requires |path| > 0 && path[|path| - 1] == cur && cur in pathSet
      requires SearchState(edges, nodes, path[..|path| - 1], pathSet - {cur}, before)
      requires cur !in path[..|path| - 1]
      modifies this
      ensures Valid()
      ensures old(visited) <= visited
      ensures cycle.None? ==> path == old(path)[..|old(path)| - 1] && pathSet == old(pathSet) - {cur}
      ensures cycle.Some? ==> IsCycleIn(edges, cycle.value) && forall u :: u in cycle.value ==> u in nodes
      ensures Outcome(visited, cycle) == Through(edges, nodes, old(path), old(visited), SuccOf(edges, cur))
      decreases |nodes - before|, 1
    {
      var succ := SuccOf(edges, cur);
      ghost var whole := Through(edges, nodes, path, visited, succ);
      for n := 0 to |succ|
        invariant Valid()
        invariant old(visited) <= visited
        invariant path == old(path) && pathSet == old(pathSet)
        invariant Through(edges, nodes, path, visited, succ[n..]) == whole
      {
        ghost var seen := visited;
        cycle := Visit(cur, before, succ[n]);
        assert succ[n..][1..] == succ[n + 1..];
        assert Through(edges, nodes, old(path), seen, succ[n..]) ==
          if cycle.Some? then Outcome(visited, cycle) else Through(edges, nodes, old(path), visited, succ[n + 1..]);
        if cycle.Some? {
          return;
        }
      }
      Pop(edges, nodes, path[..|path| - 1], pathSet - {cur}, before, visited, cur);
      path := path[..|path| - 1];
      pathSet := pathSet - {cur};
      return None;
    }
  }

  /** The students of the reported cycles (`processedUks`, `processed_uks`): they are not pruned afterwards. */
  function Processed<K>(cycles: seq<seq<K>>): set<K> {
    set c, u | c in cycles && u in c :: u
  }

  /** The loop filling that set, one cycle at a time. */
  method ProcessedStudents<K>(cycles: seq<seq<K>>) returns (processed: set<K>)
    ensures processed == Processed(cycles)
  {
    processed := {};
    for k := 0 to |cycles|
      invariant processed == Processed(cycles[..k])
    {
      assert cycles[..k + 1] == cycles[..k] + [cycles[k]];
      processed := processed + set u | u in cycles[k];
    }
    assert cycles[..|cycles|] == cycles;
  }

  /**
   * `findCycles`: a fresh search from each conflicted student in turn,
   * skipping students already in a reported cycle.
   */
  method FindCycles<K(==)>(order: seq<K>, edges: map<K, seq<K>>, nodes: set<K>) returns (cycles: seq<seq<K>>)
    requires GraphOver(edges, nodes)
    requires forall u :: u in order ==> u in nodes
    ensures cycles == FoundCycles(order, edges, nodes)
    ensures forall c :: c in cycles ==> CycleOver(edges, nodes, c)
  {
    CollectSound(order, edges, nodes, {});
    cycles := [];
    var found: set<K> := {};
    for k := 0 to |order|
      invariant cycles + Collect(order[k..], edges, nodes, found) == FoundCycles(order, edges, nodes)
    {
      var uk := order[k];
      assert order[k..][1..] == order[k + 1..];
      if uk !in found {
        var search := new CycleSearch<K>(edges, nodes);
        var cycle := search.Dfs(uk);
        if cycle.Some? && |cycle.value| >= 2 {
          assert cycles + Collect(order[k..], edges, nodes, found) ==
            (cycles + [cycle.value]) + Collect(order[k + 1..], edges, nodes, found + Members(cycle.value));
          cycles := cycles + [cycle.value];
          found := found + Members(cycle.value);
        }
      }
    }
  }

}
