/**
 * Step 6 of web-app/src/logic/allSteps.ts, the resolution: for each cycle,
 * the hypothetical-removal admission test decides whether its students
 * lose their accepted or their refused rows; refused rows of conflicted
 * students outside any cycle are dropped when no competitor at that
 * institute holds more than one row; the rows left are returned.
 */
module CycleResolution {
  import opened Wrappers
  import opened Cells
  import opened Rows
  import opened Sorting
  import opened Grouping
  import opened CapacitySelector
  import opened ConflictGraph
  import opened GraphSearch

  // ------------------------------------------------ the admission test

  /** Rows that survive dropping the accepted rows of the cycle's students. */
  function NotAcceptedIn(cycle: seq<string>): Entry -> bool {
    (e: Entry) => !(e.uk in cycle && Ano(e))
  }

  /** `testDf`. */
  function Hypothetical(v: seq<Entry>, cycle: seq<string>): seq<Entry> {
    Filter(v, NotAcceptedIn(cycle))
  }

  /** Rows at `school` ranked strictly before `rank`. */
  function Ahead(school: string, rank: int): Entry -> bool {
    (e: Entry) => e.code == school && e.rank < rank
  }

  /** A student's first row after a stable sort by priority. */
  function BestRow(rows: seq<Entry>): Entry
    requires rows != []
  {
    SortBy(rows, EntryPrio)[0]
  }

  /**
   * The student's remaining rows in `t` are none, or the best of them has
   * fewer than `cap` rows ranked before it at its institute.
   */
  predicate StillAdmitted(t: seq<Entry>, m: map<string, int>, u: string) {
    var rows := Select(t, EntryUk, u);
    rows == [] || |Filter(t, Ahead(BestRow(rows).code, BestRow(rows).rank))| < CapOf(m, BestRow(rows).code)
  }

  /** `wouldAllGetNom`, specified: every student of the cycle passes the test in the hypothetical table. */
  predicate WouldAllGetNom(v: seq<Entry>, m: map<string, int>, cycle: seq<string>) {
    forall u :: u in cycle ==> StillAdmitted(Hypothetical(v, cycle), m, u)
  }

  lemma {:induction false} WithKeyFirst<T>(s: seq<T>, key: T -> int, k: int)
    requires WithKey(s, key, k) != []
    ensures exists i :: 0 <= i < |s| && s[i] == WithKey(s, key, k)[0] && key(s[i]) == k
                        && forall j :: 0 <= j < i ==> key(s[j]) != k
  {
    WithKeyCons(s[0], s[1..], key, k);
    assert s == [s[0]] + s[1..];
    if key(s[0]) != k {
      WithKeyFirst(s[1..], key, k);
      var i :| 0 <= i < |s[1..]| && s[1..][i] == WithKey(s[1..], key, k)[0] && key(s[1..][i]) == k
               && forall j :: 0 <= j < i ==> key(s[1..][j]) != k;
      assert s[i + 1] == s[1..][i];
      assert forall j :: 1 <= j < i + 1 ==> s[j] == s[1..][j - 1];
    }
  }

  /**
   * The best row is the student's first row of lowest priority: no row has
   * a lower priority, and every row before it has a higher one.
   */
  lemma BestRowIsFirstLowest(rows: seq<Entry>)
    requires rows != []
    ensures forall j :: 0 <= j < |rows| ==> BestRow(rows).prio <= rows[j].prio
    ensures exists i :: 0 <= i < |rows| && rows[i] == BestRow(rows)
                        && forall j :: 0 <= j < i ==> rows[j].prio > BestRow(rows).prio
  {
    var sorted := SortBy(rows, EntryPrio);
    var m := sorted[0].prio;
    forall j | 0 <= j < |rows| ensures m <= rows[j].prio {
      assert rows[j] in multiset(sorted);
    }
    WithKeyCons(sorted[0], sorted[1..], EntryPrio, m);
    assert sorted == [sorted[0]] + sorted[1..];
    SortByStable(rows, EntryPrio, m);
    WithKeyFirst(rows, EntryPrio, m);
  }

  /** One student's test: sort the remaining rows by priority, count the rows ranked ahead of the best one. */
  method Admitted(t: seq<Entry>, m: map<string, int>, u: string) returns (ok: bool)
    ensures ok == StillAdmitted(t, m, u)
  {
    var rows := Select(t, EntryUk, u);
    var sorted := SortBy(rows, EntryPrio);
    if |sorted| == 0 {
      return true;
    }
    var ne := sorted[0];
    var cap := if ne.code in m then m[ne.code] else 0;
    var better := |Filter(t, Ahead(ne.code, ne.rank))|;
    return better < cap;
  }

  /** `wouldAllGetNom`: the students of the cycle in turn; the first that would not get in ends the test. */
  method WouldAllGetNomLoop(v: seq<Entry>, m: map<string, int>, cycle: seq<string>) returns (ok: bool)
    ensures ok == WouldAllGetNom(v, m, cycle)
  {
    var t := Filter(v, NotAcceptedIn(cycle));
    assert t == Hypothetical(v, cycle);
    for k := 0 to |cycle|
      invariant forall u :: u in cycle[..k] ==> StillAdmitted(t, m, u)
    {
      var admitted := Admitted(t, m, cycle[k]);
      if !admitted {
        assert cycle[k] in cycle;
        return false;
      }
      assert cycle[..k + 1] == cycle[..k] + [cycle[k]];
    }
    assert cycle[..|cycle|] == cycle;
    return true;
  }

  // ------------------------------------------------ the deletions

  /** Row e falls to a cycle whose test came out `admitted`: a member's accepted row if so, a member's refused row if not. */
  predicate Victim(e: Entry, cycle: seq<string>, admitted: bool) {
    e.uk in cycle && (if admitted then Ano(e) else Ne(e))
  }

  function Victims(v: seq<Entry>, cycle: seq<string>, admitted: bool): set<int> {
    set i | 0 <= i < |v| && Victim(v[i], cycle, admitted)
  }

  /** The rows one cycle deletes: its members' accepted rows when they would all still get in, their refused rows otherwise. */
  function CycleVictims(v: seq<Entry>, m: map<string, int>, cycle: seq<string>): set<int> {
    Victims(v, cycle, WouldAllGetNom(v, m, cycle))
  }

  /** The rows the cycle loop marks, cycle after cycle. */
  function CycleDeletions(v: seq<Entry>, m: map<string, int>, cycles: seq<seq<string>>): set<int>
    decreases |cycles|
  {
    if cycles == [] then {}
    else CycleDeletions(v, m, cycles[..|cycles| - 1]) + CycleVictims(v, m, cycles[|cycles| - 1])
  }

  /** Some other student accepted at `school` holds more than one row. */
  predicate AnyDup(v: seq<Entry>, u: string, school: string) {
    exists j :: 0 <= j < |v| && v[j].code == school && Ano(v[j]) && v[j].uk != u && |Select(v, EntryUk, v[j].uk)| > 1
  }

  /** Row i is a refused row of conflicted student u at a school whose accepted competitors hold one row each. */
  predicate DanglingOf(v: seq<Entry>, u: string, i: int) {
    0 <= i < |v| && v[i].uk == u && Ne(v[i]) && Conflicted(v, u) && !AnyDup(v, u, v[i].code)
  }

  /** Row i is such a row of a student outside every cycle. */
  predicate DanglingAt(v: seq<Entry>, processed: set<string>, i: int) {
    0 <= i < |v| && v[i].uk !in processed && DanglingOf(v, v[i].uk, i)
  }

  function Dangling(v: seq<Entry>, processed: set<string>): set<int> {
    set i | 0 <= i < |v| && DanglingAt(v, processed, i)
  }

  /** `rowsToDelete`. */
  function Deletions(v: seq<Entry>, m: map<string, int>, cycles: seq<seq<string>>): set<int> {
    CycleDeletions(v, m, cycles) + Dangling(v, Processed(cycles))
  }

  /** `df.filter((_, i) => !rowsToDelete.has(i))`. */
  function KeepRows<T>(s: seq<T>, del: set<int>): (r: seq<T>)
    ensures |r| <= |s|
    decreases |s|
  {
    if s == [] then []
    else KeepRows(s[..|s| - 1], del) + (if |s| - 1 in del then [] else [s[|s| - 1]])
  }

  /** The normalised table less the rows a given list of cycles, and the dangling refused rows, delete. */
  function ResolveWith(rows: seq<Row>, caps: seq<CapRow>, cycles: seq<seq<string>>): seq<Row> {
    KeepRows(Project(rows, Normalize), Deletions(Entries(rows), CapMap(caps), cycles))
  }

  /** `step6_resolveCycles`: the deletions for the cycles `findCycles` reports. */
  function Resolve(rows: seq<Row>, caps: seq<CapRow>): seq<Row> {
    ResolveWith(rows, caps, FoundConflictCycles(Entries(rows)))
  }

  // ------------------------------------------------ properties

  lemma {:induction false} KeepRowsSub<T>(s: seq<T>, del: set<int>)
    ensures multiset(KeepRows(s, del)) <= multiset(s)
    decreases |s|
  {
    if s != [] {
      KeepRowsSub(s[..|s| - 1], del);
      assert s == s[..|s| - 1] + [s[|s| - 1]];
    }
  }

  /** The filter keeps the length exactly when no deleted index falls inside the table. */
  lemma {:induction false} KeepRowsLength<T>(s: seq<T>, del: set<int>)
    ensures |KeepRows(s, del)| == |s| <==> forall i :: 0 <= i < |s| ==> i !in del
    decreases |s|
  {
    if s != [] {
      var init := s[..|s| - 1];
      KeepRowsLength(init, del);
      if !forall i :: 0 <= i < |s| ==> i !in del {
        var i :| 0 <= i < |s| && i in del;
        if i < |s| - 1 {
          assert |KeepRows(init, del)| < |init|;
        }
      }
    }
  }

  /** No deleted index inside the table: every row is kept. */
  lemma {:induction false} KeepRowsAll<T>(s: seq<T>, del: set<int>)
    requires forall i :: 0 <= i < |s| ==> i !in del
    ensures KeepRows(s, del) == s
    decreases |s|
  {
    if s != [] {
      var init := s[..|s| - 1];
      KeepRowsAll(init, del);
      assert s == init + [s[|s| - 1]];
    }
  }

  /** Nothing is removed exactly when no deleted index falls inside the table. */
  lemma KeepRowsUnchanged<T>(s: seq<T>, del: set<int>)
    ensures KeepRows(s, del) == s <==> forall i :: 0 <= i < |s| ==> i !in del
    ensures |KeepRows(s, del)| == |s| <==> forall i :: 0 <= i < |s| ==> i !in del
  {
    KeepRowsLength(s, del);
    if forall i :: 0 <= i < |s| ==> i !in del {
      KeepRowsAll(s, del);
    }
  }

  /** The rows of a key no deleted index carries all survive, in order. */
  lemma {:induction false} KeepRowsSelect<T, K>(s: seq<T>, del: set<int>, key: T -> K, k: K)
    requires forall i :: 0 <= i < |s| && i in del ==> key(s[i]) != k
    ensures Select(KeepRows(s, del), key, k) == Select(s, key, k)
    decreases |s|
  {
    if s != [] {
      var init := s[..|s| - 1];
      var x := s[|s| - 1];
      KeepRowsSelect(init, del, key, k);
      assert s == init + [x];
      SelectSnoc(init, x, key, k);
      SelectAppend(KeepRows(init, del), if |s| - 1 in del then [] else [x], key, k);
      if |s| - 1 !in del {
        SelectSnoc(KeepRows(init, del), x, key, k);
      }
    }
  }

  /** The rows a cycle deletes are among all the deletions of a later prefix of the cycle list. */
  lemma {:induction false} VictimsDeleted(v: seq<Entry>, m: map<string, int>, cycles: seq<seq<string>>, k: int)
    requires 0 <= k < |cycles|
    ensures CycleVictims(v, m, cycles[k]) <= CycleDeletions(v, m, cycles)
    decreases |cycles|
  {
    if k < |cycles| - 1 {
      VictimsDeleted(v, m, cycles[..|cycles| - 1], k);
    }
  }

  /** A deletion of the cycle loop is a row of a member of some cycle. */
  lemma {:induction false} CycleDeletionOrigin(v: seq<Entry>, m: map<string, int>, cycles: seq<seq<string>>, i: int)
    requires i in CycleDeletions(v, m, cycles)
    ensures exists k :: 0 <= k < |cycles| && i in CycleVictims(v, m, cycles[k])
    decreases |cycles|
  {
    var n := |cycles| - 1;
    if i !in CycleVictims(v, m, cycles[n]) {
      CycleDeletionOrigin(v, m, cycles[..n], i);
      var k :| 0 <= k < n && i in CycleVictims(v, m, cycles[..n][k]);
      assert cycles[..n][k] == cycles[k];
    }
  }

  /**
   * Each cycle is resolved one way: when its members would all still get in,
   * every accepted row of theirs is deleted, otherwise every refused row.
   */
  lemma CycleResolved(v: seq<Entry>, m: map<string, int>, cycles: seq<seq<string>>, k: int)
    requires 0 <= k < |cycles|
    ensures WouldAllGetNom(v, m, cycles[k]) ==>
              forall i :: 0 <= i < |v| && v[i].uk in cycles[k] && Ano(v[i]) ==> i in Deletions(v, m, cycles)
    ensures !WouldAllGetNom(v, m, cycles[k]) ==>
              forall i :: 0 <= i < |v| && v[i].uk in cycles[k] && Ne(v[i]) ==> i in Deletions(v, m, cycles)
  {
    VictimsDeleted(v, m, cycles, k);
  }

  /** Every member of a conflict cycle is a conflicted student. */
  lemma CycleMembersConflicted(v: seq<Entry>, c: seq<string>, u: string)
    requires IsConflictCycle(v, c) && u in c
    ensures Conflicted(v, u)
  {
    var t :| 0 <= t < |c| && c[t] == u;
    var s := if t == 0 then |c| - 1 else t - 1;
    assert Edge(v, BothSet(v), c[s], c[t]);
    var i, j :| 0 <= i < |v| && 0 <= j < |v| && v[i].uk == c[s] && Ne(v[i]) && Blocker(v, BothSet(v), c[s], v[i].code, j) && v[j].uk == u;
  }

  /** Step 6 deletes only rows of students holding both an accepted and a refused row. */
  lemma DeletedAreConflicted(v: seq<Entry>, m: map<string, int>, cycles: seq<seq<string>>, i: int)
    requires forall c :: c in cycles ==> IsConflictCycle(v, c)
    requires i in Deletions(v, m, cycles)
    ensures 0 <= i < |v| && Conflicted(v, v[i].uk)
  {
    if i in CycleDeletions(v, m, cycles) {
      CycleDeletionOrigin(v, m, cycles, i);
      var k :| 0 <= k < |cycles| && i in CycleVictims(v, m, cycles[k]);
      CycleMembersConflicted(v, cycles[k], v[i].uk);
    }
  }

  /** A student without both kinds of row keeps all of their rows, in order. */
  lemma UnconflictedKept(rows: seq<Row>, caps: seq<CapRow>, u: string)
    requires !Conflicted(Entries(rows), u)
    ensures Select(Resolve(rows, caps), Uk, u) == Select(Project(rows, Normalize), Uk, u)
  {
    var v := Entries(rows);
    var cycles := FoundConflictCycles(v);
    FoundConflictCyclesSound(v);
    var df := Project(rows, Normalize);
    var del := Deletions(v, CapMap(caps), cycles);
    forall i | 0 <= i < |df| && i in del ensures Uk(df[i]) != u {
      DeletedAreConflicted(v, CapMap(caps), cycles, i);
    }
    KeepRowsSelect(df, del, Uk, u);
  }

  /** When no student holds both kinds of row, step 6 returns the normalised table whole. */
  lemma NoConflictNoChange(rows: seq<Row>, caps: seq<CapRow>)
    requires forall u :: !Conflicted(Entries(rows), u)
    ensures Resolve(rows, caps) == Project(rows, Normalize)
  {
    var v := Entries(rows);
    var cycles := FoundConflictCycles(v);
    FoundConflictCyclesSound(v);
    var del := Deletions(v, CapMap(caps), cycles);
    forall i | 0 <= i < |rows| ensures i !in del {
      if i in del {
        DeletedAreConflicted(v, CapMap(caps), cycles, i);
      }
    }
    KeepRowsUnchanged(Project(rows, Normalize), del);
  }

  /** Step 6 output is a sub-multiset of the normalised input, and shorter exactly when a row is deleted. */
  lemma ResolveShrinks(rows: seq<Row>, caps: seq<CapRow>)
    ensures multiset(Resolve(rows, caps)) <= multiset(Project(rows, Normalize))
    ensures |Resolve(rows, caps)| <= |rows|
    ensures |Resolve(rows, caps)| == |rows|
        <==> forall i :: 0 <= i < |rows| ==> i !in Deletions(Entries(rows), CapMap(caps), FoundConflictCycles(Entries(rows)))
  {
    var cycles := FoundConflictCycles(Entries(rows));
    var df := Project(rows, Normalize);
    KeepRowsSub(df, Deletions(Entries(rows), CapMap(caps), cycles));
    KeepRowsUnchanged(df, Deletions(Entries(rows), CapMap(caps), cycles));
  }

  /**
   * Three conflicted students, each refused where the next is accepted,
   * and no other conflicted student: step 6 reports the three as one
   * cycle and resolves them together, deleting all their accepted rows
   * when they would all still get in and all their refused rows otherwise.
   */
  lemma RingResolvedTogether(v: seq<Entry>, m: map<string, int>, a: string, b: string, c: string)
    requires a != b && b != c && a != c
    requires BothSet(v) == {a, b, c}
    requires forall x :: Edge(v, {a, b, c}, a, x) <==> x == b
    requires forall x :: Edge(v, {a, b, c}, b, x) <==> x == c
    requires forall x :: Edge(v, {a, b, c}, c, x) <==> x == a
    ensures var cycles := FoundConflictCycles(v);
            |cycles| == 1 && (forall u :: u in cycles[0] <==> u in {a, b, c})
            && (WouldAllGetNom(v, m, cycles[0]) ==>
                  forall i :: 0 <= i < |v| && v[i].uk in {a, b, c} && Ano(v[i]) ==> i in Deletions(v, m, cycles))
            && (!WouldAllGetNom(v, m, cycles[0]) ==>
                  forall i :: 0 <= i < |v| && v[i].uk in {a, b, c} && Ne(v[i]) ==> i in Deletions(v, m, cycles))
  {
    RingFound(v, a, b, c);
    CycleResolved(v, m, FoundConflictCycles(v), 0);
  }

  // ------------------------------------------------------- the code

  /** `studentsWithBoth`: the students in enumeration order whose group has both an "ANO" and a "NE" row. */
  method ConflictedStudents(v: seq<Entry>, groups: map<string, seq<Entry>>, order: seq<string>)
    returns (both: seq<string>, bothSet: set<string>)
    requires forall u :: u in order <==> exists i :: 0 <= i < |v| && v[i].uk == u
    requires forall u :: u in order ==> u in groups && groups[u] == Select(v, EntryUk, u)
    ensures both == ConflictedAmong(v, order)
    ensures bothSet == BothSet(v)
    ensures forall u :: u in both <==> u in bothSet
    ensures forall u :: u in both ==> u in order
  {
    both := [];
    bothSet := {};
    for k := 0 to |order|
      invariant both == ConflictedAmong(v, order[..k])
      invariant forall u :: u in both <==> u in bothSet
      invariant forall u :: u in bothSet <==> u in order[..k] && Conflicted(v, u)
    {
      var uk := order[k];
      var grp := groups[uk];
      var hasAno := exists e :: e in grp && Ano(e);
      var hasNe := exists e :: e in grp && Ne(e);
      assert hasAno == HasAno(v, uk) by {
        if hasAno {
          var e :| e in grp && Ano(e);
          SelectHas(v, EntryUk, uk, e);
          var i :| 0 <= i < |v| && v[i] == e;
        }
        if HasAno(v, uk) {
          var i :| 0 <= i < |v| && v[i].uk == uk && Ano(v[i]);
          SelectHas(v, EntryUk, uk, v[i]);
        }
      }
      assert hasNe == HasNe(v, uk) by {
        if hasNe {
          var e :| e in grp && Ne(e);
          SelectHas(v, EntryUk, uk, e);
          var i :| 0 <= i < |v| && v[i] == e;
        }
        if HasNe(v, uk) {
          var i :| 0 <= i < |v| && v[i].uk == uk && Ne(v[i]);
          SelectHas(v, EntryUk, uk, v[i]);
        }
      }
      assert order[..k + 1] == order[..k] + [uk];
      assert order[..k + 1][..k] == order[..k];
      if hasAno && hasNe {
        both := both + [uk];
        bothSet := bothSet + {uk};
      }
    }
    assert order[..|order|] == order;
    forall u | Conflicted(v, u) ensures u in order {
      var i :| 0 <= i < |v| && v[i].uk == u && Ano(v[i]);
    }
  }

  /** `df.forEach((r, i) => { if (...) rowsToDelete.add(i); })` for one cycle. */
  method MarkVictims(v: seq<Entry>, cycle: seq<string>, admitted: bool, del: set<int>) returns (out: set<int>)
    ensures out == del + Victims(v, cycle, admitted)
  {
    out := del;
    for i := 0 to |v|
      invariant forall j :: j in out <==> j in del || (0 <= j < i && Victim(v[j], cycle, admitted))
    {
      if v[i].uk in cycle && v[i].flag == (if admitted then "ANO" else "NE") {
        out := out + {i};
      }
    }
  }

  /** One cycle: the admission test, then the marking pass over the table. */
  method MarkCycle(v: seq<Entry>, m: map<string, int>, cycle: seq<string>, del: set<int>) returns (out: set<int>)
    ensures out == del + CycleVictims(v, m, cycle)
  {
    var admitted := WouldAllGetNomLoop(v, m, cycle);
    out := MarkVictims(v, cycle, admitted, del);
  }

  /** The loop over the reported cycles. */
  method MarkCycles(v: seq<Entry>, m: map<string, int>, cycles: seq<seq<string>>) returns (del: set<int>)
    ensures del == CycleDeletions(v, m, cycles)
  {
    del := {};
    for k := 0 to |cycles|
      invariant del == CycleDeletions(v, m, cycles[..k])
    {
      assert cycles[..k + 1][..k] == cycles[..k];
      del := MarkCycle(v, m, cycles[k], del);
    }
    assert cycles[..|cycles|] == cycles;
  }

  /** `schoolAnos.some(r => byUk[str(r[ukCol])].length > 1)`. */
  method FindDup(v: seq<Entry>, groups: map<string, seq<Entry>>, u: string, school: string) returns (dup: bool)
    requires forall j :: 0 <= j < |v| ==> v[j].uk in groups && groups[v[j].uk] == Select(v, EntryUk, v[j].uk)
    ensures dup == AnyDup(v, u, school)
  {
    for j := 0 to |v|
      invariant forall j' :: 0 <= j' < j && v[j'].code == school && Ano(v[j']) && v[j'].uk != u ==> |groups[v[j'].uk]| <= 1
    {
      if v[j].code == school && Ano(v[j]) && v[j].uk != u && |groups[v[j].uk]| > 1 {
        return true;
      }
    }
    return false;
  }

  /** `for (const ne of nes)`: mark each refused row of u whose school has no duplicated competitor. */
  method MarkDangling(v: seq<Entry>, groups: map<string, seq<Entry>>, u: string, nes: seq<Entry>, del: set<int>) returns (out: set<int>)
    requires Positioned(v) && Conflicted(v, u)
    requires forall j :: 0 <= j < |v| ==> v[j].uk in groups && groups[v[j].uk] == Select(v, EntryUk, v[j].uk)
    requires forall k :: 0 <= k < |nes| ==> 0 <= nes[k].pos < |v| && v[nes[k].pos] == nes[k] && nes[k].uk == u && Ne(nes[k])
    ensures forall i :: i in out <==> i in del || (DanglingOf(v, u, i) && v[i] in nes)
  {
    out := del;
    for k := 0 to |nes|
      invariant forall i :: i in out <==> i in del || (DanglingOf(v, u, i) && v[i] in nes[..k])
    {
      var ne := nes[k];
      var p := ne.pos;
      var dup := FindDup(v, groups, u, ne.code);
      assert forall i :: 0 <= i < |v| ==> (v[i] in nes[..k + 1] <==> v[i] in nes[..k] || i == p) by {
        assert nes[..k + 1] == nes[..k] + [ne];
      }
      if !dup {
        out := out + {ne.pos};
      }
    }
    assert nes[..|nes|] == nes;
  }

  /** One student of the non-cycle pass. */
  method PruneStudent(v: seq<Entry>, groups: map<string, seq<Entry>>, u: string, del: set<int>) returns (out: set<int>)
    requires Positioned(v)
    requires forall j :: 0 <= j < |v| ==> v[j].uk in groups && groups[v[j].uk] == Select(v, EntryUk, v[j].uk)
    requires u in groups && groups[u] == Select(v, EntryUk, u)
    ensures forall i :: i in out <==> i in del || DanglingOf(v, u, i)
  {
    var grp := groups[u];
    var anos := Filter(grp, Ano);
    var nes := Filter(grp, Ne);
    out := del;
    SelectFilterFound(v, EntryUk, u, Ano);
    SelectFilterFound(v, EntryUk, u, Ne);
    if |anos| == 0 || |nes| == 0 {
      return;
    }
    forall k | 0 <= k < |nes| ensures 0 <= nes[k].pos < |v| && v[nes[k].pos] == nes[k] && nes[k].uk == u && Ne(nes[k]) {
      FilterHas(grp, Ne, nes[k]);
      SelectHas(v, EntryUk, u, nes[k]);
      var p :| 0 <= p < |v| && v[p] == nes[k];
    }
    out := MarkDangling(v, groups, u, nes, del);
    forall i | DanglingOf(v, u, i) ensures v[i] in nes {
      SelectHas(v, EntryUk, u, v[i]);
      FilterHas(grp, Ne, v[i]);
    }
  }

  /** The loop over `Object.entries(byUk)` skipping processed students. */
  method PruneDangling(v: seq<Entry>, groups: map<string, seq<Entry>>, order: seq<string>, processed: set<string>, del: set<int>)
    returns (out: set<int>)
    requires Positioned(v)
    requires forall u :: u in order <==> exists i :: 0 <= i < |v| && v[i].uk == u
    requires forall u :: u in order ==> u in groups && groups[u] == Select(v, EntryUk, u)
    ensures out == del + Dangling(v, processed)
  {
    out := del;
    assert forall j :: 0 <= j < |v| ==> v[j].uk in order;
    for k := 0 to |order|
      invariant forall i :: i in out <==> i in del || (DanglingAt(v, processed, i) && v[i].uk in order[..k])
    {
      var uk := order[k];
      assert order[..k + 1] == order[..k] + [uk];
      if uk !in processed {
        out := PruneStudent(v, groups, uk, out);
      }
    }
    assert order[..|order|] == order;
  }

  /** The final filter. */
  method KeepRowsLoop<T>(s: seq<T>, del: set<int>) returns (r: seq<T>)
    ensures r == KeepRows(s, del)
  {
    r := [];
    for i := 0 to |s|
      invariant r == KeepRows(s[..i], del)
    {
      assert s[..i + 1][..i] == s[..i];
      if i !in del {
        r := r + [s[i]];
      }
    }
    assert s[..|s|] == s;
  }

  /** Building `edges` over the conflicted students and running `findCycles` on it. */
  method SearchConflicts(v: seq<Entry>, both: seq<string>, bothSet: set<string>) returns (cycles: seq<seq<string>>)
    requires bothSet == BothSet(v) && both == ConflictOrder(v)
    ensures cycles == FoundConflictCycles(v)
    ensures forall c :: c in cycles ==> IsConflictCycle(v, c)
  {
    ConflictOrderHas(v);
    var edges := BuildEdges(v, both, bothSet);
    cycles := FindCycles(both, edges, bothSet);
    assert cycles == FoundConflictCycles(v);
    forall c | c in cycles ensures IsConflictCycle(v, c) {
      CycleOfEdges(v, edges, c);
    }
  }

  /** Step 6 once conflicted students exist: the graph, the cycles, the two marking passes. */
  method ResolveConflicts(v: seq<Entry>, m: map<string, int>, groups: map<string, seq<Entry>>, order: seq<string>,
                          both: seq<string>, bothSet: set<string>) returns (del: set<int>, cycles: seq<seq<string>>)
    requires Positioned(v)
    requires forall u :: u in order <==> exists i :: 0 <= i < |v| && v[i].uk == u
    requires forall u :: u in order ==> u in groups && groups[u] == Select(v, EntryUk, u)
    requires bothSet == BothSet(v) && both == ConflictOrder(v)
    ensures cycles == FoundConflictCycles(v)
    ensures del == Deletions(v, m, cycles)
    ensures forall c :: c in cycles ==> IsConflictCycle(v, c)
  {
    cycles := SearchConflicts(v, both, bothSet);
    del := MarkCycles(v, m, cycles);
    var processed := ProcessedStudents(cycles);
    del := PruneDangling(v, groups, order, processed, del);
  }

  /** `byUk` and its enumeration order: every student of v once, each with its rows. */
  method StudentGroups(v: seq<Entry>) returns (groups: map<string, seq<Entry>>, order: seq<string>)
    ensures order == StudentOrder(v)
    ensures forall u :: u in order <==> exists i :: 0 <= i < |v| && v[i].uk == u
    ensures forall u :: u in order ==> u in groups && groups[u] == Select(v, EntryUk, u)
  {
    var keys;
    groups, keys := GroupBy(v, EntryUk);
    order := EnumOrder(keys);
    EnumOrderDistinct(keys);
    forall u ensures u in order <==> exists i :: 0 <= i < |v| && v[i].uk == u {
      KeysHas(v, EntryUk, u);
    }
  }

  /**
   * `step6_resolveCycles`: normalise, find the conflicted students (none:
   * return the table), build the graph, search it for cycles, mark each
   * cycle's victims and the dangling refused rows, filter.
   */
  method ResolveCycles(rows: seq<Row>, caps: seq<CapRow>) returns (out: seq<Row>, cycles: seq<seq<string>>)
    ensures cycles == FoundConflictCycles(Entries(rows)) && out == Resolve(rows, caps)
    ensures forall c :: c in cycles ==> IsConflictCycle(Entries(rows), c)
    ensures BothSet(Entries(rows)) == {} ==> cycles == [] && out == Project(rows, Normalize)
  {
    var df := ProjectEach(rows, Normalize);  // the normalisation pass over the cloned rows
    var v := Entries(rows);
    var m := BuildCapMap(caps);
    var groups, order := StudentGroups(v);
    var both, bothSet := ConflictedStudents(v, groups, order);
    if |both| == 0 {
      assert bothSet == {};
      NoConflictNoChange(rows, caps);
      assert FoundConflictCycles(v) == Collect([], EdgeMap(v), BothSet(v), {});
      return df, [];
    }
    var del;
    del, cycles := ResolveConflicts(v, m, groups, order, both, bothSet);
    out := KeepRowsLoop(df, del);
    assert bothSet != {} by { assert both[0] in bothSet; }
  }
}
