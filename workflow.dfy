/**
 * The step runners of web-app/src/App.tsx: `runStep`, which advances the
 * workflow one step at a time through the page's state, and `runAll`,
 * which runs steps 1 and 2 once and then repeats steps 3 to 6 until
 * step 6 deletes nothing. The page state the runners touch is the class
 * `App`; its fields are the React state variables of the same names.
 */
module Workflow {
  import opened Cells
  import opened Rows
  import opened Grouping
  import Occupancy
  import DuplicateFilter
  import OrderNormalizer
  import CapacitySelector
  import NominationUpdater
  import ConflictGraph
  import CycleResolution

  /**
   * Steps 3 to 5 of one round: renumber the ranks, select by capacity,
   * update the flags. The working table keeps its length and every
   * selected row comes out nominated.
   */
  function Round(w: seq<Row>, adj: seq<CapRow>): (out: (seq<Row>, seq<Row>))
    ensures |out.0| == |w|
    ensures forall i :: 0 <= i < |out.1| ==> out.1[i].flag == Text("ANO")
  {
    var norm := OrderNormalizer.NormalizeOrdering(w);
    var sel := CapacitySelector.BuildResultTable(norm, adj);
    OrderNormalizer.NormalizeOrderingPerm(w);
    (NominationUpdater.UpdateWork(norm, sel), NominationUpdater.UpdateResult(sel))
  }

  /** A step 6 that deletes no row only normalises the table. */
  lemma UnshrunkIsNormalized(rows: seq<Row>, caps: seq<CapRow>)
    requires |CycleResolution.Resolve(rows, caps)| == |rows|
    ensures CycleResolution.Resolve(rows, caps) == Project(rows, ConflictGraph.Normalize)
  {
    CycleResolution.ResolveShrinks(rows, caps);
    var cycles := ConflictGraph.FoundConflictCycles(ConflictGraph.Entries(rows));
    CycleResolution.KeepRowsUnchanged(Project(rows, ConflictGraph.Normalize), CycleResolution.Deletions(ConflictGraph.Entries(rows), CapacitySelector.CapMap(caps), cycles));
  }

  /**
   * The state `runAll` ends in: `res` is the result of the last round run
   * on `w`, and `out`, its step-6 output, lost no row, so it is the
   * step-5 output with the flag, rank and priority cells normalised.
   */
  ghost predicate Settled(w: seq<Row>, adj: seq<CapRow>, out: seq<Row>, res: seq<Row>) {
    var r := Round(w, adj);
    res == r.1 && out == Project(r.0, ConflictGraph.Normalize)
  }

  /** What the `while (!done)` loop of `runAll` ends with: the working table, the result table, the iteration count. */
  datatype Run = Run(work: seq<Row>, result: seq<Row>, iterations: int)

  /**
   * The rounds of `runAll` from the working table w. A round whose step 6
   * deletes a row is followed by another.
   */
  function RunFrom(w: seq<Row>, adj: seq<CapRow>): Run
    decreases |w|
  {
    var out := Resolved(w, adj);
    if |out| < |w| then
      var next := RunFrom(out, adj);
      next.(iterations := next.iterations + 1)
    else
      Run(out, Round(w, adj).1, 1)
  }

  /** The working table after one round of steps 3 to 6. */
  function Resolved(w: seq<Row>, adj: seq<CapRow>): seq<Row> {
    CycleResolution.Resolve(Round(w, adj).0, adj)
  }

  /** The working table one round of steps 3 to 6 leaves. */
  lemma ResolvedIs(w: seq<Row>, adj: seq<CapRow>, work: seq<Row>, resolved: seq<Row>)
    requires work == Round(w, adj).0 && resolved == CycleResolution.Resolve(work, adj)
    ensures resolved == Resolved(w, adj)
  {
  }

  /** The loop state after k rounds that deleted rows, the rounds from w still to come. */
  predicate Later(whole: Run, rest: Run, k: int) {
    whole.work == rest.work && whole.result == rest.result && whole.iterations == rest.iterations + k
  }

  /** After k rounds that deleted rows, one more such round. */
  lemma {:induction false} RunFromAdvance(start: seq<Row>, adj: seq<CapRow>, w: seq<Row>, resolved: seq<Row>, k: int)
    requires resolved == Resolved(w, adj) && |resolved| < |w|
    requires Later(RunFrom(start, adj), RunFrom(w, adj), k)
    ensures Later(RunFrom(start, adj), RunFrom(resolved, adj), k + 1)
  {
  }

  /** After k rounds that deleted rows, a round that deletes none ends the loop. */
  lemma {:induction false} RunFromFinish(start: seq<Row>, adj: seq<CapRow>, w: seq<Row>, res: seq<Row>, resolved: seq<Row>, k: int)
    requires res == Round(w, adj).1 && resolved == Resolved(w, adj) && |resolved| >= |w|
    requires Later(RunFrom(start, adj), RunFrom(w, adj), k)
    ensures Later(RunFrom(start, adj), Run(resolved, res, 1), k)
  {
  }

  /**
   * The loop ends settled: its tables are those of a round that deleted
   * nothing, every result row is nominated, and the iteration count
   * exceeds by one at most the number of rows the rounds deleted.
   */
  lemma {:induction false} RunFromSettles(w: seq<Row>, adj: seq<CapRow>)
    ensures var r := RunFrom(w, adj);
            1 <= r.iterations && r.iterations - 1 <= |w| - |r.work|
            && (forall i :: 0 <= i < |r.result| ==> r.result[i].flag == Text("ANO"))
            && exists last :: Settled(last, adj, r.work, r.result)
    decreases |w|
  {
    var r := Round(w, adj);
    var out := Resolved(w, adj);
    CycleResolution.ResolveShrinks(r.0, adj);
    if |out| < |w| {
      RunFromSettles(out, adj);
    } else {
      UnshrunkIsNormalized(r.0, adj);
      assert Settled(w, adj, out, r.1);
    }
  }

  /** `step6_resolveCycles` as the runners see it: it never adds a row, and deleting none only normalises. */
  method ResolveStep(w: seq<Row>, adj: seq<CapRow>) returns (out: seq<Row>)
    ensures out == CycleResolution.Resolve(w, adj)
    ensures |out| <= |w|
    ensures |out| == |w| ==> out == Project(w, ConflictGraph.Normalize)
  {
    var cycles;
    out, cycles := CycleResolution.ResolveCycles(w, adj);
    CycleResolution.ResolveShrinks(w, adj);
    if |out| == |w| {
      UnshrunkIsNormalized(w, adj);
    }
  }

  /** Steps 3, 4 and 5 as `runAll` runs them in one round. */
  method RoundSteps(w: seq<Row>, adj: seq<CapRow>) returns (work: seq<Row>, res: seq<Row>)
    ensures (work, res) == Round(w, adj)
  {
    var norm := OrderNormalizer.NormalizeOrderingLoop(w);
    var sel := CapacitySelector.BuildResultTableLoop(norm, adj);
    work := NominationUpdater.UpdateWork(norm, sel);
    res := NominationUpdater.UpdateResult(sel);
  }

  /** One pass of the loop body of `runAll`: steps 3 to 5, then step 6 on their output. */
  method Turn(w: seq<Row>, adj: seq<CapRow>) returns (work: seq<Row>, res: seq<Row>, resolved: seq<Row>)
    ensures work == Round(w, adj).0 && res == Round(w, adj).1 && |work| == |w|
    ensures resolved == Resolved(w, adj) && |resolved| <= |work|
  {
    work, res := RoundSteps(w, adj);
    resolved := ResolveStep(work, adj);
    ResolvedIs(w, adj, work, resolved);
  }

  /**
   * The `while (!done)` loop of `runAll`: rounds of steps 3 to 6 from the
   * working table `start` until a step 6 deletes nothing. Each round that
   * goes on has deleted a row, so the loop ends and `iter - 1`, the number
   * of such rounds, is at most the number of rows deleted.
   */
  method Rounds(start: seq<Row>, adj: seq<CapRow>) returns (w: seq<Row>, res: seq<Row>, iter: int)
    ensures Run(w, res, iter) == RunFrom(start, adj)
    ensures 1 <= iter && iter - 1 <= |start| - |w|
    ensures forall i :: 0 <= i < |res| ==> res[i].flag == Text("ANO")
    ensures exists last :: Settled(last, adj, w, res)
  {
    w := start;
    iter := 1;
    var done := false;
    res := [];
    while !done
      invariant done ==> Later(RunFrom(start, adj), Run(w, res, iter), 0)
      invariant !done ==> Later(RunFrom(start, adj), RunFrom(w, adj), iter - 1)
      decreases |w| + (if done then 0 else 1)
    {
      ghost var before := w;
      var work, resolved;
      work, res, resolved := Turn(w, adj);
      var len := |work|;
      if len - |resolved| > 0 {
        RunFromAdvance(start, adj, before, resolved, iter - 1);
        iter := iter + 1;
      } else {
        RunFromFinish(start, adj, before, res, resolved, iter - 1);
        done := true;
      }
      w := resolved;
    }
    assert Run(w, res, iter) == RunFrom(start, adj);
    RunFromSettles(start, adj);
  }

  /**
   * What `runAll` computes from the two raw tables: step 1, step 2, then
   * the rounds until a step 6 deletes nothing.
   */
  method Pipeline(capRaw: seq<CapRow>, appRaw: seq<Row>) returns (adj: seq<CapRow>, w: seq<Row>, res: seq<Row>, iter: int)
    ensures adj == Occupancy.Adjusted(capRaw, appRaw)
    ensures Run(w, res, iter) == RunFrom(DuplicateFilter.FilterDuplicates(appRaw), adj)
    ensures 1 <= iter && iter - 1 <= |DuplicateFilter.FilterDuplicates(appRaw)| - |w|
    ensures forall i :: 0 <= i < |res| ==> res[i].flag == Text("ANO")
    ensures exists last :: Settled(last, adj, w, res)
  {
    adj := Occupancy.ComputeOccupancy(capRaw, appRaw);
    w := DuplicateFilter.FilterDuplicatesLoop(appRaw);
    w, res, iter := Rounds(w, adj);
  }

  /** The React state the step runners read and set. */
  class App {
    var capRaw: seq<CapRow>
    var appRaw: seq<Row>
    var capAdj: seq<CapRow>
    var working: seq<Row>
    var result: seq<Row>
    var step: int
    var iteration: int
    var finished: bool
    var error: string

    /** The initial state with both tables loaded. */
    constructor (capRaw: seq<CapRow>, appRaw: seq<Row>)
      ensures this.capRaw == capRaw && this.appRaw == appRaw
      ensures capAdj == [] && working == [] && result == []
      ensures step == 0 && iteration == 1 && !finished && error == ""
    {
      this.capRaw := capRaw;
      this.appRaw := appRaw;
      capAdj := [];
      working := [];
      result := [];
      step := 0;
      iteration := 1;
      finished := false;
      error := "";
    }

    /** `nextStepNum`: the step the next button runs. */
    function NextStep(): int
      reads this
    {
      if step == 0 then 1 else step + 1
    }

    /**
     * `runStep(n)`: the error is cleared and step n run on the current
     * state. Step 1 fixes the adjusted capacities and copies the raw
     * applications; steps 2, 3 and 5 replace the working table, step 4
     * the result; a step 6 that deletes rows goes back to step 3 of a new
     * iteration, one that deletes none finishes the workflow. Any other n
     * changes nothing else.
     */
    method RunStep(n: int)
      modifies this
      ensures error == "" && capRaw == old(capRaw) && appRaw == old(appRaw)
      ensures n == 1 ==> capAdj == Occupancy.Adjusted(capRaw, appRaw) && working == appRaw && step == 1
                         && result == old(result) && iteration == old(iteration) && finished == old(finished)
      ensures n == 2 ==> working == DuplicateFilter.FilterDuplicates(old(working)) && step == 2
                         && capAdj == old(capAdj) && result == old(result) && iteration == old(iteration) && finished == old(finished)
      ensures n == 3 ==> working == OrderNormalizer.NormalizeOrdering(old(working)) && step == 3
                         && capAdj == old(capAdj) && result == old(result) && iteration == old(iteration) && finished == old(finished)
      ensures n == 4 ==> result == CapacitySelector.BuildResultTable(old(working), old(capAdj)) && step == 4
                         && capAdj == old(capAdj) && working == old(working) && iteration == old(iteration) && finished == old(finished)
      ensures n == 5 ==> working == NominationUpdater.UpdateWork(old(working), old(result))
                         && result == NominationUpdater.UpdateResult(old(result)) && step == 5
                         && capAdj == old(capAdj) && iteration == old(iteration) && finished == old(finished)
      ensures n == 6 ==> capAdj == old(capAdj) && result == old(result) && |working| <= |old(working)|
                         && working == CycleResolution.Resolve(old(working), old(capAdj))
      ensures n == 6 && |working| < |old(working)| ==>
                step == 2 && NextStep() == 3 && iteration == old(iteration) + 1 && finished == old(finished)
      ensures n == 6 && |working| == |old(working)| ==>
                step == 6 && finished && iteration == old(iteration)
                && working == Project(old(working), ConflictGraph.Normalize)
      ensures !(1 <= n <= 6) ==> capAdj == old(capAdj) && working == old(working) && result == old(result)
                                 && step == old(step) && iteration == old(iteration) && finished == old(finished)
    {
      var adj, w, res, st, iter, fin := capAdj, working, result, step, iteration, finished;
      if n == 1 {
        adj := Occupancy.ComputeOccupancy(capRaw, appRaw);
        w := appRaw;
        st := 1;
      } else if n == 2 {
        w := DuplicateFilter.FilterDuplicatesLoop(working);
        st := 2;
      } else if n == 3 {
        w := OrderNormalizer.NormalizeOrderingLoop(working);
        st := 3;
      } else if n == 4 {
        res := CapacitySelector.BuildResultTableLoop(working, capAdj);
        st := 4;
      } else if n == 5 {
        w := NominationUpdater.UpdateWork(working, result);
        res := NominationUpdater.UpdateResult(result);
        st := 5;
      } else if n == 6 {
        var before := |working|;
        w := ResolveStep(working, capAdj);
        var diff := before - |w|;
        if diff > 0 {
          iter := iter + 1;
          st := 2;
        } else {
          fin := true;
          st := 6;
        }
      }
      Set(adj, w, res, st, iter, fin);
    }

    /** The state setters a runner calls, the error cleared with them. */
    method Set(adj: seq<CapRow>, w: seq<Row>, res: seq<Row>, st: int, iter: int, fin: bool)
      modifies this
      ensures capAdj == adj && working == w && result == res && step == st && iteration == iter && finished == fin
      ensures error == "" && capRaw == old(capRaw) && appRaw == old(appRaw)
    {
      error := "";
      capAdj := adj;
      working := w;
      result := res;
      step := st;
      iteration := iter;
      finished := fin;
    }

    /**
     * `runAll`: steps 1 and 2 once, then rounds of steps 3 to 6 until a
     * step 6 deletes nothing. Every round but the last deletes a row, so
     * the loop ends, and the iteration count exceeds by one at most the
     * number of rows step 2 left and the run then removed. The final
     * working and result tables are those of a round that deleted nothing,
     * with every result row nominated.
     */
    method RunAll()
      modifies this
      ensures error == "" && finished && step == 6 && capRaw == old(capRaw) && appRaw == old(appRaw)
      ensures capAdj == Occupancy.Adjusted(capRaw, appRaw)
      ensures Run(working, result, iteration) == RunFrom(DuplicateFilter.FilterDuplicates(appRaw), capAdj)
      ensures 1 <= iteration && iteration - 1 <= |DuplicateFilter.FilterDuplicates(appRaw)| - |working|
      ensures forall i :: 0 <= i < |result| ==> result[i].flag == Text("ANO")
      ensures exists w :: Settled(w, capAdj, working, result)
    {
      var adj, w, res, iter := Pipeline(capRaw, appRaw);
      Set(adj, w, res, 6, iter, true);
    }
  }
}
