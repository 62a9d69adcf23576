/**
 * Step 1 of web-app/src/logic/allSteps.ts: count the accepted ("ANO")
 * applications per institute and degree bucket, and overwrite the capacity
 * table's BC/MGR/PHD/ALL cells with those counts.
 */
module Occupancy {
  import opened Wrappers
  import opened Cells
  import opened Rows
  import opened Grouping

  datatype Bucket = BC | MGR | PHD

  /** DEGREE_MAP: the exact degree names and their buckets. */
  function DegreeMap(s: string): Option<Bucket>
  {
    if s == "BC" || s == "BSC" || s == "BACHELOR" then Some(BC)
    else if s == "MGR" || s == "MSC" || s == "MASTER" then Some(MGR)
    else if s == "PHD" || s == "DR" || s == "DOCTOR" then Some(PHD)
    else None
  }

  /** `normDegree`: null for a falsy cell, else the bucket named by the upper-cased, trimmed text, if any. */
  function NormDegree(v: Cell): Option<Bucket>
  {
    if Falsy(v) then None else DegreeMap(Trim(Js, Upper(JsString(v))))
  }

  /** Text made of capitals and digits only is looked up as it stands. */
  lemma PlainDegree(s: string)
    requires Plain(s) && s != ""
    ensures NormDegree(Text(s)) == DegreeMap(s)
  {
    PlainFixed(s);
  }

  /** Letter case and surrounding blanks do not matter: the degree is looked up by its trimmed, upper-cased text. */
  lemma DegreeIgnoresCaseAndBlanks(s: string)
    requires Trim(Js, s) != ""
    ensures NormDegree(Text(s)) == NormDegree(Text(Upper(Trim(Js, s))))
  {
    NormalizeTwice(Js, s);
  }

  /**
   * How step 1 sees one application: the institute it counts toward (only
   * an accepted application with a non-empty code counts) and its degree
   * bucket.
   */
  datatype Vote = Vote(target: Option<string>, degree: Option<Bucket>)

  function Classify(r: Row): (v: Vote)
    ensures v.target.Some? <==> IsAno(r) && Code(r) != ""
    ensures v.target.Some? ==> v.target.value == Code(r) && v.target.value != ""
    ensures v.degree == NormDegree(r.degree)
  {
    Vote(if IsAno(r) && Code(r) != "" then Some(Code(r)) else None, NormDegree(r.degree))
  }

  function Classified(rows: seq<Row>): (vs: seq<Vote>)
    ensures |vs| == |rows| && forall i :: 0 <= i < |rows| ==> vs[i] == Classify(rows[i])
  {
    seq(|rows|, i requires 0 <= i < |rows| => Classify(rows[i]))
  }

  datatype Counts = Counts(bc: nat, mgr: nat, phd: nat, all: nat)

  const Zero := Counts(0, 0, 0, 0)

  function Plus(a: Counts, b: Counts): Counts {
    Counts(a.bc + b.bc, a.mgr + b.mgr, a.phd + b.phd, a.all + b.all)
  }

  function Bump(c: Counts, b: Bucket): Counts {
    match b
    case BC => c.(bc := c.bc + 1)
    case MGR => c.(mgr := c.mgr + 1)
    case PHD => c.(phd := c.phd + 1)
  }

  /** One more application in all, and one more in its degree's bucket, if it has one. */
  function AddOne(c: Counts, d: Option<Bucket>): Counts {
    var c1 := c.(all := c.all + 1);
    match d
    case Some(b) => Bump(c1, b)
    case None => c1
  }

  /** What one application adds to the counts of institute `code`. */
  function Count(c: Counts, v: Vote, code: string): Counts {
    if v.target == Some(code) then AddOne(c, v.degree) else c
  }

  /**
   * The occupancy of institute `code` after reading `votes`: each counted
   * application adds one to ALL and at most one to a bucket, so the
   * buckets together never exceed ALL.
   */
  function Tally(votes: seq<Vote>, code: string): (t: Counts)
    ensures t.bc + t.mgr + t.phd <= t.all
  {
    if votes == [] then Zero
    else Count(Tally(votes[..|votes| - 1], code), votes[|votes| - 1], code)
  }

  lemma PlusZero(x: Counts)
    ensures Plus(x, Zero) == x
  {
  }

  lemma CountPlus(x: Counts, y: Counts, v: Vote, code: string)
    ensures Count(Plus(x, y), v, code) == Plus(x, Count(y, v, code))
  {
    match v.degree {
      case Some(b) =>
      case None =>
    }
  }

  /** Counting is additive: the applications can be read in two batches and the counts summed. */
  lemma {:induction false} TallyAppend(a: seq<Vote>, b: seq<Vote>, code: string)
    ensures Tally(a + b, code) == Plus(Tally(a, code), Tally(b, code))
    decreases |b|
  {
    if b == [] {
      assert a + b == a;
      PlusZero(Tally(a, code));
    } else {
      var b' := b[..|b| - 1];
      var v := b[|b| - 1];
      assert (a + b)[..|a + b| - 1] == a + b';
      assert (a + b)[|a + b| - 1] == v;
      calc {
        Tally(a + b, code);
        Count(Tally(a + b', code), v, code);
        { TallyAppend(a, b', code); }
        Count(Plus(Tally(a, code), Tally(b', code)), v, code);
        { CountPlus(Tally(a, code), Tally(b', code), v, code); }
        Plus(Tally(a, code), Count(Tally(b', code), v, code));
        Plus(Tally(a, code), Tally(b, code));
      }
    }
  }

  /** An empty code collects nothing: no application counts toward it. */
  lemma {:induction false} EmptyCodeCountsNothing(rows: seq<Row>)
    ensures Tally(Classified(rows), "") == Zero
  {
    if rows != [] {
      EmptyCodeCountsNothing(rows[..|rows| - 1]);
      assert Classified(rows)[..|rows| - 1] == Classified(rows[..|rows| - 1]);
    }
  }

  lemma TallyNext(votes: seq<Vote>, i: int, code: string)
    requires 0 <= i < |votes|
    ensures Tally(votes[..i + 1], code) == Count(Tally(votes[..i], code), votes[i], code)
  {
    assert votes[..i + 1][..i] == votes[..i];
  }

  /** The votes for institute `code`. */
  function VotesFor(code: string): Vote -> bool {
    (v: Vote) => v.target == Some(code)
  }

  /** ALL counts exactly the applications counted toward the institute. */
  lemma {:induction false} TallyAllCounts(votes: seq<Vote>, code: string)
    ensures Tally(votes, code).all == |Filter(votes, VotesFor(code))|
    decreases |votes|
  {
    if votes != [] {
      TallyAllCounts(votes[..|votes| - 1], code);
    }
  }

  /** The occupancy dictionary holds exactly the institutes with a counted application, with their tallies. */
  ghost predicate Counted(counts: map<string, Counts>, votes: seq<Vote>) {
    forall code :: (code in counts <==> Tally(votes, code).all > 0) && (code in counts ==> counts[code] == Tally(votes, code))
  }

  /** The dictionary entry for `code`, zero when there is none. */
  function Occ(counts: map<string, Counts>, code: string): Counts {
    if code in counts then counts[code] else Zero
  }

  /** Reading the dictionary, with zero for a missing code, gives the tally. */
  lemma OccIsTally(counts: map<string, Counts>, votes: seq<Vote>, code: string)
    requires Counted(counts, votes)
    ensures Occ(counts, code) == Tally(votes, code)
  {
  }

  /** Processing votes[i] keeps the dictionary in step with the prefix read so far. */
  lemma CountedNext(counts: map<string, Counts>, votes: seq<Vote>, i: int)
    requires 0 <= i < |votes|
    requires Counted(counts, votes[..i])
    ensures var v := votes[i];
            Counted(if v.target.Some? then counts[v.target.value := Count(Occ(counts, v.target.value), v, v.target.value)] else counts,
                    votes[..i + 1])
  {
    var v := votes[i];
    var counts' := if v.target.Some? then counts[v.target.value := Count(Occ(counts, v.target.value), v, v.target.value)] else counts;
    forall k
      ensures (k in counts' <==> Tally(votes[..i + 1], k).all > 0) && (k in counts' ==> counts'[k] == Tally(votes[..i + 1], k))
    {
      TallyNext(votes, i, k);
    }
  }

  /** The counting loop of `step1_computeOccupancy`: the occupancy dictionary keyed by code. */
  method CountOccupancy(appRows: seq<Row>) returns (counts: map<string, Counts>)
    ensures Counted(counts, Classified(appRows))
  {
    ghost var votes := Classified(appRows);
    counts := map[];
    var i := 0;
    while i < |appRows|
      invariant 0 <= i <= |appRows|
      invariant Counted(counts, votes[..i])
    {
      var r := appRows[i];
      CountedNext(counts, votes, i);
      if IsAno(r) && Code(r) != "" {
        var code := Code(r);
        var c := Occ(counts, code);
        c := c.(all := c.all + 1);
        match NormDegree(r.degree) {
          case Some(b) => c := Bump(c, b);
          case None =>
        }
        counts := counts[code := c];
      }
      i := i + 1;
    }
    assert votes[..i] == votes;
  }

  /** The counters of one capacity row replaced by the occupancy numbers. */
  function Overwrite(row: CapRow, c: Counts): CapRow {
    row.(bc := Number(c.bc), mgr := Number(c.mgr), phd := Number(c.phd), all := Number(c.all))
  }

  /** The capacity table after step 1: same rows, counters replaced by the counts for each row's code. */
  function Adjusted(capRows: seq<CapRow>, appRows: seq<Row>): (adj: seq<CapRow>)
    ensures |adj| == |capRows|
    ensures forall i :: 0 <= i < |capRows| ==> adj[i] == Overwrite(capRows[i], Tally(Classified(appRows), CapCode(capRows[i])))
  {
    seq(|capRows|, i requires 0 <= i < |capRows| => Overwrite(capRows[i], Tally(Classified(appRows), CapCode(capRows[i]))))
  }

  /** Step 1 leaves the code and every other column of each capacity row as it was, and its ALL bounds the buckets. */
  lemma AdjustedRows(capRows: seq<CapRow>, appRows: seq<Row>, i: int)
    requires 0 <= i < |capRows|
    ensures Adjusted(capRows, appRows)[i].code == capRows[i].code
    ensures Adjusted(capRows, appRows)[i].extra == capRows[i].extra
    ensures Adjusted(capRows, appRows)[i].bc.n + Adjusted(capRows, appRows)[i].mgr.n
         + Adjusted(capRows, appRows)[i].phd.n <= Adjusted(capRows, appRows)[i].all.n
  {
  }

  /** The `capRows.map` callback: a row's counters replaced by the dictionary entry for its code. */
  function OverwriteFrom(counts: map<string, Counts>): CapRow -> CapRow {
    row => Overwrite(row, Occ(counts, CapCode(row)))
  }

  /** `step1_computeOccupancy`: the counting loop over the applications, then the overwrite. */
  method ComputeOccupancy(capRows: seq<CapRow>, appRows: seq<Row>) returns (adjusted: seq<CapRow>)
    ensures adjusted == Adjusted(capRows, appRows)
  {
    var counts := CountOccupancy(appRows);
    adjusted := ProjectEach(capRows, OverwriteFrom(counts));
    forall i | 0 <= i < |capRows| ensures adjusted[i] == Adjusted(capRows, appRows)[i] {
      OccIsTally(counts, Classified(appRows), CapCode(capRows[i]));
    }
  }

  /** A single application: its tally is what it adds to zero counts. */
  lemma TallyOne(v: Vote, code: string)
    ensures Tally([v], code) == Count(Zero, v, code)
  {
    assert [v][..0] == [];
  }

  /** The worked example, for any spelling of the cells: one accepted bachelor at an institute turns its counters into BC 1, MGR 0, PHD 0, ALL 1. */
  lemma OneAcceptedBachelor(cap: CapRow, app: Row)
    requires IsAno(app) && Code(app) != "" && Code(app) == CapCode(cap)
    requires NormDegree(app.degree) == Some(BC)
    ensures Adjusted([cap], [app]) == [Overwrite(cap, Counts(1, 0, 0, 1))]
  {
    var v := Classify(app);
    assert Classified([app]) == [v];
    assert v == Vote(Some(CapCode(cap)), Some(BC));
    TallyOne(v, CapCode(cap));
    var t := Tally([v], CapCode(cap));
    assert t == Counts(1, 0, 0, 1);
  }
}
