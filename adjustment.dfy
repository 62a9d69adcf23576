/**
 * web-app/src/logic/computeOccupancy.ts: parse the capacity table and the
 * applications, count the accepted applications per institute and degree
 * level, and subtract those counts from the capacities, never going below
 * zero. Unlike step 1 of the pipeline it matches degree names by
 * substring and keeps the capacities as the room left.
 */
module CapacityAdjustment {
  import opened Wrappers
  import opened Cells
  import opened Rows
  import opened Grouping
  import opened Occupancy

  // ------------------------------------------------------- degree level

  /** `normalizeDegree`'s answer: one of the three buckets, or "ALL". */
  datatype Level = Degree(bucket: Bucket) | ALL

  /** x occurs in s at offset i. */
  predicate OccursAt(s: string, x: string, i: int) {
    0 <= i <= |s| - |x| && s[i..i + |x|] == x
  }

  /** `s.includes(x)`. */
  predicate Contains(s: string, x: string) {
    exists i :: 0 <= i <= |s| - |x| && OccursAt(s, x, i)
  }

  /** `["BC", "BACHELOR", "UNDERGRADUATE"].some(x => s.includes(x))`. */
  predicate MentionsBc(s: string) {
    Contains(s, "BC") || Contains(s, "BACHELOR") || Contains(s, "UNDERGRADUATE")
  }

  /** `["MGR", "MASTER", "GRADUATE"].some(x => s.includes(x))`. */
  predicate MentionsMgr(s: string) {
    Contains(s, "MGR") || Contains(s, "MASTER") || Contains(s, "GRADUATE")
  }

  /** `["PHD", "DOCTORAL", "DOCTOR", "DR"].some(x => s.includes(x))`. */
  predicate MentionsPhd(s: string) {
    Contains(s, "PHD") || Contains(s, "DOCTORAL") || Contains(s, "DOCTOR") || Contains(s, "DR")
  }

  /** `String(value).toUpperCase().trim()`. */
  function DegreeText(v: Cell): string {
    Trim(Js, Upper(JsString(v)))
  }

  /** `normalizeDegree`: the first word list with a word inside the text decides; falsy or unmatched text is "ALL". */
  function NormalizeDegree(v: Cell): Level {
    if Falsy(v) then ALL
    else
      var s := DegreeText(v);
      if MentionsBc(s) then Degree(BC)
      else if MentionsMgr(s) then Degree(MGR)
      else if MentionsPhd(s) then Degree(PHD)
      else ALL
  }

  /** The bucket a level is counted in; "ALL" is counted in none. */
  function LevelBucket(l: Level): Option<Bucket> {
    match l
    case Degree(b) => Some(b)
    case ALL => None
  }

  /** Capital letters, nothing else. */
  predicate Capitals(w: string) {
    forall k :: 0 <= k < |w| ==> 'A' <= w[k] <= 'Z'
  }

  /** Trimming the left end keeps an occurrence of a word not starting with white space, shifted. */
  lemma TrimLeftKeeps(s: string, w: string, i: int)
    requires w != [] && !IsSpace(Js, w[0]) && OccursAt(s, w, i)
    ensures OccursAt(TrimLeft(Js, s), w, i - (|s| - |TrimLeft(Js, s)|))
  {
    var l := TrimLeft(Js, s);
    var d := |s| - |l|;
    assert s[i] == w[0];
    assert !IsSpace(Js, s[i]);
    assert d <= i;
    assert l[i - d..i - d + |w|] == s[i..i + |w|];
  }

  /** Trimming the right end keeps an occurrence of a word not ending with white space. */
  lemma TrimRightKeeps(l: string, w: string, j: int)
    requires w != [] && !IsSpace(Js, w[|w| - 1]) && OccursAt(l, w, j)
    ensures OccursAt(TrimRight(Js, l), w, j)
  {
    var r := TrimRight(Js, l);
    assert l[j + |w| - 1] == w[|w| - 1];
    assert j + |w| <= |r|;
    assert r[j..j + |w|] == l[j..j + |w|];
  }

  /** A word of capitals that occurs in a text still occurs once the text is trimmed. */
  lemma TrimKeepsWord(s: string, w: string)
    requires w != [] && Capitals(w)
    requires Contains(s, w)
    ensures Contains(Trim(Js, s), w)
  {
    var i :| 0 <= i <= |s| - |w| && OccursAt(s, w, i);
    var l := TrimLeft(Js, s);
    TrimLeftKeeps(s, w, i);
    TrimRightKeeps(l, w, i - (|s| - |l|));
  }

  /** A word of capitals occurs in the upper-cased, trimmed text of any cell spelling it out. */
  lemma WordSurvives(pre: string, w: string, post: string)
    requires w != [] && Capitals(w)
    ensures !Falsy(Text(pre + w + post))
    ensures Contains(DegreeText(Text(pre + w + post)), w)
  {
    var s := Upper(pre + w + post);
    assert OccursAt(s, w, |pre|);
    TrimKeepsWord(s, w);
    assert |pre + w + post| > 0;
  }

  /** Every word of the three lists is written in capitals. */
  lemma ListedWord(w: string)
    requires w in ["BC", "BACHELOR", "UNDERGRADUATE", "MGR", "MASTER", "GRADUATE", "PHD", "DOCTORAL", "DOCTOR", "DR"]
    ensures w != [] && Capitals(w)
  {
  }

  /**
   * A text mentioning a bachelor's word anywhere, in any letter case and
   * surrounded by anything, is a bachelor's application, whatever else it
   * mentions: the lists are tried in order.
   */
  lemma MentionedBachelor(pre: string, w: string, post: string)
    requires w == "BC" || w == "BACHELOR" || w == "UNDERGRADUATE"
    ensures NormalizeDegree(Text(pre + w + post)) == Degree(BC)
  {
    ListedWord(w);
    WordSurvives(pre, w, post);
  }

  /** A text mentioning a master's word and no bachelor's word is a master's application. */
  lemma MentionedMaster(pre: string, w: string, post: string)
    requires w == "MGR" || w == "MASTER" || w == "GRADUATE"
    requires !MentionsBc(DegreeText(Text(pre + w + post)))
    ensures NormalizeDegree(Text(pre + w + post)) == Degree(MGR)
  {
    ListedWord(w);
    WordSurvives(pre, w, post);
    assert MentionsMgr(DegreeText(Text(pre + w + post)));
  }

  /** A text mentioning a doctoral word and neither a bachelor's nor a master's word is a doctoral application. */
  lemma MentionedDoctoral(pre: string, w: string, post: string)
    requires w == "PHD" || w == "DOCTORAL" || w == "DOCTOR" || w == "DR"
    requires !MentionsBc(DegreeText(Text(pre + w + post)))
    requires !MentionsMgr(DegreeText(Text(pre + w + post)))
    ensures NormalizeDegree(Text(pre + w + post)) == Degree(PHD)
  {
    ListedWord(w);
    WordSurvives(pre, w, post);
    assert MentionsPhd(DegreeText(Text(pre + w + post)));
  }

  /** A letter every listed word contains one of. */
  predicate KeyLetter(c: char) {
    c == 'B' || c == 'D' || c == 'G' || c == 'T'
  }

  /** A word with a key letter does not occur in a text without one. */
  lemma AbsentWord(s: string, w: string, j: int)
    requires 0 <= j < |w| && KeyLetter(w[j])
    requires forall k :: 0 <= k < |s| ==> !KeyLetter(s[k])
    ensures !Contains(s, w)
  {
    forall i | 0 <= i <= |s| - |w| ensures !OccursAt(s, w, i) {
      if OccursAt(s, w, i) {
        LetterAt(s, w, i, j);
        assert false;
      }
    }
  }

  lemma LetterAt(s: string, w: string, i: int, j: int)
    requires OccursAt(s, w, i) && 0 <= j < |w|
    ensures s[i + j] == w[j]
  {
    assert s[i..i + |w|][j] == s[i + j];
  }

  /** A text with none of the letters B, D, G, T mentions no word of the three lists. */
  lemma UnlistedLetters(s: string)
    requires forall k :: 0 <= k < |s| ==> !KeyLetter(s[k])
    ensures !MentionsBc(s) && !MentionsMgr(s) && !MentionsPhd(s)
  {
    AbsentWord(s, "BC", 0);
    AbsentWord(s, "BACHELOR", 0);
    AbsentWord(s, "UNDERGRADUATE", 2);
    AbsentWord(s, "MGR", 1);
    AbsentWord(s, "MASTER", 3);
    AbsentWord(s, "GRADUATE", 0);
    AbsentWord(s, "PHD", 2);
    AbsentWord(s, "DOCTORAL", 0);
    AbsentWord(s, "DOCTOR", 0);
    AbsentWord(s, "DR", 0);
  }

  /** Step 1's exact lookup reads "MSC" as a master's degree. */
  lemma MscIsMaster()
    ensures NormDegree(Text("MSC")) == Some(MGR)
  {
    PlainDegree("MSC");
  }

  /** The word lists here read "MSC" as "ALL": the two degree readers disagree. */
  lemma MscIsAll()
    ensures NormalizeDegree(Text("MSC")) == ALL
  {
    MscText();
    assert forall k :: 0 <= k < |"MSC"| ==> !KeyLetter("MSC"[k]);
    UnlistedLetters(DegreeText(Text("MSC")));
  }

  lemma MscText()
    ensures DegreeText(Text("MSC")) == "MSC"
  {
    assert JsString(Text("MSC")) == "MSC";
    PlainFixed("MSC");
  }

  // ------------------------------------------------------------ parsing

  /** `String(v || dflt)`. */
  function OrText(c: Cell, dflt: string): string {
    if Falsy(c) then dflt else JsString(c)
  }

  /** `parseInt(v || "<dflt>", 10)`; NaN is None. */
  function ParseIntOr(c: Cell, dflt: int): Option<int> {
    if Falsy(c) then Some(dflt) else ParseIntCell(c)
  }

  /** `InstituteCapacity`: the trimmed code, the four counters as parsed (None for NaN), and the row. */
  datatype Capacity = Capacity(code: string, bc: Option<int>, mgr: Option<int>, phd: Option<int>, all: Option<int>, original: CapRow)

  function ParseCapacity(row: CapRow): Capacity {
    Capacity(Trim(Js, OrText(row.code, "")), ParseIntOr(row.bc, 0), ParseIntOr(row.mgr, 0), ParseIntOr(row.phd, 0),
             ParseIntOr(row.all, 0), row)
  }

  predicate HasInstitute(c: Capacity) { c.code != "" }

  predicate RowHasInstitute(row: CapRow) { Trim(Js, OrText(row.code, "")) != "" }

  /** `capacitiesRaw.map(...).filter(c => c.instituteCode)`. */
  function Capacities(raw: seq<CapRow>): seq<Capacity> {
    Filter(Project(raw, ParseCapacity), HasInstitute)
  }

  /** The parsed capacities are the rows with a non-blank code, parsed, in their order. */
  lemma CapacitiesKeepCodedRows(raw: seq<CapRow>)
    ensures Capacities(raw) == Project(Filter(raw, RowHasInstitute), ParseCapacity)
  {
    FilterProject(raw, ParseCapacity, HasInstitute, RowHasInstitute);
  }

  /** `StudentApplication`, as parsed. */
  datatype Application = Application(id: string, ukId: string, target: string, level: Level, nominated: bool,
                                     priority: Option<int>, rank: int, original: Row)

  /** The id of the application read from row `index`. */
  function RowId(index: nat): string {
    "row-" + NatToString(index)
  }

  function ParseApplication(row: Row, index: nat): Application {
    Application(RowId(index), Trim(Js, OrText(row.uk, "")), Trim(Js, OrText(row.code, "")), NormalizeDegree(row.degree),
                Trim(Js, Upper(JsString(row.flag))) == "ANO", ParseIntOr(row.priority, 999), 0, row)
  }

  /** `parsedApplications`: one application per row, in order. */
  function Parsed(raw: seq<Row>): (apps: seq<Application>)
    ensures |apps| == |raw|
    ensures forall i :: 0 <= i < |raw| ==> apps[i].id == RowId(i) && apps[i].rank == 0 && apps[i].original == raw[i]
  {
    seq(|raw|, i requires 0 <= i < |raw| => ParseApplication(raw[i], i))
  }

  /** The row index can be read back from an application's id, so ids are unique. */
  lemma RowIdRoundTrip(index: nat)
    ensures |RowId(index)| > 4 && RowId(index)[..4] == "row-"
    ensures DigitsValue(RowId(index)[4..]) == index
  {
    assert RowId(index)[4..] == NatToString(index);
    NatToStringRoundTrip(index);
  }

  lemma ParsedIdsUnique(raw: seq<Row>, i: int, j: int)
    requires 0 <= i < |raw| && 0 <= j < |raw| && i != j
    ensures Parsed(raw)[i].id != Parsed(raw)[j].id
  {
    RowIdRoundTrip(i);
    RowIdRoundTrip(j);
  }

  /** A falsy priority cell parses as 999, the lowest priority; a positive number stays itself. */
  lemma ParsedPriority(raw: seq<Row>, i: int)
    requires 0 <= i < |raw|
    ensures Falsy(raw[i].priority) ==> Parsed(raw)[i].priority == Some(999)
    ensures raw[i].priority.Number? && raw[i].priority.n > 0 ==> Parsed(raw)[i].priority == Some(raw[i].priority.n)
  {
    assert Parsed(raw)[i].priority == ParseIntOr(raw[i].priority, 999);
  }

  /** An application is nominated exactly when its flag cell reads "ANO" once upper-cased and trimmed. */
  lemma ParsedNominated(raw: seq<Row>, i: int)
    requires 0 <= i < |raw|
    ensures Parsed(raw)[i].nominated <==> Trim(Js, Upper(JsString(raw[i].flag))) == "ANO"
  {
    assert Parsed(raw)[i].nominated == (Trim(Js, Upper(JsString(raw[i].flag))) == "ANO");
  }

  // ---------------------------------------------------------- counting

  /** How the counting loop sees an application: its institute if it is nominated with a target, and its bucket. */
  function AppVote(a: Application): Vote {
    Vote(if a.nominated && a.target != "" then Some(a.target) else None, LevelBucket(a.level))
  }

  /** The applications nominated to institute `code`. */
  function NominatedTo(code: string): Application -> bool {
    (a: Application) => a.nominated && a.target == code
  }

  /** ALL of a non-blank institute counts exactly its nominated applications; the buckets together never exceed it. */
  lemma {:induction false} OccupiedCountsNominations(apps: seq<Application>, code: string)
    requires code != ""
    ensures Tally(Project(apps, AppVote), code).all == |Filter(apps, NominatedTo(code))|
    ensures Tally(Project(apps, AppVote), code).bc + Tally(Project(apps, AppVote), code).mgr
          + Tally(Project(apps, AppVote), code).phd <= Tally(Project(apps, AppVote), code).all
    decreases |apps|
  {
    if apps != [] {
      var n := |apps| - 1;
      OccupiedCountsNominations(apps[..n], code);
      assert Project(apps, AppVote)[..n] == Project(apps[..n], AppVote);
    }
  }

  /** The institutes with capacity rows. */
  function CodesOf(caps: seq<Capacity>): set<string> {
    set c | c in caps :: c.code
  }

  /**
   * `occupied`: every capacity institute and every institute with a
   * counted application has an entry, and each entry is the tally.
   */
  ghost predicate OccupiedOf(occupied: map<string, Counts>, codes: set<string>, votes: seq<Vote>) {
    forall code :: (code in occupied <==> code in codes || Tally(votes, code).all > 0)
                   && (code in occupied ==> occupied[code] == Tally(votes, code))
  }

  lemma OccupiedNext(occupied: map<string, Counts>, codes: set<string>, votes: seq<Vote>, i: int)
    requires 0 <= i < |votes|
    requires OccupiedOf(occupied, codes, votes[..i])
    ensures var v := votes[i];
            OccupiedOf(if v.target.Some? then occupied[v.target.value := Count(Occ(occupied, v.target.value), v, v.target.value)]
                       else occupied, codes, votes[..i + 1])
  {
    var v := votes[i];
    var next := if v.target.Some? then occupied[v.target.value := Count(Occ(occupied, v.target.value), v, v.target.value)] else occupied;
    forall k
      ensures (k in next <==> k in codes || Tally(votes[..i + 1], k).all > 0) && (k in next ==> next[k] == Tally(votes[..i + 1], k))
    {
      TallyNext(votes, i, k);
    }
  }

  /** `capacities.forEach(c => occupied[c.instituteCode] = zeros)`. */
  method InitOccupied(caps: seq<Capacity>) returns (occupied: map<string, Counts>)
    ensures OccupiedOf(occupied, CodesOf(caps), [])
  {
    occupied := map[];
    for i := 0 to |caps|
      invariant forall code :: (code in occupied <==> exists j :: 0 <= j < i && caps[j].code == code)
                               && (code in occupied ==> occupied[code] == Zero)
    {
      occupied := occupied[caps[i].code := Zero];
    }
  }

  /** `applications.forEach(...)`: skip the ones not nominated or without a target, bump the others' entries. */
  method CountNominations(caps: seq<Capacity>, apps: seq<Application>) returns (occupied: map<string, Counts>)
    ensures OccupiedOf(occupied, CodesOf(caps), Project(apps, AppVote))
  {
    occupied := InitOccupied(caps);
    ghost var votes := Project(apps, AppVote);
    assert votes[..0] == [];
    for i := 0 to |apps|
      invariant OccupiedOf(occupied, CodesOf(caps), votes[..i])
    {
      var app := apps[i];
      OccupiedNext(occupied, CodesOf(caps), votes, i);
      if app.nominated && app.target != "" {
        var stats := if app.target in occupied then occupied[app.target] else Zero;
        match app.level {
          case Degree(BC) => stats := stats.(bc := stats.bc + 1);
          case Degree(MGR) => stats := stats.(mgr := stats.mgr + 1);
          case Degree(PHD) => stats := stats.(phd := stats.phd + 1);
          case ALL =>
        }
        stats := stats.(all := stats.all + 1);
        occupied := occupied[app.target := stats];
      }
    }
    assert votes[..|apps|] == votes;
  }

  // -------------------------------------------------------- adjustment

  /** `Math.max(0, cap - used)`, NaN staying NaN. */
  function Clamp(cap: Option<int>, used: nat): (r: Option<int>)
    ensures r.Some? <==> cap.Some?
    ensures cap.Some? ==> r.value >= 0 && r.value >= cap.value - used
    ensures cap.Some? ==> (r.value == 0 || r.value == cap.value - used)
    ensures cap.Some? && cap.value >= 0 ==> r.value <= cap.value
    ensures cap.Some? && used <= cap.value ==> r.value == cap.value - used
  {
    match cap
    case None => None
    case Some(c) => Some(if c - used > 0 then c - used else 0)
  }

  /** One capacity less what its institute has used; the code and the row stay. */
  function AdjustCapacity(cap: Capacity, used: Counts): (r: Capacity)
    ensures r.code == cap.code && r.original == cap.original
  {
    cap.(bc := Clamp(cap.bc, used.bc), mgr := Clamp(cap.mgr, used.mgr), phd := Clamp(cap.phd, used.phd),
         all := Clamp(cap.all, used.all))
  }

  /** `computeOccupancy`'s three results. */
  datatype OccupancyReport = OccupancyReport(adjustedCapacities: seq<Capacity>, capacities: seq<Capacity>,
                                             occupied: map<string, Counts>, parsedApplications: seq<Application>)

  /**
   * `computeOccupancy`: the parsed tables, the occupancy of every institute,
   * and each capacity row reduced by its institute's occupancy, in order.
   */
  method ComputeRemaining(capacitiesRaw: seq<CapRow>, applicationsRaw: seq<Row>) returns (report: OccupancyReport)
    ensures report.capacities == Capacities(capacitiesRaw)
    ensures report.parsedApplications == Parsed(applicationsRaw)
    ensures OccupiedOf(report.occupied, CodesOf(report.capacities), Project(report.parsedApplications, AppVote))
    ensures |report.adjustedCapacities| == |report.capacities|
    ensures forall i :: 0 <= i < |report.capacities| ==>
              report.adjustedCapacities[i]
              == AdjustCapacity(report.capacities[i], Tally(Project(report.parsedApplications, AppVote), report.capacities[i].code))
  {
    var capacities := Capacities(capacitiesRaw);
    var applications := Parsed(applicationsRaw);
    var occupied := CountNominations(capacities, applications);
    ghost var votes := Project(applications, AppVote);
    var adjusted := seq(|capacities|, i requires 0 <= i < |capacities| =>
      AdjustCapacity(capacities[i], if capacities[i].code in occupied then occupied[capacities[i].code] else Zero));
    forall i | 0 <= i < |capacities|
      ensures adjusted[i] == AdjustCapacity(capacities[i], Tally(votes, capacities[i].code))
    {
      assert capacities[i] in capacities;
    }
    report := OccupancyReport(adjusted, capacities, occupied, applications);
  }
}
