/**
 * `compute_occupancy` of app.py: the Python reference of step 1. The
 * accepted applications (flag text "ANO" after `astype(str).str.upper()`)
 * are counted per institute code and degree bucket, and each mapped
 * BC/MGR/PHD/ALL column of the capacity table is overwritten with those
 * counts, 0 for an institute without accepted applications.
 *
 * The degree table DEGREE_TO_CAPACITY_COL lists "BSc", which can never be
 * looked up because the degree text is upper-cased first. `DegreeAsWritten`
 * models that table; the counting uses `DegreeCorrected`, whose table holds
 * "BSC" instead and equals step 1's DEGREE_MAP.
 */
module PyOccupancy {
  import opened Wrappers
  import opened Cells
  import opened Rows
  import opened Grouping
  import opened Occupancy
  import opened Pandas

  // ------------------------------------------------------------ degrees

  /** DEGREE_TO_CAPACITY_COL as written, with the key "BSc". */
  function DegreeToCapacityCol(s: string): Option<Bucket> {
    if s == "BC" || s == "BSc" || s == "BACHELOR" then Some(BC)
    else if s == "MGR" || s == "MSC" || s == "MASTER" then Some(MGR)
    else if s == "PHD" || s == "DR" || s == "DOCTOR" then Some(PHD)
    else None
  }

  /** `normalize_degree` on `astype(str).str.strip().str.upper()` of the cell, with the table as written. */
  function DegreeAsWritten(v: Cell): Option<Bucket> {
    DegreeToCapacityCol(NormText(v))
  }

  /** The same lookup with the key "BSC", that is, step 1's DEGREE_MAP. */
  function DegreeCorrected(v: Cell): Option<Bucket> {
    DegreeMap(NormText(v))
  }

  /** Upper-cased text never holds a lower-case letter, so it is never "BSc". */
  lemma UpperIsNotBSc(s: string)
    ensures Upper(s) != "BSc"
  {
    var u := Upper(s);
    if |u| == 3 {
      assert !('a' <= u[2] <= 'z');
      assert "BSc"[2] == 'c';
    }
  }

  /** The two tables differ in the key "BSc" against "BSC" only. */
  lemma TablesDiffer(t: string)
    requires t != "BSc"
    ensures DegreeToCapacityCol(t) == if t == "BSC" then None else DegreeMap(t)
  {
  }

  /** The table as written reads every degree text as the corrected one does, except "BSC", which it misses. */
  lemma AsWrittenMissesBsc(v: Cell)
    ensures DegreeAsWritten(v) == if NormText(v) == "BSC" then None else DegreeCorrected(v)
  {
    UpperIsNotBSc(Trim(Py, PyString(v)));
    TablesDiffer(NormText(v));
  }

  lemma NormTextOfBSc()
    ensures NormText(Text("BSc")) == "BSC"
  {
    TrimOfTrimmed(Py, "BSc");
    assert Upper("BSc") == "BSC";
  }

  /** A bachelor's application spelled as the table spells it, "BSc", counts toward no bucket as written. */
  lemma BScNotCounted()
    ensures DegreeAsWritten(Text("BSc")) == None
    ensures DegreeCorrected(Text("BSc")) == Some(BC)
  {
    NormTextOfBSc();
    AsWrittenMissesBsc(Text("BSc"));
  }

  /**
   * The corrected table reads a non-blank text cell exactly as step 1 of the
   * web app does, as long as no character of it is white space to only one of
   * `strip` and `trim`.
   */
  lemma CorrectedMatchesStepOne(s: string)
    requires Trim(Js, s) != ""
    requires forall i :: 0 <= i < |s| ==> (JsSpace(s[i]) <==> PySpace(s[i]))
    ensures DegreeCorrected(Text(s)) == NormDegree(Text(s))
  {
    NotBlankNotFalsy(s);
    UpperTrimCommutes(Js, s);
    SameSpacesSameTrim(s);
  }

  /** A degree led by a byte order mark: `trim` drops the mark, `strip` keeps it, so only step 1 finds the bucket. */
  lemma MarkedDegreeDiffers()
    ensures DegreeCorrected(Text("\U{FEFF}BC")) == None
    ensures NormDegree(Text("\U{FEFF}BC")) == Some(BC)
  {
    MarkedNotListed();
    MarkedIsBachelor();
  }

  lemma MarkedNotListed()
    ensures DegreeCorrected(Text("\U{FEFF}BC")) == None
  {
    var m := "\U{FEFF}BC";
    MarkedStripped();
    assert m[0] == '\U{FEFF}' && |m| == 3;
  }

  lemma MarkedIsBachelor()
    ensures NormDegree(Text("\U{FEFF}BC")) == Some(BC)
  {
    MarkedTrimmed();
    assert !Falsy(Text("\U{FEFF}BC"));
  }

  lemma MarkedStripped()
    ensures NormText(Text("\U{FEFF}BC")) == "\U{FEFF}BC"
  {
    MarkedText("\U{FEFF}BC");
    MarkedUpper();
  }

  lemma MarkedTrimmed()
    ensures Trim(Js, Upper(JsString(Text("\U{FEFF}BC")))) == "BC"
  {
    MarkedUpper();
    MarkedText("\U{FEFF}BC");
    assert "\U{FEFF}BC"[1..] == "BC";
  }

  lemma MarkedUpper()
    ensures Upper("\U{FEFF}BC") == "\U{FEFF}BC"
  {
    var m := "\U{FEFF}BC";
    assert UpperChar(m[0]) == m[0] && UpperChar(m[1]) == m[1] && UpperChar(m[2]) == m[2];
    UpperFixed(m);
  }

  lemma NotBlankNotFalsy(s: string)
    requires Trim(Js, s) != ""
    ensures !Falsy(Text(s))
  {
  }

  // ----------------------------------------------------------- counting

  /** `astype(str).str.upper() == "ANO"`: no trimming here. */
  predicate Nominated(r: Row) {
    Upper(PyString(r.flag)) == "ANO"
  }

  /** What the counting sees of one accepted application: its institute code and its degree bucket. */
  datatype Tag = Tag(code: Cell, bucket: Option<Bucket>)

  function TagOf(degree: Cell -> Option<Bucket>): Row -> Tag {
    (r: Row) => Tag(r.code, degree(r.degree))
  }

  /** The accepted applications, tagged. */
  function Tags(apps: seq<Row>, degree: Cell -> Option<Bucket>): seq<Tag> {
    Project(Filter(apps, Nominated), TagOf(degree))
  }

  function At(code: Cell): Tag -> bool {
    (t: Tag) => t.code == code
  }

  function AtIn(code: Cell, b: Bucket): Tag -> bool {
    (t: Tag) => t.code == code && t.bucket == Some(b)
  }

  /**
   * `grouped` and `all_grouped` looked up for one capacity code
   * (`map(counts).fillna(0)`): the accepted applications with that code,
   * per bucket and in all. Codes are compared as pandas index labels.
   */
  function CountFor(tags: seq<Tag>, code: Cell): (c: Counts)
    ensures c.bc + c.mgr + c.phd <= c.all
  {
    FilterBuckets(tags, AtIn(code, BC), AtIn(code, MGR), AtIn(code, PHD), At(code));
    Counts(|Filter(tags, AtIn(code, BC))|, |Filter(tags, AtIn(code, MGR))|,
           |Filter(tags, AtIn(code, PHD))|, |Filter(tags, At(code))|)
  }

  /** Three exclusive tests inside a fourth select no more elements than it does. */
  lemma {:induction false} FilterBuckets<T>(s: seq<T>, p1: T -> bool, p2: T -> bool, p3: T -> bool, q: T -> bool)
    requires forall x :: (p1(x) ==> q(x)) && (p2(x) ==> q(x)) && (p3(x) ==> q(x))
    requires forall x :: !(p1(x) && p2(x)) && !(p1(x) && p3(x)) && !(p2(x) && p3(x))
    ensures |Filter(s, p1)| + |Filter(s, p2)| + |Filter(s, p3)| <= |Filter(s, q)|
    decreases |s|
  {
    if s != [] {
      FilterBuckets(s[..|s| - 1], p1, p2, p3, q);
    }
  }

  /**
   * One more accepted application adds one to ALL of its institute and
   * one to its bucket, if its degree has one; no other count changes.
   */
  lemma CountForSnoc(tags: seq<Tag>, t: Tag, code: Cell)
    ensures CountFor(tags + [t], code) ==
      if t.code == code then AddOne(CountFor(tags, code), t.bucket) else CountFor(tags, code)
  {
    assert (tags + [t])[..|tags|] == tags;
  }

  /** The capacity row with each mapped counter overwritten by the counts. */
  function Overwritten(row: CapRow, c: Counts, capCols: Mapper): CapRow {
    row.(bc := if Mapped(capCols, "BC") then Number(c.bc) else row.bc,
         mgr := if Mapped(capCols, "MGR") then Number(c.mgr) else row.mgr,
         phd := if Mapped(capCols, "PHD") then Number(c.phd) else row.phd,
         all := if Mapped(capCols, "ALL") then Number(c.all) else row.all)
  }

  /** The returned `nominated` frame: the accepted rows with their degree text stripped and upper-cased.
    * The helper column `_degree_norm` that `compute_occupancy` adds to it is dropped: no caller reads it. */
  function NominatedRows(apps: seq<Row>): seq<Row> {
    Project(Filter(apps, Nominated), (r: Row) => r.(degree := Text(NormText(r.degree))))
  }

  const AppKeys: seq<string> := ["ID code", "Studying for degree", "NOMINOVÁN"]

  /** `compute_occupancy` with a given degree table. */
  function ComputeOccupancyWith(degree: Cell -> Option<Bucket>, caps: seq<CapRow>, apps: seq<Row>, capCols: Mapper, appCols: Mapper)
    : Result<(seq<CapRow>, seq<Row>), PyError>
  {
    if !Mapped(capCols, "ID code") then Failure(MissingColumns(["ID code"]))
    else if RequireColumns(appCols, AppKeys).Some? then Failure(MissingColumns(AppKeys))
    else
      var tags := Tags(apps, degree);
      Success((seq(|caps|, i requires 0 <= i < |caps| => Overwritten(caps[i], CountFor(tags, caps[i].code), capCols)),
               NominatedRows(apps)))
  }

  /** `compute_occupancy`, counting with the corrected degree table: the capacity table comes back row for row. */
  function ComputeOccupancy(caps: seq<CapRow>, apps: seq<Row>, capCols: Mapper, appCols: Mapper): (r: Result<(seq<CapRow>, seq<Row>), PyError>)
    ensures r.Success? ==> |r.value.0| == |caps| && forall i :: 0 <= i < |caps| ==> r.value.0[i].code == caps[i].code
    ensures r.Success? ==> forall t :: t in r.value.1 ==> Nominated(t)
  {
    ComputeOccupancyWith(DegreeCorrected, caps, apps, capCols, appCols)
  }

  // ------------------------------------------------------------ lemmas

  /** It raises exactly when the capacity code column or one of the three application columns is unmapped. */
  lemma OccupancyRaises(degree: Cell -> Option<Bucket>, caps: seq<CapRow>, apps: seq<Row>, capCols: Mapper, appCols: Mapper)
    ensures ComputeOccupancyWith(degree, caps, apps, capCols, appCols).Failure?
        <==> !Mapped(capCols, "ID code") || !Mapped(appCols, "ID code") || !Mapped(appCols, "Studying for degree") || !Mapped(appCols, "NOMINOVÁN")
  {
    assert AllMapped(appCols, AppKeys) <==> Mapped(appCols, AppKeys[0]) && Mapped(appCols, AppKeys[1]) && Mapped(appCols, AppKeys[2]);
  }

  /** The ALL count of an institute is the number of its accepted applications. */
  lemma AllCountsAccepted(apps: seq<Row>, degree: Cell -> Option<Bucket>, code: Cell)
    ensures CountFor(Tags(apps, degree), code).all == |Filter(apps, (r: Row) => Nominated(r) && r.code == code)|
  {
    var q := (r: Row) => r.code == code;
    FilterProject(Filter(apps, Nominated), TagOf(degree), At(code), q);
    FilterFilter(apps, Nominated, q, (r: Row) => Nominated(r) && r.code == code);
  }

  /** A bucket count of an institute is the number of its accepted applications whose degree falls in that bucket. */
  lemma BucketCountsAccepted(apps: seq<Row>, degree: Cell -> Option<Bucket>, code: Cell, b: Bucket)
    ensures |Filter(Tags(apps, degree), AtIn(code, b))| == |Filter(apps, (r: Row) => Nominated(r) && r.code == code && degree(r.degree) == Some(b))|
  {
    var q := (r: Row) => r.code == code && degree(r.degree) == Some(b);
    FilterProject(Filter(apps, Nominated), TagOf(degree), AtIn(code, b), q);
    FilterFilter(apps, Nominated, q, (r: Row) => Nominated(r) && r.code == code && degree(r.degree) == Some(b));
  }

  /**
   * On success the table keeps its rows and their codes; each mapped
   * counter holds the institute's count, each unmapped one is untouched,
   * and the buckets together never exceed ALL, whatever the degree table.
   */
  lemma OccupancyOverwrites(degree: Cell -> Option<Bucket>, caps: seq<CapRow>, apps: seq<Row>, capCols: Mapper, appCols: Mapper, i: int)
    requires ComputeOccupancyWith(degree, caps, apps, capCols, appCols).Success?
    requires 0 <= i < |caps|
    ensures var (out, _) := ComputeOccupancyWith(degree, caps, apps, capCols, appCols).value;
      var c := CountFor(Tags(apps, degree), caps[i].code);
      |out| == |caps|
      && out[i].code == caps[i].code && out[i].extra == caps[i].extra
      && out[i].bc == (if Mapped(capCols, "BC") then Number(c.bc) else caps[i].bc)
      && out[i].mgr == (if Mapped(capCols, "MGR") then Number(c.mgr) else caps[i].mgr)
      && out[i].phd == (if Mapped(capCols, "PHD") then Number(c.phd) else caps[i].phd)
      && out[i].all == (if Mapped(capCols, "ALL") then Number(c.all) else caps[i].all)
      && c.bc + c.mgr + c.phd <= c.all
  {
  }

  /** The two tables count alike unless some accepted application's degree text is "BSC". */
  lemma AsWrittenAgreesWithoutBsc(caps: seq<CapRow>, apps: seq<Row>, capCols: Mapper, appCols: Mapper)
    requires forall r :: r in apps && Nominated(r) ==> NormText(r.degree) != "BSC"
    ensures ComputeOccupancyWith(DegreeAsWritten, caps, apps, capCols, appCols) == ComputeOccupancy(caps, apps, capCols, appCols)
  {
    var noms := Filter(apps, Nominated);
    forall k | 0 <= k < |noms| ensures TagOf(DegreeAsWritten)(noms[k]) == TagOf(DegreeCorrected)(noms[k]) {
      FilterHas(apps, Nominated, noms[k]);
      AsWrittenMissesBsc(noms[k].degree);
    }
    assert Tags(apps, DegreeAsWritten) == Tags(apps, DegreeCorrected);
  }

  /** One accepted "BSc" application: the table as written counts it in ALL only, the corrected one also in BC. */
  lemma BScApplicationCounts(code: Cell, flag: Cell)
    requires Nominated(Row(Missing, code, Text("BSc"), flag, Missing, Missing, map[]))
    ensures var apps := [Row(Missing, code, Text("BSc"), flag, Missing, Missing, map[])];
      CountFor(Tags(apps, DegreeAsWritten), code) == Counts(0, 0, 0, 1)
      && CountFor(Tags(apps, DegreeCorrected), code) == Counts(1, 0, 0, 1)
  {
    var r := Row(Missing, code, Text("BSc"), flag, Missing, Missing, map[]);
    BScNotCounted();
    assert Filter([r], Nominated) == [r];
    CountForSnoc([], Tag(code, None), code);
    CountForSnoc([], Tag(code, Some(BC)), code);
    assert [Tag(code, None)] == [] + [Tag(code, None)];
    assert [Tag(code, Some(BC))] == [] + [Tag(code, Some(BC))];
  }
}
