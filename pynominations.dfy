/**
 * `update_nominations` of app.py: the Python reference of step 5. The
 * accepted (student, institute) pairs are read off the result table, as
 * `str` of each cell with NaN read as "" and pairs with an empty part
 * skipped; every working row becomes "ANO" when its own pair is accepted
 * and "NE" otherwise, and every result row becomes "ANO".
 */
module PyNominations {
  import opened Wrappers
  import opened Cells
  import opened Rows
  import opened Grouping
  import opened Pandas
  import N = NominationUpdater

  const Step5Keys: seq<string> := ["NOMINOVÁN", "Číslo UK", "ID code"]

  /** `(uk_val, id_val)` of a row. */
  function PairOf(r: Row): (string, string) {
    (KeyText(r.uk), KeyText(r.code))
  }

  /** `if uk_val and id_val`: both parts of the pair are non-empty. */
  predicate Keyable(r: Row) {
    KeyText(r.uk) != "" && KeyText(r.code) != ""
  }

  /** `accepted_pairs`. */
  function AcceptedPairs(result: seq<Row>): set<(string, string)> {
    set r | r in result && Keyable(r) :: PairOf(r)
  }

  /** The loop over `result_df.iterrows()` filling `accepted_pairs`. */
  method CollectPairs(result: seq<Row>) returns (pairs: set<(string, string)>)
    ensures pairs == AcceptedPairs(result)
  {
    pairs := {};
    for i := 0 to |result|
      invariant pairs == AcceptedPairs(result[..i])
    {
      assert result[..i + 1] == result[..i] + [result[i]];
      if Keyable(result[i]) {
        pairs := pairs + {PairOf(result[i])};
      }
    }
    assert result[..|result|] == result;
  }

  /** `check_nomination` applied to every working row. */
  function NominateWork(work: seq<Row>, result: seq<Row>): (w: seq<Row>)
    ensures |w| == |work|
  {
    var accepted := AcceptedPairs(result);
    seq(|work|, i requires 0 <= i < |work| =>
      N.WithFlag(work[i], if PairOf(work[i]) in accepted then "ANO" else "NE"))
  }

  /** `result_updated[nom_col] = "ANO"` when the result table has that column. */
  function NominateResult(result: seq<Row>, hasFlag: bool): (r: seq<Row>)
    ensures |r| == |result|
  {
    if hasFlag then seq(|result|, i requires 0 <= i < |result| => N.WithFlag(result[i], "ANO")) else result
  }

  /** The key is mapped and its column is one of the result table's columns. */
  predicate InResult(appCols: Mapper, key: string, resultCols: seq<string>) {
    GetCol(appCols, key).Some? && GetCol(appCols, key).value in resultCols
  }

  /** The two checks that raise: unmapped columns, then key columns missing from the result table. */
  function NominationCheck(appCols: Mapper, resultCols: seq<string>): (e: Option<PyError>)
    ensures e.None? <==> AllMapped(appCols, Step5Keys) && InResult(appCols, "Číslo UK", resultCols) && InResult(appCols, "ID code", resultCols)
  {
    if RequireColumns(appCols, Step5Keys).Some? then Some(MissingColumns(Step5Keys))
    else
      assert Mapped(appCols, Step5Keys[1]) && Mapped(appCols, Step5Keys[2]);
      var uk := GetCol(appCols, "Číslo UK").value;
      var id := GetCol(appCols, "ID code").value;
      if uk !in resultCols || id !in resultCols then Some(ResultColumnsMissing(uk, id)) else None
  }

  /** `update_nominations`: the updated working table and the updated result table. */
  function UpdateNominations(work: seq<Row>, result: seq<Row>, resultCols: seq<string>, appCols: Mapper)
    : Result<(seq<Row>, seq<Row>), PyError>
  {
    match NominationCheck(appCols, resultCols)
    case Some(e) => Failure(e)
    case None => Success((NominateWork(work, result), NominateResult(result, InResult(appCols, "NOMINOVÁN", resultCols))))
  }

  // ------------------------------------------------------------ lemmas

  /**
   * It raises exactly when one of the three columns is unmapped, or the
   * student or institute column is not a column of the result table.
   */
  lemma UpdateRaises(work: seq<Row>, result: seq<Row>, resultCols: seq<string>, appCols: Mapper)
    ensures UpdateNominations(work, result, resultCols, appCols).Failure? <==>
      !AllMapped(appCols, Step5Keys) || !InResult(appCols, "Číslo UK", resultCols) || !InResult(appCols, "ID code", resultCols)
  {
  }

  /**
   * A working row is nominated exactly when a result row with non-empty
   * parts has its student and institute text, and refused otherwise.
   */
  lemma FlagIffAccepted(work: seq<Row>, result: seq<Row>, i: int)
    requires 0 <= i < |work|
    ensures NominateWork(work, result)[i].flag == Text("ANO")
        <==> exists j :: 0 <= j < |result| && Keyable(result[j]) && PairOf(result[j]) == PairOf(work[i])
    ensures NominateWork(work, result)[i].flag == Text("NE")
        <==> !exists j :: 0 <= j < |result| && Keyable(result[j]) && PairOf(result[j]) == PairOf(work[i])
  {
    var key := PairOf(work[i]);
    if key in AcceptedPairs(result) {
      var r :| r in result && Keyable(r) && PairOf(r) == key;
      var j :| 0 <= j < |result| && result[j] == r;
    } else {
      forall j | 0 <= j < |result| && Keyable(result[j]) ensures PairOf(result[j]) != key {
        assert result[j] in result;
      }
    }
  }

  /** A working row whose student or institute is NaN or empty text is never nominated. */
  lemma EmptyKeyRefused(work: seq<Row>, result: seq<Row>, i: int)
    requires 0 <= i < |work|
    requires KeyText(work[i].uk) == "" || KeyText(work[i].code) == ""
    ensures NominateWork(work, result)[i].flag == Text("NE")
  {
    FlagIffAccepted(work, result, i);
  }

  /** Every result row comes out nominated when the result table has the flag column. */
  lemma ResultAllNominated(result: seq<Row>, i: int)
    requires 0 <= i < |result|
    ensures NominateResult(result, true)[i].flag == Text("ANO")
  {
  }

  /** Only the flags change, in both tables. */
  lemma OnlyFlagsChange(work: seq<Row>, result: seq<Row>, hasFlag: bool)
    ensures Project(NominateWork(work, result), N.Unflagged) == Project(work, N.Unflagged)
    ensures Project(NominateResult(result, hasFlag), N.Unflagged) == Project(result, N.Unflagged)
  {
  }

  /** Updating twice with the same result table is updating once. */
  lemma NominateWorkIdempotent(work: seq<Row>, result: seq<Row>)
    ensures NominateWork(NominateWork(work, result), result) == NominateWork(work, result)
  {
    var w := NominateWork(work, result);
    assert forall i :: 0 <= i < |w| ==> PairOf(w[i]) == PairOf(work[i]);
  }
}
