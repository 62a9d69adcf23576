/**
 * Step 5 of web-app/src/logic/allSteps.ts: a working row is nominated
 * ("ANO") when the step-4 selection holds a row of the same student at the
 * same institute, and "NE" otherwise; every selected row becomes "ANO".
 *
 * The source identifies a (student, institute) pair by the joined string
 * `${uk}||${code}`. `UpdateWorkAsWritten` models that; `UpdateWork`, used by
 * the rest of the model, compares the pairs themselves.
 */
module NominationUpdater {
  import opened Cells
  import opened Rows
  import opened Grouping

  /** The row with a new flag cell. */
  function WithFlag(r: Row, flag: string): Row {
    r.(flag := Text(flag))
  }

  /** The row with its flag cleared: everything step 5 must leave alone. */
  function Unflagged(r: Row): Row {
    r.(flag := Missing)
  }

  /** The accepted (student, institute) pairs of the selection. */
  function Accepted(result: seq<Row>): set<(string, string)> {
    set r | r in result :: (Uk(r), Code(r))
  }

  /** The working rows with their flags set from the selection. */
  function UpdateWork(work: seq<Row>, result: seq<Row>): (w: seq<Row>)
    ensures |w| == |work|
  {
    var accepted := Accepted(result);
    seq(|work|, i requires 0 <= i < |work| =>
      WithFlag(work[i], if (Uk(work[i]), Code(work[i])) in accepted then "ANO" else "NE"))
  }

  /** The selected rows, all flagged "ANO". */
  function UpdateResult(result: seq<Row>): (r: seq<Row>)
    ensures |r| == |result|
  {
    seq(|result|, i requires 0 <= i < |result| => WithFlag(result[i], "ANO"))
  }

  /** A working row is nominated exactly when a selected row has its student and institute, and refused otherwise. */
  lemma FlagIffSelected(work: seq<Row>, result: seq<Row>, i: int)
    requires 0 <= i < |work|
    ensures UpdateWork(work, result)[i].flag == Text("ANO")
        <==> exists j :: 0 <= j < |result| && Uk(result[j]) == Uk(work[i]) && Code(result[j]) == Code(work[i])
    ensures UpdateWork(work, result)[i].flag == Text("NE")
        <==> !exists j :: 0 <= j < |result| && Uk(result[j]) == Uk(work[i]) && Code(result[j]) == Code(work[i])
  {
    var key := (Uk(work[i]), Code(work[i]));
    if key in Accepted(result) {
      var r :| r in result && (Uk(r), Code(r)) == key;
      var j :| 0 <= j < |result| && result[j] == r;
    } else {
      forall j | 0 <= j < |result| ensures (Uk(result[j]), Code(result[j])) != key {
        assert result[j] in result;
      }
    }
  }

  /** Every selected row comes out nominated. */
  lemma ResultAllNominated(result: seq<Row>, i: int)
    requires 0 <= i < |result|
    ensures IsAno(UpdateResult(result)[i])
  {
    FlagOfText(UpdateResult(result)[i]);
  }

  /** Step 5 changes the flag and nothing else, in both tables. */
  lemma OnlyFlagsChange(work: seq<Row>, result: seq<Row>)
    ensures Project(UpdateWork(work, result), Unflagged) == Project(work, Unflagged)
    ensures Project(UpdateResult(result), Unflagged) == Project(result, Unflagged)
  {
  }

  /** Applying step 5 twice with the same selection is applying it once. */
  lemma UpdateWorkIdempotent(work: seq<Row>, result: seq<Row>)
    ensures UpdateWork(UpdateWork(work, result), result) == UpdateWork(work, result)
  {
    var w := UpdateWork(work, result);
    assert forall i :: 0 <= i < |w| ==> Uk(w[i]) == Uk(work[i]) && Code(w[i]) == Code(work[i]);
  }

  /** The loop filling the accepted set. */
  method BuildAccepted(result: seq<Row>) returns (accepted: set<(string, string)>)
    ensures accepted == Accepted(result)
  {
    accepted := {};
    for i := 0 to |result|
      invariant accepted == Accepted(result[..i])
    {
      assert result[..i + 1] == result[..i] + [result[i]];
      accepted := accepted + {(Uk(result[i]), Code(result[i]))};
    }
    assert result[..|result|] == result;
  }

  // ------------------------------------------------ the joined-string key

  /** `${str(r[ukCol])}||${str(r[idCol])}`. */
  function JoinKey(r: Row): string {
    Uk(r) + "||" + Code(r)
  }

  function AcceptedKeys(result: seq<Row>): set<string> {
    set r | r in result :: JoinKey(r)
  }

  /** The working rows with their flags set by joined-string membership, as the source does. */
  function UpdateWorkAsWritten(work: seq<Row>, result: seq<Row>): (w: seq<Row>)
    ensures |w| == |work|
  {
    var accepted := AcceptedKeys(result);
    seq(|work|, i requires 0 <= i < |work| =>
      WithFlag(work[i], if JoinKey(work[i]) in accepted then "ANO" else "NE"))
  }

  /** Joining is one-to-one as long as the student number holds no '|'. */
  lemma JoinInjective(a: string, b: string, c: string, d: string)
    requires '|' !in a && '|' !in c
    requires a + "||" + b == c + "||" + d
    ensures a == c && b == d
  {
    var x := a + "||" + b;
    assert forall k :: 0 <= k < |a| ==> x[k] == a[k] && x[k] != '|';
    assert forall k :: 0 <= k < |c| ==> x[k] == c[k] && x[k] != '|';
    assert x[|a|] == '|' && x[|c|] == '|';
    assert a == x[..|a|] && c == x[..|c|];
    assert b == x[|a| + 2..] && d == x[|c| + 2..];
  }

  /** When no student number holds '|', the joined key decides as the pair does. */
  lemma AsWrittenAgreesWithoutBars(work: seq<Row>, result: seq<Row>)
    requires forall r :: r in work ==> '|' !in Uk(r)
    requires forall r :: r in result ==> '|' !in Uk(r)
    ensures UpdateWorkAsWritten(work, result) == UpdateWork(work, result)
  {
    forall i | 0 <= i < |work|
      ensures (JoinKey(work[i]) in AcceptedKeys(result)) == ((Uk(work[i]), Code(work[i])) in Accepted(result))
    {
      assert work[i] in work;
      if JoinKey(work[i]) in AcceptedKeys(result) {
        var r :| r in result && JoinKey(r) == JoinKey(work[i]);
        JoinInjective(Uk(r), Code(r), Uk(work[i]), Code(work[i]));
      }
    }
  }

  /** Two different pairs that join to the same key: the source nominates where the pair comparison refuses. */
  lemma CollidingKeys(w: Row, r: Row)
    requires JoinKey(w) == JoinKey(r)
    requires (Uk(w), Code(w)) != (Uk(r), Code(r))
    ensures UpdateWorkAsWritten([w], [r])[0].flag == Text("ANO")
    ensures UpdateWork([w], [r])[0].flag == Text("NE")
  {
    assert r in [r];
    assert JoinKey(w) in AcceptedKeys([r]);
    assert forall x :: x in [r] ==> x == r;
    assert (Uk(w), Code(w)) !in Accepted([r]);
  }

  /** A text cell without surrounding blanks reads back as its text. */
  lemma TextKey(s: string)
    requires s != [] && !IsSpace(Js, s[0]) && !IsSpace(Js, s[|s| - 1])
    ensures Str(Text(s)) == s
  {
    TrimOfTrimmed(Js, s);
  }

  /**
   * For any blank-free texts x, y and z, student x applying to institute
   * "y||z" is nominated by the selection of student "x||y" at institute z,
   * since both join to "x||y||z"; comparing the pairs refuses it.
   */
  lemma JoinKeyCollides(x: string, y: string, z: string)
    requires x != [] && y != [] && z != []
    requires forall i :: 0 <= i < |x| ==> !IsSpace(Js, x[i])
    requires forall i :: 0 <= i < |y| ==> !IsSpace(Js, y[i])
    requires forall i :: 0 <= i < |z| ==> !IsSpace(Js, z[i])
    ensures var w := Row(Text(x), Text(y + "||" + z), Missing, Missing, Missing, Missing, map[]);
            var r := Row(Text(x + "||" + y), Text(z), Missing, Missing, Missing, Missing, map[]);
            UpdateWorkAsWritten([w], [r])[0].flag == Text("ANO") && UpdateWork([w], [r])[0].flag == Text("NE")
  {
    var w := Row(Text(x), Text(y + "||" + z), Missing, Missing, Missing, Missing, map[]);
    var r := Row(Text(x + "||" + y), Text(z), Missing, Missing, Missing, Missing, map[]);
    TextKey(x);
    TextKey(z);
    TextKey(y + "||" + z);
    TextKey(x + "||" + y);
    assert x + "||" + (y + "||" + z) == (x + "||" + y) + "||" + z;
    assert |Uk(w)| < |Uk(r)|;
    CollidingKeys(w, r);
  }
}
