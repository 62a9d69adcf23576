/**
 * Step 4 of web-app/src/logic/allSteps.ts: the capacity map from the
 * adjusted capacity table, then, per institute, the `cap` best-ranked rows.
 */
module CapacitySelector {
  import opened Cells
  import opened Rows
  import opened Sorting
  import opened Grouping

  /** Assigning `m[code(r)] = cap(r)` for each r in turn: the last assignment to a key wins. */
  function LastWins<T>(s: seq<T>, code: T -> string, cap: T -> int): (m: map<string, int>)
    ensures forall k :: k in m <==> exists i :: 0 <= i < |s| && code(s[i]) == k
  {
    if s == [] then map[]
    else
      var init := s[..|s| - 1];
      assert forall i :: 0 <= i < |init| ==> init[i] == s[i];
      LastWins(init, code, cap)[code(s[|s| - 1]) := cap(s[|s| - 1])]
  }

  /** A key maps to the value of the last element carrying that key. */
  lemma {:induction false} LastWinsValue<T>(s: seq<T>, code: T -> string, cap: T -> int, i: int)
    requires 0 <= i < |s|
    requires forall j :: i < j < |s| ==> code(s[j]) != code(s[i])
    ensures LastWins(s, code, cap)[code(s[i])] == cap(s[i])
    decreases |s|
  {
    if i < |s| - 1 {
      var init := s[..|s| - 1];
      assert forall j :: 0 <= j < |init| ==> init[j] == s[j];
      LastWinsValue(init, code, cap, i);
    }
  }

  /** `num(r[capAllCol])`. */
  function CapAll(c: CapRow): int { Num(c.all) }

  /** `capMap`: each capacity code to `num` of the ALL cell of the last capacity row with that code. */
  function CapMap(caps: seq<CapRow>): map<string, int> {
    LastWins(caps, CapCode, CapAll)
  }

  /** `capMap[code] ?? 0`. */
  function CapOf(m: map<string, int>, code: string): int {
    if code in m then m[code] else 0
  }

  /** `cap <= 0 ? nothing : group.sort(byRank).slice(0, cap)`, for any rank. */
  function TakeTopBy<T>(group: seq<T>, cap: int, rank: T -> int): (r: seq<T>)
    ensures |r| == if cap <= 0 then 0 else if cap < |group| then cap else |group|
  {
    if cap <= 0 then []
    else
      var sorted := SortBy(group, rank);
      sorted[..if cap < |sorted| then cap else |sorted|]
  }

  /** Step 4 on one institute: its `cap` best rows by `num` of the rank. */
  function TakeTop(group: seq<Row>, cap: int): seq<Row> {
    TakeTopBy(group, cap, RankOf)
  }

  lemma TakeTopSub<T>(group: seq<T>, cap: int, rank: T -> int)
    ensures multiset(TakeTopBy(group, cap, rank)) <= multiset(group)
  {
    if cap > 0 {
      var sorted := SortBy(group, rank);
      var n := if cap < |sorted| then cap else |sorted|;
      assert TakeTopBy(group, cap, rank) == sorted[..n];
      PrefixSub(sorted, n);
    }
  }

  /** No element left out has a smaller rank than an element taken. */
  lemma TakeTopSmallest<T>(group: seq<T>, cap: int, rank: T -> int)
    ensures forall i, y :: 0 <= i < |TakeTopBy(group, cap, rank)| && y in multiset(group) - multiset(TakeTopBy(group, cap, rank))
                           ==> rank(TakeTopBy(group, cap, rank)[i]) <= rank(y)
  {
    var r := TakeTopBy(group, cap, rank);
    if cap > 0 {
      var sorted := SortBy(group, rank);
      var n := |r|;
      assert sorted == r + sorted[n..];
      assert multiset(group) - multiset(r) == multiset(sorted[n..]);
      forall i, y | 0 <= i < n && y in multiset(group) - multiset(r) ensures rank(r[i]) <= rank(y) {
        assert y in sorted[n..];
        var j :| 0 <= j < |sorted[n..]| && sorted[n..][j] == y;
        assert sorted[n + j] == y;
      }
    }
  }

  lemma {:induction false} WithKeyPrefix<T>(s: seq<T>, n: int, key: T -> int, k: int)
    requires 0 <= n <= |s|
    ensures WithKey(s[..n], key, k) <= WithKey(s, key, k)
    decreases |s|
  {
    if n > 0 {
      WithKeyCons(s[0], s[1..], key, k);
      WithKeyCons(s[0], s[..n][1..], key, k);
      assert s == [s[0]] + s[1..];
      assert s[..n] == [s[0]] + s[..n][1..];
      assert s[..n][1..] == s[1..][..n - 1];
      WithKeyPrefix(s[1..], n - 1, key, k);
    }
  }

  /** Ties in rank are broken by input order: the taken rows of one rank are the first rows of that rank. */
  lemma TakeTopTies<T>(group: seq<T>, cap: int, rank: T -> int, k: int)
    ensures WithKey(TakeTopBy(group, cap, rank), rank, k) <= WithKey(group, rank, k)
  {
    if cap > 0 {
      var sorted := SortBy(group, rank);
      WithKeyPrefix(sorted, |TakeTopBy(group, cap, rank)|, rank, k);
      SortByStable(group, rank, k);
    }
  }

  lemma TakeTopKeyed<T>(group: seq<T>, cap: int, rank: T -> int, key: T -> string, code: string)
    requires Keyed(group, key, code)
    ensures Keyed(TakeTopBy(group, cap, rank), key, code)
  {
    var r := TakeTopBy(group, cap, rank);
    TakeTopSub(group, cap, rank);
    forall i | 0 <= i < |r| ensures key(r[i]) == code {
      assert r[i] in multiset(group);
    }
  }

  /** The per-group work of step 4 with the capacity map fixed. */
  function Chooser(m: map<string, int>): (string, seq<Row>) -> seq<Row> {
    (code: string, group: seq<Row>) => TakeTop(group, CapOf(m, code))
  }

  /** `step4_buildResultTable`, specified: group by institute, enumerate, take the top `cap` rows of each. */
  function BuildResultTable(rows: seq<Row>, caps: seq<CapRow>): seq<Row> {
    Regroup(rows, Code, Chooser(CapMap(caps)))
  }

  /**
   * Each institute's selected rows are the first min(cap, n) rows of its n
   * rows in rank order, and none when its capacity is absent or not positive.
   */
  lemma PerInstituteSelection(rows: seq<Row>, caps: seq<CapRow>, code: string)
    ensures Select(BuildResultTable(rows, caps), Code, code) == TakeTop(Select(rows, Code, code), CapOf(CapMap(caps), code))
  {
    var f := Chooser(CapMap(caps));
    forall j, g | Keyed(g, Code, j) ensures Keyed(f(j, g), Code, j) {
      TakeTopKeyed(g, CapOf(CapMap(caps), j), RankOf, Code, j);
    }
    RegroupSelect(rows, Code, f, code);
  }

  /** An institute without a positive capacity has nobody selected. */
  lemma NoCapacityNoneSelected(rows: seq<Row>, caps: seq<CapRow>, code: string)
    requires code !in CapMap(caps) || CapMap(caps)[code] <= 0
    ensures Select(BuildResultTable(rows, caps), Code, code) == []
  {
    PerInstituteSelection(rows, caps, code);
  }

  /** Step 4 output is a sub-multiset of its input. */
  lemma BuildResultTableSub(rows: seq<Row>, caps: seq<CapRow>)
    ensures multiset(BuildResultTable(rows, caps)) <= multiset(rows)
  {
    var f := Chooser(CapMap(caps));
    forall j, g ensures multiset(f(j, g)) <= multiset(g) {
      TakeTopSub(g, CapOf(CapMap(caps), j), RankOf);
    }
    RegroupSub(rows, Code, f);
  }

  // ------------------------------------------------------- the code

  /** The loop filling `capMap`. */
  method BuildCapMap(caps: seq<CapRow>) returns (m: map<string, int>)
    ensures m == CapMap(caps)
  {
    m := map[];
    for i := 0 to |caps|
      invariant m == CapMap(caps[..i])
    {
      assert caps[..i + 1][..i] == caps[..i];
      m := m[CapCode(caps[i]) := CapAll(caps[i])];
    }
    assert caps[..|caps|] == caps;
  }

  /** One group's share: nothing without capacity, else its `cap` best-ranked rows. */
  method GroupShare(m: map<string, int>, code: string, group: seq<Row>) returns (part: seq<Row>)
    ensures part == Chooser(m)(code, group)
  {
    var cap := if code in m then m[code] else 0;
    part := [];
    if cap > 0 {
      var sorted := SortBy(group, RankOf);
      part := sorted[..if cap < |sorted| then cap else |sorted|];
    }
    assert cap == CapOf(m, code);
    assert part == TakeTopBy(group, cap, RankOf);
  }

  /** The loop over `Object.entries(groups)`: skip a group without capacity, else push its top rows. */
  method SelectGroups(rows: seq<Row>, m: map<string, int>, groups: map<string, seq<Row>>, order: seq<string>)
    returns (selected: seq<Row>)
    requires forall k :: k in order ==> k in groups && groups[k] == Select(rows, Code, k)
    ensures selected == GroupMap(rows, Code, order, Chooser(m))
  {
    selected := [];
    var j := 0;
    while j < |order|
      invariant 0 <= j <= |order|
      invariant selected == GroupMap(rows, Code, order[..j], Chooser(m))
    {
      var code := order[j];
      var part := GroupShare(m, code, groups[code]);
      GroupMapNext(rows, Code, order, Chooser(m), j);
      selected := selected + part;
      j := j + 1;
    }
    assert order[..j] == order;
  }

  /** `step4_buildResultTable`. */
  method BuildResultTableLoop(rows: seq<Row>, caps: seq<CapRow>) returns (selected: seq<Row>)
    ensures selected == BuildResultTable(rows, caps)
  {
    var m := BuildCapMap(caps);
    var groups, keys := GroupBy(rows, Code);
    var order := EnumOrder(keys);
    EnumOrderDistinct(keys);
    selected := SelectGroups(rows, m, groups, order);
  }
}
