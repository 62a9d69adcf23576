# Nomination workflow: a Dafny model

The system allocates exchange-programme applicants to partner institutes.
It works on two tables. The capacity table has one row per institute: its
"ID code" and the counters BC, MGR, PHD and ALL. The application table has
one row per application: the student number "Číslo UK", the institute
"ID code", the degree studied, the flag "NOMINOVÁN" (ANO when nominated,
NE when refused), the priority "PRIORITA" and the rank "Pořadí".

The web app (`web-app/src/logic/allSteps.ts`, driven by `runStep` and
`runAll` in `web-app/src/App.tsx`) runs six steps:

1. Occupancy: count the accepted applications of each institute and degree
   bucket, and write the counts over the capacity counters.
2. Duplicate filter: for each student, keep the rows whose priority is at
   or better than their best accepted priority.
3. Rank renumbering: within each institute, sort by rank and rewrite the
   ranks to 1..n.
4. Capacity selection: within each institute, take its ALL-capacity best
   ranked rows.
5. Nomination update: flag every working row ANO or NE according to the
   selection, and flag every selected row ANO.
6. Cycle resolution: find the students holding both an ANO and an NE row.
   Build the conflict graph (u → x when u is refused where x is accepted)
   and find its cycles by depth-first search. For each cycle, delete the
   members' ANO rows when all of them would still get in without them, and
   their NE rows otherwise. Outside the cycles, delete NE rows that no
   duplicated competitor blocks.

`runAll` runs steps 1 and 2 once, then repeats steps 3 to 6 until a step 6
deletes nothing. `web-app/src/logic/computeOccupancy.ts` is a second
occupancy computation: it matches degrees by substring and subtracts the
counts from the capacities. `app.py` holds the Python reference of the same
pipeline, written with pandas.

The model has one module per concern:

- `Cells`, `Rows` and `Pandas` hold the cell values and the JavaScript and
  pandas readings of them (`num`, `str`, `to_numeric`, `get_col`).
- `Grouping` and `Sorting` hold the group-by, the JavaScript key
  enumeration order and the stable sort.
- `Occupancy`, `DuplicateFilter`, `OrderNormalizer`, `CapacitySelector`,
  `NominationUpdater`, `ConflictGraph`, `GraphSearch` and
  `CycleResolution` model steps 1 to 6 of `allSteps.ts`.
- `CapacityAdjustment` models `computeOccupancy.ts`.
- `PyOccupancy`, `PyDuplicates`, `PyOrdering`, `PySelection`,
  `PyNominations` and `PyCycles` model the `app.py` functions.
- `Workflow` models `runStep` and `runAll`. The class `Workflow.App` holds
  the page state they set.

Each step is specified by a function. The loops of the source are methods
proved equal to that function, and the properties the steps promise are
lemmas about the functions. The depth-first search of step 6 is the
function `GraphSearch.Search`; `GraphSearch.FoundCycles` tries it from each
conflicted student in turn, and the recursive `dfs`, its loop and the loop
of `findCycles` are proved to compute exactly those. Step 6 is then a
function of the working and capacity tables alone (`CycleResolution.Resolve`,
`PyCycles.ResolveDuplicates`). The loop of `runAll` is the recursive
function `Workflow.RunFrom`.

Step 5 and the Python step 1 are modelled in their corrected form; the
code as written is modelled beside them and compared under "## Findings".

## Model

| member | source | states |
|---|---|---|
| Cells.Num | web-app/src/logic/allSteps.ts:36-39 | `num`: a number cell is its value; a missing cell and text that is not a number are 0 |
| Cells.NumOfIntText | web-app/src/logic/allSteps.ts:36-39 | `num` reads back any integer written out as text |
| Cells.Str | web-app/src/logic/allSteps.ts:41-43 | `str`: "" for a missing cell, the decimal text of a number, and never a result with JavaScript white space at either end |
| Cells.Trim | web-app/src/logic/allSteps.ts:42 | `trim` (and `str.strip` for the Python runtime) leaves none of that runtime's white space at either end: ECMA-262's WhiteSpace and LineTerminator for JavaScript, `str.isspace` for Python |
| Cells.SameSpacesSameTrim | app.py:168 | `str.strip` trims a text as `trim` does when no character of it is white space to only one of them |
| Cells.TrimAndStripDiffer | app.py:168 | the two differ: `trim` drops a leading byte order mark that `strip` keeps, and `strip` drops a trailing U+0085 that `trim` keeps |
| Cells.Upper | web-app/src/logic/allSteps.ts:32 | `toUpperCase` keeps the length and upper-cases each character |
| Cells.UpperTrimCommutes | web-app/src/logic/allSteps.ts:32 | trimming and upper-casing can be done in either order, in either runtime |
| Cells.NormalizeTwice | web-app/src/logic/allSteps.ts:32 | normalising a degree text that is already normalised changes nothing |
| Cells.UpperIdempotent | web-app/src/logic/allSteps.ts:60 | upper-casing the flag twice is upper-casing it once |
| Cells.NatToStringRoundTrip | web-app/src/logic/computeOccupancy.ts:70 | the decimal text of a row index reads back as the index |
| Cells.ParseIntCell | web-app/src/logic/computeOccupancy.ts:59-62 | `parseInt` of a non-negative number cell is that number |
| Cells.PyNumeric | app.py:225 | `to_numeric(errors="coerce")` keeps a number and makes a missing cell NaN |
| Rows.FlagOfText | web-app/src/logic/allSteps.ts:181 | a flag written as "ANO" or "NE" reads back as itself |
| Pandas.GetCol | app.py:141-145 | `get_col` is None exactly when the key is unmapped, mapped to "" or to the "do not use" placeholder, and the mapped column otherwise |
| Pandas.RequireColumns | app.py:218-221 | the ValueError is raised exactly when one of the required keys is unmapped |
| Pandas.Coerced | app.py:225 | the coerced cell is numeric or NaN and coerces to the same value |
| Sorting.SortBy | web-app/src/logic/allSteps.ts:123 | `Array.prototype.sort` with a key comparator gives a permutation ordered by the key |
| Sorting.SortByStable | web-app/src/logic/allSteps.ts:123 | rows with equal keys keep their input order |
| Sorting.SortByCharacterized | web-app/src/logic/allSteps.ts:123 | any ordered permutation that keeps each key's rows in input order is the sort's result |
| Sorting.SortBySortedIsIdentity | web-app/src/logic/allSteps.ts:157 | sorting rows already in rank order changes nothing |
| Grouping.GroupBy | web-app/src/logic/allSteps.ts:93-97 | the loop `(groups[k] ??= []).push(r)` gives each key's rows in order and the keys in insertion order |
| Grouping.EnumOrder | web-app/src/logic/allSteps.ts:100 | `Object.values` visits the keys once each: array-index keys ascending, then the others in insertion order |
| Grouping.EnumOrderDistinct | web-app/src/logic/allSteps.ts:100 | the enumeration visits exactly the keys, each once |
| Grouping.RegroupOrder | web-app/src/logic/allSteps.ts:93-100 | every row's key is enumerated once, and only keys that have rows |
| Grouping.RegroupSelect | web-app/src/logic/allSteps.ts:99-107 | after a per-group pass, each key's output rows are that key's group, transformed |
| Grouping.RegroupSub | web-app/src/logic/allSteps.ts:99-107 | a per-group pass that keeps part of each group keeps part of the table |
| Grouping.RegroupProjectPerm | web-app/src/logic/allSteps.ts:121-127 | a per-group pass that permutes each group up to one column permutes the table up to that column |
| Grouping.MapGroups | web-app/src/logic/allSteps.ts:99-107 | the loop over the groups appends each group's share in enumeration order |
| Grouping.RegroupLoop | web-app/src/logic/allSteps.ts:93-107 | group, enumerate and append computes the per-group pass |
| Occupancy.PlainDegree | web-app/src/logic/allSteps.ts:24-34 | `normDegree` of capitals and digits is the DEGREE_MAP entry for that text |
| Occupancy.DegreeIgnoresCaseAndBlanks | web-app/src/logic/allSteps.ts:30-34 | `normDegree` depends only on the trimmed, upper-cased text |
| Occupancy.Classify | web-app/src/logic/allSteps.ts:60-63 | an application is counted exactly when its flag reads ANO and its code is non-empty, toward that code, with its `normDegree` bucket |
| Occupancy.Tally | web-app/src/logic/allSteps.ts:59-67 | the counts of an institute satisfy BC + MGR + PHD ≤ ALL |
| Occupancy.TallyAppend | web-app/src/logic/allSteps.ts:59-67 | counting is additive over two batches of applications |
| Occupancy.TallyAllCounts | web-app/src/logic/allSteps.ts:65 | ALL is the number of applications counted toward the institute |
| Occupancy.EmptyCodeCountsNothing | web-app/src/logic/allSteps.ts:62 | an empty institute code collects no count |
| Occupancy.OccIsTally | web-app/src/logic/allSteps.ts:73 | reading the counts dictionary, with 0 for an absent code, gives the institute's tally |
| Occupancy.CountOccupancy | web-app/src/logic/allSteps.ts:58-67 | the counting loop holds exactly the institutes with a counted application, each with its tally |
| Occupancy.Adjusted | web-app/src/logic/allSteps.ts:70-78 | step 1 keeps the number of capacity rows and overwrites each row's counters with its institute's tally |
| Occupancy.AdjustedRows | web-app/src/logic/allSteps.ts:70-78 | the code and every other column of a capacity row are unchanged, and its new BC + MGR + PHD ≤ ALL |
| Occupancy.ComputeOccupancy | web-app/src/logic/allSteps.ts:46-81 | `step1_computeOccupancy` computes the adjusted capacity table |
| Occupancy.OneAcceptedBachelor | web-app/src/logic/allSteps.ts:59-78 | one accepted bachelor at an institute turns its counters into BC 1, MGR 0, PHD 0, ALL 1 |
| DuplicateFilter.MinOf | web-app/src/logic/allSteps.ts:103 | `Math.min` over the ANO priorities is one of them and at most each |
| DuplicateFilter.NoAnoKeepsAll | web-app/src/logic/allSteps.ts:102 | a student without an ANO row keeps all rows |
| DuplicateFilter.KeptIffAtBest | web-app/src/logic/allSteps.ts:103-105 | with an ANO row, a row is kept exactly when its priority is at most every ANO priority |
| DuplicateFilter.KeepsAnAno | web-app/src/logic/allSteps.ts:101-105 | a student with an ANO row keeps an ANO row |
| DuplicateFilter.KeepBestIdempotent | web-app/src/logic/allSteps.ts:101-105 | filtering a student's rows twice is filtering once |
| DuplicateFilter.PerStudent | web-app/src/logic/allSteps.ts:93-107 | each student's output rows are the filtered input rows of that student |
| DuplicateFilter.FilterDuplicatesSub | web-app/src/logic/allSteps.ts:84-108 | step 2 output is a sub-multiset of its input |
| DuplicateFilter.FilterDuplicatesLoop | web-app/src/logic/allSteps.ts:84-108 | the grouping loop and the loop pushing kept rows compute step 2 |
| OrderNormalizer.Renumber | web-app/src/logic/allSteps.ts:123-124 | a renumbered group keeps its size and carries ranks 1..n |
| OrderNormalizer.RenumberFollowsStableOrder | web-app/src/logic/allSteps.ts:123-124 | the renumbered rows follow the previous ranks, ties in input order |
| OrderNormalizer.RenumberPerm | web-app/src/logic/allSteps.ts:123-124 | apart from the rank, a group is permuted |
| OrderNormalizer.RenumberIdempotent | web-app/src/logic/allSteps.ts:123-124 | renumbering a renumbered group changes nothing |
| OrderNormalizer.PerInstitute | web-app/src/logic/allSteps.ts:118-126 | each institute's output rows are its input rows renumbered |
| OrderNormalizer.NormalizeOrderingPerm | web-app/src/logic/allSteps.ts:111-128 | apart from the ranks, step 3 output is a permutation of its input of the same length |
| OrderNormalizer.AssignRanks | web-app/src/logic/allSteps.ts:124 | `forEach((r, i) => r[orderCol] = i + 1)` rewrites the ranks in place and nothing else |
| OrderNormalizer.RenumberGroup | web-app/src/logic/allSteps.ts:123-124 | the sort followed by the in-place renumbering computes the renumbered group |
| OrderNormalizer.NormalizeOrderingLoop | web-app/src/logic/allSteps.ts:111-128 | the grouping loop and the loop over groups compute step 3 |
| CapacitySelector.LastWins | web-app/src/logic/allSteps.ts:143-147 | `capMap` has exactly the codes of the capacity rows |
| CapacitySelector.LastWinsValue | web-app/src/logic/allSteps.ts:143-147 | a code maps to the ALL of its last capacity row |
| CapacitySelector.BuildCapMap | web-app/src/logic/allSteps.ts:143-147 | the loop filling `capMap` computes that map |
| CapacitySelector.TakeTopBy | web-app/src/logic/allSteps.ts:155-158 | an institute contributes min(cap, group size) rows, none when cap ≤ 0 |
| CapacitySelector.TakeTopSub | web-app/src/logic/allSteps.ts:157-158 | the taken rows are rows of the group |
| CapacitySelector.TakeTopSmallest | web-app/src/logic/allSteps.ts:157-158 | no row left out has a smaller rank than a row taken |
| CapacitySelector.TakeTopTies | web-app/src/logic/allSteps.ts:157-158 | among equal ranks the first rows in input order are taken |
| CapacitySelector.PerInstituteSelection | web-app/src/logic/allSteps.ts:150-159 | each institute's selected rows are its top `capMap[code] ?? 0` rows |
| CapacitySelector.NoCapacityNoneSelected | web-app/src/logic/allSteps.ts:155-156 | an institute absent from the capacity table or with cap ≤ 0 has nobody selected |
| CapacitySelector.BuildResultTableSub | web-app/src/logic/allSteps.ts:131-161 | step 4 output is a sub-multiset of its input |
| CapacitySelector.GroupShare | web-app/src/logic/allSteps.ts:155-158 | one group's share is nothing without capacity, else its best-ranked rows |
| CapacitySelector.SelectGroups | web-app/src/logic/allSteps.ts:153-159 | the loop over `Object.entries(groups)` computes the selection |
| CapacitySelector.BuildResultTableLoop | web-app/src/logic/allSteps.ts:131-161 | `step4_buildResultTable` computes the specified selection |
| NominationUpdater.FlagIffSelected | web-app/src/logic/allSteps.ts:174-182 | a working row becomes ANO exactly when a selected row has its student and institute, and NE otherwise |
| NominationUpdater.UpdateWork | web-app/src/logic/allSteps.ts:176-182 | the corrected half of the step-5 finding: matching by the (student, institute) pair instead of the joined text, step 5 keeps the working table's length; its flags are stated by FlagIffSelected |
| NominationUpdater.ResultAllNominated | web-app/src/logic/allSteps.ts:184 | every selected row comes out ANO |
| NominationUpdater.OnlyFlagsChange | web-app/src/logic/allSteps.ts:179-184 | step 5 changes the flag and nothing else, in both tables |
| NominationUpdater.UpdateWorkIdempotent | web-app/src/logic/allSteps.ts:179-182 | updating twice with the same selection is updating once |
| NominationUpdater.BuildAccepted | web-app/src/logic/allSteps.ts:174-177 | the loop filling `accepted` collects every selected (student, institute) pair |
| NominationUpdater.UpdateWorkAsWritten | web-app/src/logic/allSteps.ts:176-181 | flagging by the joined `uk\|\|code` string keeps the working table's length |
| NominationUpdater.AsWrittenAgreesWithoutBars | web-app/src/logic/allSteps.ts:176-181 | when no student number holds '\|', the joined string decides as the pair does |
| NominationUpdater.CollidingKeys | web-app/src/logic/allSteps.ts:176-181 | two different pairs that join to one string: the string nominates where the pair refuses |
| NominationUpdater.JoinKeyCollides | web-app/src/logic/allSteps.ts:176-181 | student x at institute "y\|\|z" is nominated by the selection of student "x\|\|y" at institute z |
| ConflictGraph.Normalize | web-app/src/logic/allSteps.ts:207-211 | normalising a row keeps its student, its institute and every other column |
| ConflictGraph.Entries | web-app/src/logic/allSteps.ts:204-211 | the normalised table keeps each row's position, student and institute |
| ConflictGraph.BothSet | web-app/src/logic/allSteps.ts:218-225 | `studentsWithBoth` holds exactly the students with an ANO and an NE row |
| ConflictGraph.ConflictOrderHas | web-app/src/logic/allSteps.ts:219-225 | `Object.entries(byUk)` lists every student once, and `studentsWithBoth` in that order holds exactly the conflicted students |
| ConflictGraph.EdgeMapGraph | web-app/src/logic/allSteps.ts:230-242 | the edge lists of step 6 are a graph over the conflicted students whose successors are exactly the conflict edges, without repeats |
| ConflictGraph.EdgeMapCycles | web-app/src/logic/allSteps.ts:230-265 | the edge lists and the conflict graph have the same cycles |
| ConflictGraph.FoundConflictCyclesSound | web-app/src/logic/allSteps.ts:245-265 | every cycle `findCycles` reports is a cycle of the conflict graph |
| ConflictGraph.FoundConflictCyclesComplete | web-app/src/logic/allSteps.ts:245-265 | `findCycles` reports no cycle exactly when the conflict graph has none |
| ConflictGraph.SingleEdge | web-app/src/logic/allSteps.ts:230-242 | a student whose only conflict edge goes to b gets the edge list [b] |
| ConflictGraph.RingEdges | web-app/src/logic/allSteps.ts:230-242 | three conflicted students, each refused where the next is accepted, get the edge lists of a ring |
| ConflictGraph.RingFound | web-app/src/logic/allSteps.ts:245-265 | on such a ring `findCycles` reports exactly one cycle, made of the three students |
| ConflictGraph.AddBlockers | web-app/src/logic/allSteps.ts:236-240 | the scan of one refused row's institute computes `AddedBlockers`: every other conflicted student accepted there is added once, at the end, in table order |
| ConflictGraph.Successors | web-app/src/logic/allSteps.ts:232-241 | `edges[uk]` is `SuccessorsUpTo` of the whole table: exactly the students u has an edge to, each once, in first-insertion order |
| ConflictGraph.BuildEdges | web-app/src/logic/allSteps.ts:230-242 | the edge lists are `EdgeMap`: they cover exactly the conflicted students, have no self-loops, and hold exactly the conflict edges |
| ConflictGraph.CycleOfEdges | web-app/src/logic/allSteps.ts:245-264 | a cycle of the built edge lists is a cycle of the conflict graph |
| GraphSearch.IndexOf | web-app/src/logic/allSteps.ts:254 | `path.indexOf(cur)` is the first position of cur |
| GraphSearch.ClosingCycle | web-app/src/logic/allSteps.ts:254 | reaching a student on the path closes a cycle from its first position |
| GraphSearch.Search | web-app/src/logic/allSteps.ts:253-260 | `dfs(cur)` as a function: a student on the path closes a cycle, a visited one gives nothing, otherwise its successors are tried; it only adds visited students, all of the graph |
| GraphSearch.Through | web-app/src/logic/allSteps.ts:257 | the loop over `edges[cur]` as a function: the first successor whose search reports a cycle decides, the visited set carries over between successors |
| GraphSearch.SearchSound | web-app/src/logic/allSteps.ts:253-260 | a cycle `dfs` reports is a cycle of the edges, over the graph's students |
| GraphSearch.CollectSound | web-app/src/logic/allSteps.ts:245-265 | every cycle `findCycles` collects is a cycle of the edges, of at least two students |
| GraphSearch.FoundCyclesComplete | web-app/src/logic/allSteps.ts:245-265 | trying every student, `findCycles` reports no cycle exactly when the graph has none |
| GraphSearch.RingFrom | web-app/src/logic/allSteps.ts:245-265 | on the ring a → b → c → a, started at a, `findCycles` reports exactly [a, b, c] |
| GraphSearch.RingOfThree | web-app/src/logic/allSteps.ts:245-265 | on a ring of three, whatever the order of the students, `findCycles` reports one cycle of the three, starting at the first student tried |
| GraphSearch.CycleSearch.constructor | web-app/src/logic/allSteps.ts:250-252 | the search starts with an empty path, path set and visited set |
| GraphSearch.CycleSearch.Enter | web-app/src/logic/allSteps.ts:256 | `visited.add; path.push; pathSet.add` extends the path by cur and marks it visited |
| GraphSearch.CycleSearch.Dfs | web-app/src/logic/allSteps.ts:253-260 | `dfs` computes `Search`: its cycle and its visited set are the function's; a reported cycle is a cycle of the edges; with none, the path is restored |
| GraphSearch.CycleSearch.Visit | web-app/src/logic/allSteps.ts:257 | one successor's search computes `Search` from that successor, keeps the path on failure and reports only cycles |
| GraphSearch.CycleSearch.Explore | web-app/src/logic/allSteps.ts:257-259 | the loop over successors, then `path.pop(); pathSet.delete(cur)`, computes `Through` over `edges[cur]` |
| GraphSearch.FindCycles | web-app/src/logic/allSteps.ts:245-265 | the loop of `findCycles` computes `FoundCycles`, and every reported cycle is a cycle of the edges over the graph's students |
| CycleResolution.BestRowIsFirstLowest | web-app/src/logic/allSteps.ts:270-272 | the row tested is one of the student's rows with the lowest priority |
| CycleResolution.Admitted | web-app/src/logic/allSteps.ts:270-279 | one student's test: fewer than `cap` rows ranked ahead at the school of their best remaining row |
| CycleResolution.WouldAllGetNomLoop | web-app/src/logic/allSteps.ts:267-282 | `wouldAllGetNom` is true exactly when every member passes in the table without the members' ANO rows |
| CycleResolution.MarkVictims | web-app/src/logic/allSteps.ts:290-292 | one cycle's pass marks its members' ANO rows, or its members' NE rows |
| CycleResolution.MarkCycle | web-app/src/logic/allSteps.ts:288-293 | one cycle deletes ANO rows when the test passes and NE rows when it fails |
| CycleResolution.MarkCycles | web-app/src/logic/allSteps.ts:284-294 | the loop over the cycles marks each cycle's rows |
| CycleResolution.VictimsDeleted | web-app/src/logic/allSteps.ts:287-294 | every cycle's rows are among the deletions |
| CycleResolution.CycleDeletionOrigin | web-app/src/logic/allSteps.ts:287-294 | every deletion of the cycle loop comes from some cycle |
| CycleResolution.CycleResolved | web-app/src/logic/allSteps.ts:287-294 | for any list of cycles, a member's ANO row is deleted when its cycle's test passes, and its NE row when the test fails |
| GraphSearch.ProcessedStudents | web-app/src/logic/allSteps.ts:297-298 | `processedUks` (and `processed_uks` in `app.py`, which is built the same way) holds exactly the members of the reported cycles |
| CycleResolution.FindDup | web-app/src/logic/allSteps.ts:307-308 | `anyDup` is true exactly when another student accepted at the school holds several rows |
| CycleResolution.MarkDangling | web-app/src/logic/allSteps.ts:305-313 | each refused row whose school has no duplicated competitor is marked |
| CycleResolution.PruneStudent | web-app/src/logic/allSteps.ts:302-313 | one student outside the cycles: nothing unless conflicted, else their unblocked NE rows |
| CycleResolution.PruneDangling | web-app/src/logic/allSteps.ts:300-314 | the non-cycle pass marks the unblocked NE rows of the students outside every cycle |
| CycleResolution.StudentGroups | web-app/src/logic/allSteps.ts:219-220 | `byUk` holds every student once, with their rows in order |
| CycleResolution.ConflictedStudents | web-app/src/logic/allSteps.ts:221-225 | the loop over `byUk` lists the conflicted students in enumeration order, and finds exactly them |
| CycleResolution.SearchConflicts | web-app/src/logic/allSteps.ts:229-265 | building `edges` and running `findCycles` gives exactly `FoundConflictCycles`, each a conflict cycle |
| CycleResolution.KeepRows | web-app/src/logic/allSteps.ts:316 | the final filter never lengthens the table |
| CycleResolution.KeepRowsUnchanged | web-app/src/logic/allSteps.ts:316 | the filter removes nothing exactly when no marked index is a row |
| CycleResolution.KeepRowsLoop | web-app/src/logic/allSteps.ts:316 | the filter loop keeps the unmarked rows in order |
| CycleResolution.ResolveConflicts | web-app/src/logic/allSteps.ts:229-314 | the graph, the search and the two passes find exactly `FoundConflictCycles` and mark exactly the specified rows |
| CycleResolution.ResolveCycles | web-app/src/logic/allSteps.ts:190-317 | `step6_resolveCycles` computes `Resolve` of its inputs, with exactly the cycles `findCycles` reports; with no conflicted student it returns the normalised table |
| CycleResolution.CycleMembersConflicted | web-app/src/logic/allSteps.ts:231-242 | every member of a conflict cycle holds both an ANO and an NE row |
| CycleResolution.DeletedAreConflicted | web-app/src/logic/allSteps.ts:284-316 | step 6 deletes only rows of students holding both an ANO and an NE row |
| CycleResolution.UnconflictedKept | web-app/src/logic/allSteps.ts:284-316 | a student without both kinds of row keeps all their rows, in order |
| CycleResolution.NoConflictNoChange | web-app/src/logic/allSteps.ts:227 | with no conflicted student, step 6 returns the normalised table whole |
| CycleResolution.ResolveShrinks | web-app/src/logic/allSteps.ts:316 | step 6 output is a sub-multiset of the normalised input, and as long exactly when nothing is deleted |
| CycleResolution.RingResolvedTogether | web-app/src/logic/allSteps.ts:245-294 | three students blocking each other in a ring form one cycle and are resolved together: all their ANO rows are deleted when they would all get in, all their NE rows otherwise |
| CapacityAdjustment.MentionedBachelor | web-app/src/logic/computeOccupancy.ts:35-38 | a text containing a bachelor's word is "BC" |
| CapacityAdjustment.MentionedMaster | web-app/src/logic/computeOccupancy.ts:35-39 | a text with a master's word and no bachelor's word is "MGR" |
| CapacityAdjustment.MentionedDoctoral | web-app/src/logic/computeOccupancy.ts:35-40 | a text with a doctoral word and neither earlier kind is "PHD" |
| CapacityAdjustment.UnlistedLetters | web-app/src/logic/computeOccupancy.ts:38-41 | a text without the letters B, D, G and T matches no list, so it falls to "ALL" |
| CapacityAdjustment.MscIsAll | web-app/src/logic/computeOccupancy.ts:35-41 | "MSC" is read as "ALL" here, while step 1 reads it as a master's degree |
| CapacityAdjustment.CapacitiesKeepCodedRows | web-app/src/logic/computeOccupancy.ts:56-65 | the parsed capacities are the rows with a non-blank code, parsed, in order |
| CapacityAdjustment.Parsed | web-app/src/logic/computeOccupancy.ts:68-85 | one application per row, in order, with id `row-<index>` and rank 0 |
| CapacityAdjustment.RowIdRoundTrip | web-app/src/logic/computeOccupancy.ts:70 | the row index reads back from the id |
| CapacityAdjustment.ParsedIdsUnique | web-app/src/logic/computeOccupancy.ts:70 | two rows never share an id |
| CapacityAdjustment.ParsedPriority | web-app/src/logic/computeOccupancy.ts:81 | a falsy priority becomes 999, and a positive number stays itself |
| CapacityAdjustment.ParsedNominated | web-app/src/logic/computeOccupancy.ts:80 | nominated exactly when the upper-cased, trimmed flag is "ANO" |
| CapacityAdjustment.OccupiedCountsNominations | web-app/src/logic/computeOccupancy.ts:95-116 | ALL counts exactly the institute's nominated applications, and the buckets together never exceed it |
| CapacityAdjustment.InitOccupied | web-app/src/logic/computeOccupancy.ts:88-93 | every capacity institute starts at zero counts |
| CapacityAdjustment.CountNominations | web-app/src/logic/computeOccupancy.ts:95-116 | the counting loop leaves each capacity institute, and each other counted institute, with its tally |
| CapacityAdjustment.Clamp | web-app/src/logic/computeOccupancy.ts:127-130 | `max(0, cap - used)` is never negative, never above a non-negative cap, and exact when used ≤ cap; NaN stays NaN |
| CapacityAdjustment.AdjustCapacity | web-app/src/logic/computeOccupancy.ts:122-135 | the adjusted row keeps its code and original row |
| CapacityAdjustment.ComputeRemaining | web-app/src/logic/computeOccupancy.ts:44-142 | `computeOccupancy` returns the parsed tables, the counts, and each capacity less its institute's tally, in order |
| PyOccupancy.OccupancyRaises | app.py:154-165 | `compute_occupancy`, with either degree table, raises exactly when the capacity code column or an application code, degree or flag column is unmapped |
| PyOccupancy.ComputeOccupancy | app.py:150-207 | the corrected half of the "BSc" finding: the capacity table comes back row for row with its codes, and the returned `nominated` frame holds accepted rows only |
| PyOccupancy.AllCountsAccepted | app.py:182-186 | the ALL count of an institute is its number of accepted applications |
| PyOccupancy.BucketCountsAccepted | app.py:175-180 | a bucket count is the number of accepted applications of that degree bucket |
| PyOccupancy.CountFor | app.py:175-186 | the bucket counts of an institute together never exceed its ALL count |
| PyOccupancy.OccupancyOverwrites | app.py:188-205 | with any degree table, each mapped counter column is overwritten with the institute's count, 0 when it has none, and the other cells are kept |
| PyOccupancy.UpperIsNotBSc | app.py:58-68 | upper-cased text is never "BSc" |
| PyOccupancy.AsWrittenMissesBsc | app.py:58-68 | the table as written reads every degree as the corrected one does, except "BSC", which it misses |
| PyOccupancy.BScNotCounted | app.py:167-173 | a "BSc" application falls in no bucket as written, and in BC with the corrected table |
| PyOccupancy.CorrectedMatchesStepOne | app.py:58-68 | the corrected table reads a non-blank degree exactly as step 1 of the web app does, for text with no character that is white space to only one of `strip` and `trim` |
| PyOccupancy.MarkedDegreeDiffers | app.py:166-168 | a degree "BC" led by a byte order mark falls in no bucket in `compute_occupancy`, where `strip` keeps the mark, but in BC in step 1, where `trim` drops it |
| PyOccupancy.AsWrittenAgreesWithoutBsc | app.py:58-205 | both tables count alike unless an accepted application's degree text is "BSC" |
| PyOccupancy.BScApplicationCounts | app.py:58-205 | one accepted "BSc" application counts in ALL only as written, and also in BC with the corrected table |
| PyDuplicates.MinSkipNaN | app.py:231 | `min()` skips NaN; it is NaN exactly when every priority is NaN, and else one of them |
| PyDuplicates.BestAnoIsMin | app.py:228-231 | the best ANO priority is the least numeric ANO priority, NaN when there is none |
| PyDuplicates.FilterGroupKeeps | app.py:227-234 | a group with no ANO, or a NaN minimum, is kept whole; otherwise the rows at or under the minimum |
| PyDuplicates.KeepsBestAno | app.py:234 | a group with a numeric best ANO priority keeps an ANO row and drops every NaN-priority row |
| PyDuplicates.FilterDuplicatesRaises | app.py:214-221 | the function raises exactly when the student, flag or priority column is unmapped |
| PyDuplicates.PerStudent | app.py:223-242 | each student's output rows are `filter_group` of that student's prepared rows |
| PyDuplicates.FilterDuplicatesSub | app.py:236-242 | the output is a sub-multiset of the prepared rows |
| PyOrdering.SortNaNLast | app.py:259 | `sort_values(na_position="last")` gives a permutation with numeric ranks ascending and NaN ranks last |
| PyOrdering.RenumberGroup | app.py:258-261 | a renumbered group keeps its size and carries ranks 1..n |
| PyOrdering.RenumberGroupSpec | app.py:258-261 | the renumbered group is a NaN-last ordering of the group with ranks 1..n written over it |
| PyOrdering.NormalizeOrderingRaises | app.py:249-253 | the function raises exactly when the institute or rank column is unmapped |
| PyOrdering.PerInstitute | app.py:255-267 | each institute's output rows are its coerced rows, renumbered |
| PyOrdering.RanksPerInstitute | app.py:258-267 | each institute's rows carry ranks 1..n, one per input row |
| PyOrdering.NormalizeOrderingPerm | app.py:255-269 | apart from the ranks the output is a permutation of the input, of the same length |
| PySelection.LocInt | app.py:297-298 | a capacity lookup is 0 for an absent code, the number for one numeric row, and raises otherwise |
| PySelection.CapacityAbsent | app.py:295-303 | a code missing from the capacity table has capacity 0 |
| PySelection.CapacityValue | app.py:295-303 | for a code held by one row, capacity is its ALL when ALL is mapped, else the sum of its mapped BC, MGR and PHD |
| PySelection.CapacityRaises | app.py:295-303 | the lookup raises exactly when the code is held by several rows or a consulted cell is not numeric |
| PySelection.SumOfValue | app.py:299-303 | the sum succeeds exactly when every lookup does, and is then their total |
| PySelection.CapacityForId | app.py:295-303 | `capacity_for_id` computes the specified capacity |
| PySelection.SumLoop | app.py:299-302 | the loop over the counter columns adds each mapped one, raising at the first failure |
| PySelection.SumColumns | app.py:299-303 | the sum branch as the loop over BC, MGR and PHD |
| PySelection.Head | app.py:314 | `head(n)` has min(n, size) rows, none for n ≤ 0 |
| PySelection.ColumnsMissing | app.py:284-291 | the function raises exactly when the capacity code, institute or rank column is unmapped |
| PySelection.FirstErrorNone | app.py:309-310 | no error is raised exactly when every group's capacity lookup succeeds |
| PySelection.ResultTableRaises | app.py:284-319 | `build_result_table` raises exactly when a column is unmapped or some row's capacity lookup raises |
| PySelection.SelectionRaises | app.py:309-319 | the selection raises exactly when some row's capacity lookup raises |
| PySelection.TakeGroupSpec | app.py:310-314 | an institute's share is a quota-long prefix of a NaN-last rank ordering of its rows |
| PySelection.Quota | app.py:310-314 | an institute receives no more rows than it has |
| PySelection.SelectionPerInstitute | app.py:309-319 | each institute's selected rows are its share of its coerced rows |
| PySelection.SelectionSub | app.py:309-319 | the selection takes rows of the coerced table, each at most once |
| PySelection.BuildResultTable | app.py:272-319 | `build_result_table`, up to the output projection, computes the specified selection |
| PySelection.SelectGroups | app.py:308-319 | the loop over the groups appends each positive-capacity group's head |
| PyNominations.NominationCheck | app.py:358-365 | no error exactly when the three columns are mapped and the student and institute columns are in the result table |
| PyNominations.UpdateRaises | app.py:354-365 | `update_nominations` raises exactly in those two cases |
| PyNominations.CollectPairs | app.py:368-373 | the loop collects exactly the result rows' pairs with both parts non-empty |
| PyNominations.FlagIffAccepted | app.py:376-383 | a working row becomes ANO exactly when a result row with non-empty parts has its pair, and NE otherwise |
| PyNominations.EmptyKeyRefused | app.py:368-383 | a working row with a NaN or empty student or institute is never nominated |
| PyNominations.ResultAllNominated | app.py:385-386 | every result row becomes ANO |
| PyNominations.OnlyFlagsChange | app.py:376-386 | only the flags change, in both tables |
| PyNominations.NominateWorkIdempotent | app.py:376-383 | updating twice with the same result table is updating once |
| PyCycles.BothSet | app.py:436-442 | `students_with_both` holds exactly the students with an ANO and an NE row, and never NaN |
| PyCycles.ConflictOrderHas | app.py:436-442 | the students `find_cycles` tries are exactly the conflicted ones |
| PyCycles.ConflictedStudents | app.py:436-442 | the loop over the unique students lists the conflicted ones in order of first appearance, and finds exactly them |
| PyCycles.AddBlockers | app.py:456-463 | one refused row computes `AddedBlockers`: every other conflicted student accepted at its school is added once |
| PyCycles.Successors | app.py:451-463 | `edges[uk]` is `SuccessorsUpTo` of the whole frame: exactly the students u has an edge to, each once |
| PyCycles.EdgeEnds | app.py:458-462 | an edge joins two different conflicted students |
| PyCycles.BuildEdges | app.py:447-463 | the edge lists are `EdgeMap`: they cover exactly the conflicted students and hold exactly the conflict edges |
| PyCycles.EdgeMapGraph | app.py:447-463 | the edge lists are a graph over the conflicted students whose successors are exactly the conflict edges, without repeats |
| PyCycles.EdgeListCycles | app.py:447-503 | any edge lists with the conflict graph's successors have exactly its cycles |
| PyCycles.AnyOrderComplete | app.py:430-503 | in whatever order the two sets are iterated, the search reports only conflict cycles, and none exactly when there is none |
| PyCycles.FoundConflictCyclesComplete | app.py:430-503 | for the order the model fixes, `find_cycles` is sound and reports nothing exactly when there is no conflict cycle |
| PyCycles.SingleEdge | app.py:447-463 | a student whose only conflict edge goes to b gets the edge list [b] |
| PyCycles.RingEdges | app.py:447-463 | three conflicted students, each refused where the next is accepted, get the edge lists of a ring |
| PyCycles.RingFound | app.py:430-503 | on such a ring `find_cycles` returns exactly one cycle, made of the three students |
| PyCycles.SearchConflicts | app.py:447-503 | building `edges` and searching it gives exactly `FoundConflictCycles`, each a conflict cycle |
| PyCycles.CycleOfEdges | app.py:464-503 | a cycle of the built edge lists is a cycle of the conflict graph |
| PyCycles.FindConflictCycles | app.py:430-503 | `find_cycles` computes `FoundConflictCycles`; every reported cycle is a conflict cycle; none without conflicted students |
| PyCycles.DropAccepted | app.py:507-512 | the loop dropping each member's ANO rows computes the hypothetical table |
| PyCycles.BestRow | app.py:515-518 | the row tested is one of the student's remaining rows |
| PyCycles.BestRowLowest | app.py:516-518 | with a priority column the tested row has the lowest numeric priority, without one it is the first row |
| PyCycles.Admitted | app.py:515-532 | one student's test counts the rows ranked ahead at the school of their first remaining row |
| PyCycles.WouldAllGetNominatedLoop | app.py:505-534 | `would_all_get_nominated` drops the members' ANO rows, then tests the members in turn |
| PyCycles.AllPassedIff | app.py:515-534 | the test passes exactly when every member passes, and raises only with some member's error |
| PyCycles.AllPassedOrderFree | app.py:515-534 | tested in any order, the same members give the same verdict when none of their lookups raises |
| PyCycles.AnyOrderSameVerdict | app.py:505-540 | whatever order `set(cycle)` is iterated in, `would_all_get_nominated` gives the cycle-order verdict when no member's capacity lookup raises |
| PyCycles.OrderDecidesRaise | app.py:515-534 | with one member refused and another's lookup raising, the order decides between False and the error |
| PyCycles.NoAllColumnKeepsAccepted | app.py:425-428 | without a mapped ALL column every capacity is 0, so no cycle passes the test |
| PyCycles.CycleDeletionsNoAll | app.py:425-428 | without a mapped ALL column the cycle loop never raises |
| PyCycles.MarkVictims | app.py:544-551 | one cycle marks its members' ANO rows, or its members' NE rows |
| PyCycles.MarkCycles | app.py:539-551 | the loop over the cycles marks each cycle's rows and raises the first error |
| PyCycles.CycleDeletionsFailed | app.py:539-551 | once the loop raises on a prefix of the cycles, it raises that error |
| PyCycles.FindDup | app.py:575-580 | `any_has_duplicate` is true exactly when another student accepted at the school holds several rows |
| PyCycles.PruneStudent | app.py:562-584 | one student: nothing unless conflicted, else their NE rows whose school has no duplicated competitor |
| PyCycles.PruneDangling | app.py:558-584 | the non-cycle pass marks those rows for every student outside the cycles |
| PyCycles.ColumnCheck | app.py:409-415 | no error exactly when the four application columns and the capacity code column are mapped |
| PyCycles.ResolveDuplicateCycles | app.py:390-587 | `resolve_duplicate_cycles` computes `ResolveDuplicates` of its inputs, with exactly the cycles `find_cycles` returns |
| PyCycles.ResolveRaises | app.py:409-428 | the function raises exactly on an unmapped column or a failing capacity lookup, and never without an ALL column |
| PyCycles.VictimsDeleted | app.py:539-551 | every cycle's rows are among the deletions |
| PyCycles.CycleDeletionOrigin | app.py:539-551 | every cycle-loop deletion comes from some cycle's outcome |
| PyCycles.CycleResolved | app.py:539-551 | a member's ANO row is deleted when the test passes, and its NE row when it fails |
| PyCycles.RingResolvedTogether | app.py:430-551 | three students blocking each other in a ring form one cycle and are resolved together: all their ANO rows are marked when they would all be admitted, all their NE rows otherwise |
| PyCycles.CycleMembersConflicted | app.py:447-462 | every cycle member holds both an ANO and an NE row |
| PyCycles.DeletedAreConflicted | app.py:536-584 | only rows of conflicted students are deleted, and NaN students never lose a row |
| PyCycles.UnconflictedKept | app.py:536-587 | a student without both kinds of row keeps all their rows, in order |
| PyCycles.NoConflictNoCycle | app.py:444-445 | without conflicted students there is no cycle |
| PyCycles.NothingMarked | app.py:536-584 | without conflicted students nothing is marked |
| PyCycles.NoConflictNoChange | app.py:536-587 | without conflicted students the prepared table comes back whole |
| PyCycles.NoConflictUnchanged | app.py:390-587 | with the columns mapped and no conflicted student, `resolve_duplicate_cycles` returns the prepared frame whole |
| PyCycles.ResolutionShrinks | app.py:586-587 | the output is a sub-multiset of the prepared table, and as long exactly when nothing is deleted |
| Workflow.Round | web-app/src/App.tsx:235-242 | one round of steps 3 to 5 keeps the working length and flags every result row ANO |
| Workflow.RoundSteps | web-app/src/App.tsx:235-242 | the three calls of a round compute that round |
| Workflow.UnshrunkIsNormalized | web-app/src/App.tsx:245-250 | a step 6 that deletes nothing only normalises the table |
| Workflow.RunFromSettles | web-app/src/App.tsx:233-251 | the rounds end: at least one runs, each but the last deletes a row, the result is all ANO, and the last round deleted nothing |
| Workflow.Turn | web-app/src/App.tsx:235-246 | one pass of the loop body runs steps 3 to 5, then step 6, which never lengthens the table |
| Workflow.ResolveStep | web-app/src/App.tsx:245-246 | step 6 as the runners call it computes `Resolve`; it never lengthens the table and only normalises when it deletes nothing |
| Workflow.Rounds | web-app/src/App.tsx:233-251 | the `while (!done)` loop computes `RunFrom` of the working table: the final tables and the iteration count are those of its rounds, the last of which deleted nothing |
| Workflow.Pipeline | web-app/src/App.tsx:225-251 | steps 1 and 2 once, then the rounds: the adjusted capacities of step 1 and `RunFrom` of the step-2 table |
| Workflow.App.constructor | web-app/src/App.tsx:107-120 | the page starts at step 0, iteration 1, not finished, with no error and empty tables |
| Workflow.App.Set | web-app/src/App.tsx:181-215 | the setters store the new tables and counters and clear the error |
| Workflow.App.RunStep | web-app/src/App.tsx:180-220 | step n replaces exactly the state it sets; a deleting step 6 goes back to step 2 of a new iteration, so step 3 is next; a non-deleting one finishes |
| Workflow.App.RunAll | web-app/src/App.tsx:222-255 | `runAll` finishes at step 6 with the step-1 capacities and `RunFrom` of the step-2 table: the settled working table, an all-ANO result and the number of rounds |

## Left out

- Reading the spreadsheets, the column mappers chosen in the UI, React rendering, Streamlit widgets and the log messages are not modelled. The tables arrive as values.
- Columns are fixed fields of `Row` and `CapRow`, so each logical column is mapped. In the web app a step reads `r[undefined]` when a column is unmapped, and that case is not modelled. The Python functions do model unmapped columns, through `Pandas.GetCol`.
- Numbers are integers. Floating point, JavaScript `Number` parsing of decimals, exponents and hexadecimal text, and pandas float columns are not modelled. Text that is not an integer reads as 0 for `num` and as NaN for `to_numeric`.
- PyCycles.WouldAllGetNominatedLoop: tests the members in cycle order, while `would_all_get_nominated` iterates `set(cycle)` (app.py:540), whose order Python does not fix. When one member is refused and another's `get_capacity` raises, that order decides between returning False and raising (`PyCycles.OrderDecidesRaise`). When no lookup raises, every order gives the same verdict (`PyCycles.AnyOrderSameVerdict`).
- PyOccupancy.CorrectedMatchesStepOne: holds only for degree texts without U+FEFF, U+001C..U+001F or U+0085, which are white space to exactly one of `trim` and `strip` (`PyOccupancy.MarkedDegreeDiffers`).
- Cells.PyNumeric: pandas' own text-to-number parser is taken to skip the white space `str.strip` skips and to read integers only.
- Characters are upper-cased only in ASCII. Unicode case mapping is not modelled.
- pandas `groupby` sorts the group keys. The model takes the groups in order of first appearance. Every per-group lemma holds whatever the order, but the order of the Python outputs is not modelled.
- `Sorting.SortBy` is the JavaScript stable sort. For the pandas sorts, which are not stable, the model uses one stable order. The lemmas about them (`PyOrdering.RenumberGroupSpec`, `PySelection.TakeGroupSpec`) state only what any NaN-last ordering gives.
- `app.py`'s output-column projection in `build_result_table` (lines 321-344) is report formatting and is not modelled. `PySelection.BuildResultTable` returns the selected rows before that projection.
- `capacities_df.set_index` on an unmapped capacity code column raises a pandas error. The model reports it as the missing-column error.
- Step 3 rewrites the ranks of the row objects in place. The model rewrites copies. No other live reference to those rows exists in `runStep` or `runAll`, so nothing observes the difference.
- `appRaw.map(r => ({ ...r }))` is a value copy in the model.
- `runStep`'s `catch` branch, which only sets the error message, is not modelled.
- Grouping.GroupBy: keys that name an `Object.prototype` property ("constructor", "toString", "valueOf", "__proto__" and the like) are not modelled. The web app's plain-object maps already hold an inherited value under such a key, so `??=` assigns nothing. Then `.push` throws in steps 2, 3, 4 and 6 (allSteps.ts:96, 119, 151, 220), and `runStep` only reports the error. The model treats every key as the map's own key and returns a table there.
- Occupancy.CountOccupancy: for a key that names an `Object.prototype` property, step 1 (allSteps.ts:64-66) counts into the inherited object, so that code's ALL count becomes NaN. The model counts a fresh tally for every key.
- CapacityAdjustment.CountNominations: for such a key that is not a capacity code, computeOccupancy.ts:95-107 counts into the inherited object, so that code's counts are lost. The model counts a fresh tally for every key.
- Workflow.Round: uses the corrected step 5 (`NominationUpdater.UpdateWork`, matching by the (student, institute) pair), not the joined-text matching of allSteps.ts:176-181. The two agree when no student number contains '|' (`NominationUpdater.AsWrittenAgreesWithoutBars`).
- Workflow.RoundSteps: uses the corrected step 5 in the same way.
- Workflow.Rounds: uses the corrected step 5 through `Workflow.Round`.
- Workflow.Pipeline: uses the corrected step 5 through `Workflow.Round`.
- Workflow.App.RunStep: its step 5 is the corrected `NominationUpdater.UpdateWork`.
- Workflow.App.RunAll: uses the corrected step 5 through `Workflow.Round`.
- PyOccupancy.ComputeOccupancy: counts with the corrected degree table (key "BSC"), not DEGREE_TO_CAPACITY_COL as written at app.py:58-68. The two count alike unless an accepted application's degree text is "BSC" (`PyOccupancy.AsWrittenAgreesWithoutBsc`). `PyOccupancy.OccupancyRaises` and `PyOccupancy.OccupancyOverwrites` hold for either table.
- `PyCycles.ResolveDuplicates` fixes one iteration order for the Python sets `students_with_both` and `edges[uk]`. `PyCycles.AnyOrderComplete` holds for every order, but which cycles are reported first, and so which rows go, can depend on that order.
- `computeOccupancy`'s `stats` result is returned as the parsed capacities and the occupancy map, inside `CapacityAdjustment.ComputeRemaining`.

## Findings

| source | as written | input that shows it | evidently intended | confidence | as-written member | corrected member |
|---|---|---|---|---|---|---|
| web-app/src/logic/allSteps.ts:176-181 | step 5 matches a working row to the selection by the joined text `uk + "\|\|" + code` | working row: student "A", institute "B\|\|C". Selected row: student "A\|\|B", institute "C". Both join to "A\|\|B\|\|C", so the working row is flagged ANO | match on the (student, institute) pair, as `app.py` does at lines 368-380 | low: needs a student number containing "\|\|"; not executed | NominationUpdater.JoinKeyCollides | NominationUpdater.FlagIffSelected |
| app.py:60 | DEGREE_TO_CAPACITY_COL lists "BSc". The degree text is upper-cased at line 168 before the lookup, so this key can never match | an accepted application with degree "BSc" counts toward ALL but toward no BC column | the key "BSC", as in the web app's DEGREE_MAP (allSteps.ts:25) | high; not executed | PyOccupancy.BScApplicationCounts | PyOccupancy.CorrectedMatchesStepOne |
