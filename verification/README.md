# A verified model of the SQL engine's core

This project models, in Dafny, the parts of the engine where its results are decided:
the physical query operators, the planner pass that moves window calls out of
expressions, the view manager, the plan cache and the in-memory table store. Each
operator that the engine writes as a loop is a method proved against a short
definition of what it computes; what the definition means is then proved as lemmas.

Where the code does something other than it evidently intends, the model does what the
code does, and a lemma says exactly when the two agree.

| module | what it is about |
|---|---|
| `Values` | values, rows, the ordering comparison and the equality used for duplicates |
| `Sorting` | stable sorting as a unique permutation, the ORDER BY comparator |
| `Joins` | nested-loop, semi, anti and hash joins |
| `JoinKeys` | equality conditions on key columns, and which pairs hash and merge join can find |
| `MergeKeys` | key comparison and runs of equal keys |
| `MergeJoin` | sort-merge join |
| `SetOperations` | UNION, INTERSECT, EXCEPT, with and without ALL |
| `RecursiveCte` | the semi-naive loop of WITH RECURSIVE |
| `CteScheduling` | execution order of the expressions of a WITH RECURSIVE clause |
| `Aggregation` | aggregate states and hash grouping |
| `WindowRanks` | ROW_NUMBER, RANK and DENSE_RANK |
| `Expressions` | expression syntax, evaluation, three-valued conditions |
| `WindowExtraction` | rewriting window calls into generated columns |
| `ViewGraph` | cycle detection and dependency depth over arbitrary view graphs |
| `ViewManager` | views, their table dependencies, staleness and refresh |
| `PlanCache` | the bounded, aged, least-recently-used plan cache |
| `TableStore` | positional delete and restore, DELETE, rollback |

The central results:

- **Recursive CTE.** For a member that looks at its input row by row, UNION computes
  after `k` rounds exactly the rows reachable in at most `k` steps although it only
  ever sees the last delta; on convergence that is the least closed set. Inside a finite
  universe the number of rounds is bounded, so the cap of 1000 cuts nothing off, and the
  loop converges exactly when no cycle of rows with a timestamp or a list is reachable.
- **Cycle detection and depth.** For every view graph and every iteration order, the
  report is empty exactly when the graph is acyclic, although early returns leave stale
  entries in the recursion stack; later reports can be off every cycle, exactly on the
  graphs described; depth fails exactly when a cycle is reachable and is
  otherwise the length of the longest chain.
- **Joins.** For each of the nine join types, the exact condition under which the hash
  join, which ignores the type, gives the right rows in order. Merge join is the inner
  join plus one surplus row per matching run whose first pair satisfies the condition.
  It ignores the type as well, and on an equality condition over its sort columns it is
  right, even as a bag of rows, only where nothing was asked for and nothing found.
- **Window extraction.** The rewritten expression has the original's value, errors
  included, for every valuation of the window calls; both naming passes agree, the
  rename step is the identity, and every projection goes to exactly one place in the plan.
- **ORDER BY and aggregates, by value.** The sorted rows never decrease (or increase) in
  any key by the values themselves; SUM and AVG return the total and the number whose
  multiple is the total, MIN and MAX a value that bounds all others, for exactly the rows
  of each group.
- **Window ranks.** RANK, DENSE_RANK and ROW_NUMBER are counts of preceding rows,
  peer classes and positions, at every original position.
- **Rollback.** Restoring the rows of one DELETE gives the table back exactly when they
  come back in ascending order, for every table, condition and order. After two DELETEs
  the log still holds every deleted row exactly when no row position was deleted by both.
- **View freshness, plan cache.** Invariants of every reachable state: a materialized
  view that says Fresh was refreshed, with or without data, after every recorded change
  to its tables; cache
  sizes, counters and ages stay within their limits and every entry is accounted for.

Reading conventions: a float is a `real`; conditions, keys and recursive members are
arbitrary total functions; where a hash map's iteration order could matter, the result
is stated for every order; time is a parameter. Automatic induction is off for every
lemma, so each inductive proof is written out.

## Model

| member | source | states |
|---|---|---|
| Values.CompareValuesReverse | src/executor/operators.rs:12-50 | exchanging the operands reverses the comparison, for all kinds and every NULL placement |
| Values.CompareValuesTransitive | src/executor/operators.rs:12-50 | the priority table between kinds is consistent: comparison is transitive across all seven kinds and any NULL placement |
| Values.CompareValuesMeans | src/executor/operators.rs:12-50 | numbers and timestamps compare by size, false before true, strings as in a dictionary, different kinds in the fixed order boolean, list, timestamp, integer, float, string, lists all tie, and NULL goes where it is placed |
| Values.CompareStringsMeans | src/executor/operators.rs:33-33 | one string is less than another if and only if it is a proper prefix or has the smaller character where they first differ; they tie only when equal |
| Values.TiesIgnoreNullPlacement | src/executor/operators.rs:12-50 | whether two values tie does not depend on NULLS FIRST or LAST |
| Values.RowsEqualIsIdentityOnComparable | src/executor/operators.rs:2507-2531 | two rows are equal for duplicate elimination if and only if they are the same row and hold no timestamp or list |
| Values.RowsContainMeans | src/executor/operators.rs:2533-2536 | a row is found in a list if and only if it occurs there and holds no timestamp or list |
| Sorting.BeforeIsStrictOrder | src/executor/operators.rs:4292-4330 | "must come before, ties by position" is a strict total order of positions |
| Sorting.StableOrderUnique | src/executor/operators.rs:4292-4330 | exactly one listing of the positions is a stable sorted order |
| Sorting.AscendingUnique | src/executor/operators.rs:4292-4330 | two ascending listings of the same positions are equal |
| Sorting.RowOrderPreorder | src/executor/operators.rs:4292-4330 | for every mix of directions and NULL placements the ORDER BY comparator is a total preorder on rows whose keys evaluate |
| Sorting.OneKeyPreorderIff | src/executor/operators.rs:4292-4330 | when a key may fail to evaluate, the comparator is a preorder if and only if no row fails or all evaluable rows tie |
| Sorting.NullPlacement | src/executor/operators.rs:4317-4320 | where a NULL key lands under ASC and DESC: DESC reverses the requested placement too |
| Sorting.ExecuteSortIsTheStableSort | src/executor/operators.rs:4275-4332 | the operator returns the unique stable sort of its input, a permutation of it, also on the path that skips sorting |
| Sorting.SortedByKeys | src/executor/operators.rs:4275-4332 | the result is in order by its values: among rows that agree on the keys before it, each key never decreases under ASC, never increases under DESC, and NULLs stand at the end they were placed |
| Sorting.SortedIntegers | src/executor/operators.rs:4275-4332 | with a first key of integers, those of the result never decrease under ASC and never increase under DESC |
| Sorting.SortingTwice | src/executor/operators.rs:4292-4330 | stable sorting by the minor and then the major comparator is sorting by their lexicographic combination |
| Sorting.SortingTwiceIsSortingByBoth | src/executor/operators.rs:4292-4330 | sorting by keys k2 and then by k1 equals sorting by k1 followed by k2 |
| Joins.MatchOne | src/executor/operators.rs:676-689 | one pass of the inner loop emits exactly the partners of a left row in order and flags every right row it met |
| Joins.MatchAll | src/executor/operators.rs:671-689 | the double loop emits the inner join; afterwards each flag says whether its row has a partner |
| Joins.ExecuteJoin | src/executor/operators.rs:613-640 | each of the nine join types gives its reference result: the outer-join family both sides, semi and anti joins exactly the rows of one side with or without a partner |
| Joins.NestedLoopJoin | src/executor/operators.rs:643-735 | the result is the inner join followed by the partnerless rows of the preserved sides, each as often as in its input and with NULL in every column of the other side |
| Joins.OuterJoinPads | src/executor/operators.rs:692-713 | behind the inner join stand exactly the partnerless rows of the preserved sides, each as often as in its input, with NULL in every column of the other side |
| Joins.AppendUnmatchedLeft | src/executor/operators.rs:692-701 | appends exactly the partnerless left rows, padded on the right |
| Joins.AppendUnmatchedRight | src/executor/operators.rs:703-713 | appends exactly the partnerless right rows, padded on the left |
| Joins.SemiOrAntiJoin | src/executor/operators.rs:739-812 | keeps, in order, exactly the left rows with (semi) or without (anti) a partner |
| Joins.SemiAndAntiPartition | src/executor/operators.rs:739-812 | semi and anti join split the left input, duplicates included, and a LEFT join is the inner join followed by the padded anti join |
| Joins.OneSidedCounts | src/executor/operators.rs:739-812 | how often each row occurs in a semi or anti join: as often as in its input, or not at all |
| Joins.FilterIsSelection | src/executor/operators.rs:739-812 | filtering leaves the rows at exactly the positions that are to be kept, in their order |
| Joins.BlockPairsCount | src/executor/operators.rs:676-689 | the double loop meets every satisfying pair of positions exactly once and no other |
| Joins.JoinRowsFromPairs | src/executor/operators.rs:676-689 | the joined rows are those of the pairs, in order |
| Joins.JoinIsSymmetric | src/executor/operators.rs:643-735 | exchanging the inputs and the condition gives the same pairs with the sides swapped |
| Joins.BuildHashTable | src/executor/operators.rs:1641-1650 | the bucket of a key holds exactly the rows with that key in input order, and no bucket is empty |
| Joins.HashJoin | src/executor/operators.rs:1595-1639 | the output is, in order, the nested-loop inner join restricted to pairs with equal keys |
| Joins.Probe | src/executor/operators.rs:1613-1629 | a bucket is filtered by the full condition, in order |
| Joins.HashJoinRefinesNestedLoop | src/executor/operators.rs:1595-1664 | the hash join is the nested-loop inner join, row for row, if and only if every satisfying pair has equal hash keys |
| Joins.HashJoinIsReferenceIff | src/executor/operators.rs:1595-1639 | for all nine join types, the hash join, which ignores the type, gives the reference result if and only if: (both-sided types) every satisfying pair has equal keys and every preserved row has a partner; (semi) nothing has a partner; (anti) everything has a partner but none with an equal key |
| Joins.HashJoinIsOuterJoinIff | src/executor/operators.rs:1595-1639 | the same for INNER, CROSS, LEFT, RIGHT and FULL |
| Joins.HashJoinIsSemiJoinIff | src/executor/operators.rs:1595-1639 | the same for the two semi joins, for any rows of the other side with at least one column |
| Joins.JoinIsSelectionIff | src/executor/operators.rs:1595-1639 | a join equals a selection of the rows of one side if and only if both are empty |
| Joins.FixedWidthsAreApart | src/executor/operators.rs:1606-1638 | inputs of fixed widths meet the conditions of the semi and anti cases when the other side has a column |
| Joins.NothingAskedIff | src/executor/operators.rs:613-640 | for each join type, exactly which inputs ask for no row |
| Joins.SemiJoinLost | src/executor/operators.rs:1595-1639 | a concrete LEFT SEMI join whose rows the hash join gets wrong |
| Joins.AntiJoinCoincidence | src/executor/operators.rs:1595-1639 | an anti join on rows of different widths that coincides with the hash join by accident, so the anti case needs more than a non-empty other side |
| JoinKeys.HashMissesIff | src/executor/operators.rs:1652-1664 | two rows equal in every key column, whose cells render faithfully, have different hash keys if and only if an integer meets a float in some key column |
| JoinKeys.HashJoinLosesMixedPairs | src/executor/operators.rs:1595-1664 | on an equality condition the hash join is the nested-loop join if and only if no satisfying pair mixes integer and float; asked of the rendering of the cells that occur only |
| JoinKeys.MergeMissesIff | src/executor/operators.rs:1844-1865 | two rows equal in every key column compare as different sort keys if and only if an integer meets a float |
| JoinKeys.MergeJoinLosesMixedPairs | src/executor/operators.rs:1729-1865 | on an equality condition the key-equal join is the nested-loop join if and only if no satisfying pair mixes integer and float |
| JoinKeys.TiedCells | src/executor/operators.rs:1844-1865 | rows that tie on the sort columns hold the same value in each one that can be equal to something |
| JoinKeys.HeadsMatch | src/executor/operators.rs:1748-1790 | if two rows of equal keys satisfy an equality condition, so do the first rows of that key on both sides |
| JoinKeys.HeadRowTooOften | src/executor/operators.rs:1748-1790 | the row of such a first pair comes out more often than INNER, LEFT, RIGHT, FULL or CROSS asks for |
| JoinKeys.MergeJoinIsReferenceIff | src/executor/operators.rs:1729-1809 | for all nine join types, on an equality condition over the sort columns the emitted bag of rows is what the type asks for if and only if that is empty and every satisfying pair mixes integer and float |
| JoinKeys.ExecuteMergeJoin | src/executor/planner.rs:234-239 | the same of the operator's own output, whatever join type the planner passes |
| JoinKeys.EqualUnlessMixed | src/executor/expression.rs:940-951 | values that evaluate as equal are identical, and tie in the ordering, if and only if they are not an integer and a float |
| JoinKeys.EvaluateEqualsMeans | src/executor/expression.rs:940-951 | values of one kind are equal when they are the same, an integer and a float when they differ by less than the machine epsilon; NULL, timestamps and lists equal nothing |
| JoinKeys.KeyConditionMeans | src/executor/expression.rs:940-951 | an equality condition holds of two rows if and only if both have every key column with equal or nearly equal values in it |
| JoinKeys.JoinBarInjective | src/executor/operators.rs:1663-1663 | key parts that are equal or free of bars can be read back from the joined key |
| MergeKeys.ComparesKeys | src/executor/operators.rs:1844-1865 | comparing rows with differing column layouts is comparing their key vectors |
| MergeKeys.KeyOrderPreorder | src/executor/operators.rs:1811-1865 | the sort comparator is a total preorder on rows that have all sort columns |
| MergeJoin.SortInputOrder | src/executor/operators.rs:1811-1842 | the sorted input is the stable permutation of the input by key |
| MergeJoin.RunEnd | src/executor/operators.rs:1763-1774 | the scan stops at the end of the run of equal keys |
| MergeJoin.EmitRun | src/executor/operators.rs:1776-1788 | emits the satisfying combinations of two runs in double-loop order |
| MergeJoin.EmitMatch | src/executor/operators.rs:1755-1792 | a matching pair of runs emits each tied satisfying pair once and the head pair once more, and moves past both runs |
| MergeJoin.MergeSorted | src/executor/operators.rs:1744-1803 | whatever the inputs, only joined rows that satisfy the condition are emitted; on sorted inputs no tied pair is missed or repeated except the head pairs, each emitted twice |
| MergeJoin.MergedCounts | src/executor/operators.rs:1729-1809 | in terms of the unsorted inputs, each key-equal satisfying pair is emitted once, and the pair of first rows of a key twice |
| MergeJoin.RunStartIsFirst | src/executor/operators.rs:1811-1842 | a row starts a run after sorting if and only if it is the first row with its key before sorting |
| MergeJoin.SortMergeJoin | src/executor/operators.rs:1729-1809 | every output row joins two rows that satisfy the condition, even if rows lack sort columns; when none does, the output as a bag is the key-equal inner join plus one surplus row per key whose pair of first rows satisfies the condition, and it is that inner join if and only if there is no such key |
| MergeJoin.MergeJoinSurplus | src/executor/operators.rs:1757-1788 | any pairs with those counts give, as a bag of rows, the key-equal inner join plus the satisfying head pairs, and the inner join alone if and only if no head pair satisfies the condition |
| SetOperations.CountRowsMeans | src/executor/operators.rs:2538-2541 | counting finds the multiplicity of a row, or zero if the row holds a timestamp or list |
| SetOperations.PerformUnion | src/executor/operators.rs:2543-2563 | copies of every row: l + r with ALL; otherwise l when l is positive and else 1 when r is positive |
| SetOperations.PerformIntersect | src/executor/operators.rs:2565-2592 | copies of every row: min(l, r) with ALL, otherwise 1 when both are positive; none for rows with a timestamp or list |
| SetOperations.ReplaceCopies | src/executor/operators.rs:2571-2581 | replaces the findable copies of one row and leaves all other multiplicities alone |
| SetOperations.PerformExcept | src/executor/operators.rs:2594-2620 | copies of every row: max(0, l - r) with ALL, otherwise 1 when l is positive and r is zero, including the exact behaviour on rows with a timestamp or list |
| SetOperations.ExceptAdds | src/executor/operators.rs:2597-2617 | the decision for one left row in terms of the copies kept so far |
| SetOperations.ExecuteSetOperation | src/executor/operators.rs:2474-2505 | fails exactly on different column counts, otherwise every row has the multiplicity of its operator |
| SetOperations.FollowsStandardIff | src/executor/operators.rs:2543-2620 | the multiplicity agrees with section 7.13 of ISO/IEC 9075-2 if and only if the stated condition on operator, ALL, copies and kind of row holds |
| RecursiveCte.AddRows | src/executor/operators.rs:3971-3991 | the added rows, in order: all under ALL; otherwise those not known and not produced before, and those that are not equal to themselves; the set grows by exactly what was produced |
| RecursiveCte.NewRowsMean | src/executor/operators.rs:3971-3991 | what the new rows are as a set, that they bring no duplicate of a comparable row, and that hidden rows always count as new |
| RecursiveCte.OneRound | src/executor/operators.rs:3940-3995 | one round on the delta keeps the loop invariant |
| RecursiveCte.UnionStep | src/executor/operators.rs:3940-3995 | expanding only the delta still yields everything reachable in one more step |
| RecursiveCte.GrowthStep | src/executor/operators.rs:3940-3995 | in a finite universe every round but the last adds a new row |
| RecursiveCte.ClosedReachIsLeast | src/executor/operators.rs:3934-3995 | a reachable set closed under the member is the least closed set containing the anchor |
| RecursiveCte.ExecuteRecursiveCte | src/executor/operators.rs:3894-4008 | UNION: the rows reachable in the rounds made, the least closed set on convergence, the round bounds; in a universe whose bound is within the cap, convergence if and only if no cycle of timestamp or list rows is reachable. UNION ALL: exactly anchor, F(anchor), F(F(anchor)) ... up to the first empty step or the cap |
| RecursiveCte.CountIsCut | src/executor/operators.rs:3934-3940 | a count of n steps is made whole up to a thousand steps, and its first thousand steps if there are more |
| RecursiveCte.ConvergedMeansNotSustained | src/executor/operators.rs:3940-3995 | the loop never runs out of work once a cycle of rows that duplicate elimination cannot see is reached, in any universe |
| RecursiveCte.PatiencePays | src/executor/operators.rs:3940-3995 | without such a cycle the rounds are at most (findable comparable rows + 1) times (hidden rows + 1) |
| RecursiveCte.ChainFits | src/executor/operators.rs:3978-3991 | without such a cycle, a chain of hidden rows produced one from another is no longer than their number |
| CteScheduling.QueryDependencies | src/executor/operators.rs:3691-3733 | the dependencies of a query are exactly the known names it mentions in FROM or JOIN, at any depth of subqueries |
| CteScheduling.MentionsMeans | src/executor/operators.rs:3691-3733 | a query mentions a name if and only if it is a table or inside a subquery of its FROM or JOIN, or is mentioned on either side of a set operation |
| CteScheduling.DependenciesFirstIff | src/executor/operators.rs:3647-3654 | every expression comes strictly after its dependencies if and only if no non-recursive one has any, because those share the first group |
| CteScheduling.CteDependencyGraph.AddCte | src/executor/operators.rs:3617-3625 | adds one node whose dependencies are already known names; a fresh name extends any numbering in which dependencies come first |
| CteScheduling.CteDependencyGraph.BuildExecutionOrder | src/executor/operators.rs:3627-3689 | fails if and only if recursive expressions wait for each other in a circle; otherwise every expression is in exactly one group and each recursive one runs alone strictly after all its dependencies |
| CteScheduling.GroupByLevel | src/executor/operators.rs:3627-3689 | the same for the grouping loop itself, including termination |
| CteScheduling.ReadyNames | src/executor/operators.rs:3658-3671 | exactly the remaining names whose dependencies are all processed, each once |
| CteScheduling.RunAlone | src/executor/operators.rs:3679-3684 | each ready name becomes a group of its own and leaves the remaining set |
| CteScheduling.StuckIsCircular | src/executor/operators.rs:3673-3677 | if no remaining expression is ready, the remaining ones wait in a circle |
| CteScheduling.RankedNeverCircular | src/executor/operators.rs:3617-3625 | a graph whose nodes can be numbered with dependencies first has no circle |
| CteScheduling.ReflectsStep | src/executor/operators.rs:3617-3625 | after each addition the graph holds, for the last expression of every name, its own flag and exactly the earlier names its query mentions |
| CteScheduling.ScheduleClause | src/executor/operators.rs:3829-3844 | for every clause, the graph holds the last expression of each name with its own flag and mentioned earlier names; the circular-dependency error occurs if and only if these wait in a circle, never for distinct names; otherwise all are scheduled, and a recursive expression comes strictly after every earlier one its query mentions |
| CteScheduling.RepeatedNameCanBlock | src/executor/operators.rs:3617-3625 | adding a name twice can make an expression wait for itself |
| Aggregation.CountMeans | src/executor/expression.rs:279-296 | COUNT is the number of values that are not NULL, COUNT(DISTINCT) the number of different ones |
| Aggregation.DistinctMeans | src/executor/expression.rs:297-326 | the different values are those of the list, each once |
| Aggregation.SumMeans | src/executor/expression.rs:297-310 | SUM adds up the numeric values and ignores the others |
| Aggregation.SumDistinctMeans | src/executor/expression.rs:297-310 | SUM(DISTINCT) adds up each different value once |
| Aggregation.SumValue | src/executor/expression.rs:356-374 | SUM and SUM(DISTINCT) return the total of the (different) numbers: as an integer if whole and in range, as a float if not, saturating at the upper end |
| Aggregation.AvgMeans | src/executor/expression.rs:311-326 | AVG holds the total and the number of the numeric values |
| Aggregation.AvgDistinctMeans | src/executor/expression.rs:311-326 | AVG(DISTINCT) holds the total and the number of the different numeric values |
| Aggregation.AvgValue | src/executor/expression.rs:375-393 | AVG and AVG(DISTINCT) return the number whose multiple by the count of (different) numbers is their total, or NULL if there is none |
| Aggregation.AverageTimesCount | src/executor/expression.rs:375-393 | outside the saturating point, the returned average times the count is the total |
| Aggregation.NothingToAdd | src/executor/expression.rs:356-393 | SUM is never NULL and is 0 over no numeric values; AVG is NULL if and only if there is none |
| Aggregation.MinMeans | src/executor/expression.rs:327-338 | MIN is NULL if no value is present, otherwise one of the values with none smaller |
| Aggregation.MaxMeans | src/executor/expression.rs:339-350 | MAX is NULL if no value is present, otherwise one of the values with none greater |
| Aggregation.MinMaxValue | src/executor/expression.rs:394-406 | MIN and MAX return one of the values, with none smaller or none larger by value, or NULL if every value is |
| Aggregation.MinMaxOfIntegers | src/executor/expression.rs:327-350 | on integers and NULLs the results of MIN and MAX bound every integer and are among them |
| Aggregation.BuildGroups | src/executor/operators.rs:2150-2255 | one group per distinct key, holding the grouping values of its first row and the fold of each aggregate over exactly its rows in input order |
| Aggregation.EmitGroups | src/executor/operators.rs:2281-2362 | the rows of the groups, in group order, that HAVING accepts |
| Aggregation.FinalsMean | src/executor/operators.rs:2281-2362 | column by column, what COUNT, SUM, AVG, MIN and MAX, plain or DISTINCT, return for exactly the rows of a group |
| Aggregation.ExecuteAggregate | src/executor/operators.rs:2085-2394 | each key present in the input gives exactly one row, the grouping values of its first row followed by what its aggregates return, kept if HAVING accepts it; an empty input gives none with GROUP BY and one row of aggregates over nothing without |
| Aggregation.CountStarIsSize | src/executor/operators.rs:2214-2222 | COUNT(*) of a group is its number of rows |
| Aggregation.CountStarConserved | src/executor/operators.rs:2150-2362 | without HAVING the COUNT(*) values of all groups add up to the number of input rows |
| WindowRanks.PeersAreTies | src/executor/operators.rs:3361-3424 | peer recognition agrees with ties of the sort, whatever directions and NULL placements the sort uses |
| WindowRanks.HeadStandsForRun | src/executor/operators.rs:3264-3345 | comparing with the values stored at the last change of rank is comparing with the previous row |
| WindowRanks.WalkedIsExpected | src/executor/operators.rs:3264-3345 | the value computed along the sorted walk is the count that defines the function |
| WindowRanks.Walk | src/executor/operators.rs:2998-3016 | RANK and DENSE_RANK fail if and only if a key fails on some row; otherwise every result is written back to the original position of its row |
| WindowRanks.NumberRows | src/executor/operators.rs:3276-3283 | ROW_NUMBER counts along the sorted positions without evaluating a key |
| WindowRanks.SortedPositions | src/executor/operators.rs:2960-2996 | the positions are in the stable order of the ORDER BY, or as they come without one |
| WindowRanks.RankPartition | src/executor/operators.rs:2951-3017 | fails exactly for RANK or DENSE_RANK on keys that do not evaluate; otherwise, wherever the comparator is an order (always when the keys evaluate), at every original position RANK is 1 plus the strictly preceding rows, DENSE_RANK 1 plus the strictly preceding peer classes, ROW_NUMBER 1 plus the rows before it with ties by input position; ROW_NUMBER is a permutation of 1..n in any case |
| WindowRanks.RanksByNumber | src/executor/operators.rs:3284-3340 | ordered by integers, RANK is one more than the number of rows with a smaller number (larger under DESC), DENSE_RANK one more than the number of different ones |
| WindowRanks.RowNumbersRespectOrder | src/executor/operators.rs:3276-3283 | row numbers lie in 1..n, differ for different rows and respect the order with ties by input position |
| WindowRanks.ApplyRankings | src/executor/operators.rs:2951-3027 | fails if and only if some call fails; otherwise every row keeps its place and columns and gains one column per call, each computed with its own ORDER BY |
| Expressions.NullSpreads | src/executor/expression.rs:653-695 | a condition of AND, OR and NOT is NULL if and only if some operand below the connectives is NULL; otherwise it has its three-valued result |
| Expressions.ConditionIsKleeneIff | src/executor/expression.rs:205-223 | a condition has its three-valued result if and only if no operand is NULL or that result is unknown; it is true if and only if logic says true and no operand is NULL |
| Expressions.FalseAndNullIsNull | src/executor/expression.rs:806-812 | FALSE AND NULL evaluates to NULL although the truth table says FALSE |
| Expressions.TruthTables | src/executor/expression.rs:176-232 | AND is the smaller and OR the larger of two truths with unknown between false and true; NOT exchanges true and false |
| Expressions.TruthOfMeans | src/executor/expression.rs:176-196 | NULL is unknown; false, zero and what is empty are false; everything else is true |
| Expressions.CaseMeans | src/executor/expression.rs:607-640 | CASE has the value of the first branch that applies, or else of ELSE, or else NULL; an error before the choice is an error |
| Expressions.OperatorMeans | src/executor/expression.rs:536-560 | an operator sees the values of its operands left and right; an error stays an error, and a NULL gives NULL except under IS and IS NOT |
| Expressions.ListMeans | src/executor/expression.rs:579-586 | a list has the values of its items in their places, or an error if one has |
| Expressions.QualifiedFallback | src/executor/expression.rs:464-515 | how a qualified name that is not there is resolved: by the one column of that own name, or by the join, or alone |
| WindowExtraction.NamesDistinct | src/executor/planner.rs:1519-1521 | generated names are different for different counters and contain no dot |
| WindowExtraction.NameReads | src/executor/planner.rs:1518-1521 | a generated name is the prefix followed by its number in decimal |
| WindowExtraction.ContainsMeans | src/executor/planner.rs:1222-1292 | detection succeeds if and only if extraction would list a call or a subquery holds one |
| WindowExtraction.ExtractListsCalls | src/executor/planner.rs:1516-1665 | exactly the window calls of the expression are listed, left to right, under consecutive names, and none is left in the result |
| WindowExtraction.ExtractPreservesMeaning | src/executor/planner.rs:1516-1665 | with each generated column bound to its call's value, the rewritten expression has the value or error of the original, for every valuation, context and choice of primitives |
| WindowExtraction.CapturedColumn | src/executor/planner.rs:1516-1530 | with a source column named like the generated one, the rewritten sum of that column and a window call adds the call's value twice |
| WindowExtraction.ResolveAgrees | src/executor/expression.rs:460-535 | added columns without dots do not change what any other column name resolves to |
| WindowExtraction.NothingToExtract | src/executor/planner.rs:1516-1665 | an expression without window calls is returned unchanged and uses no name |
| WindowExtraction.ExtractExpression | src/executor/planner.rs:1516-1665 | the counter-threading recursion computes the extraction |
| WindowExtraction.ExtractList | src/executor/planner.rs:1562-1579 | the loop over arguments or items accumulates calls and replacements in order |
| WindowExtraction.ExtractCases | src/executor/planner.rs:1604-1617 | the loop over CASE branches takes each condition before its result |
| WindowExtraction.RenameGenerated | src/executor/planner.rs:1429-1436 | the rename loop applies every known alias of the extracted names |
| WindowExtraction.ReplaceColumnMeans | src/executor/planner.rs:1458-1513 | renaming a column in an expression and in the context leaves its value or error |
| WindowExtraction.AliasOne | src/executor/planner.rs:1396-1410 | the first pass records the alias of a direct call under its generated name and advances the counter by the calls found |
| WindowExtraction.CollectAliases | src/executor/planner.rs:1395-1410 | after the first pass the alias map holds exactly the direct calls |
| WindowExtraction.ComputedNameIsNoAlias | src/executor/planner.rs:1395-1439 | a name used inside a computed column is never the name of a direct call |
| WindowExtraction.RenameIsIdentity | src/executor/planner.rs:1395-1436 | the rename step changes no computed column |
| WindowExtraction.PlanOne | src/executor/planner.rs:1416-1452 | the second pass over one projection adds its base columns, window outputs and computed column |
| WindowExtraction.ExtractAndReplace | src/executor/planner.rs:1388-1455 | no output column is lost, doubled or moved: the three lists hold, in projection order and nothing else, plain projections, listed columns of stars, calls under their names, and computed projections (Planned); none depends on the alias map |
| WindowExtraction.AllPlanned | src/executor/planner.rs:1390-1456 | the three lists hold, in projection order and each at its place, every projection without window call as it is, the listed columns for every star, every direct call under its alias, every other call under its generated name, every computed projection under its own name, and nothing else |
| WindowExtraction.OutputsAreSlots | src/executor/planner.rs:1415-1452 | the window outputs are the calls of the list left to right; the k-th has its alias if direct and the k-th generated name if not |
| WindowExtraction.OutputNamesClashIff | src/executor/planner.rs:1415-1452 | two outputs share a name if and only if direct calls share an alias or a direct alias is the other's generated name |
| WindowExtraction.ComputedColumnMeaning | src/executor/planner.rs:1388-1455 | after the window step every computed column has the value of its projection and needs no window call |
| WindowExtraction.BaseColumnMeaning | src/executor/planner.rs:1440-1451 | a base column has one value whatever the window calls give |
| ViewGraph.SearchSound | src/catalog/view.rs:831-862 | for every order, from sound bookkeeping a report names a view on a cycle, and no report restores the stack and finishes the view |
| ViewGraph.SearchLittered | src/catalog/view.rs:831-862 | from any bookkeeping the search can meet, everything left on the stack leads to a cycle, and a report lies on a cycle or is a view off every cycle that has a dependent and leads to one |
| ViewGraph.DetectCycle | src/catalog/view.rs:831-862 | the recursion with its bookkeeping in variables is that search, for the given iteration order; terminates on every graph |
| ViewGraph.ValidateDependencies | src/catalog/view.rs:558-580 | for every graph and order the report is empty if and only if the graph is acyclic, its first entry lies on a cycle, and every entry leads to one; an entry off every cycle has a dependent |
| ViewGraph.ReportsMean | src/catalog/view.rs:558-580 | the same of the reports as a function of graph and order |
| ViewGraph.SpuriousReportIff | src/catalog/view.rs:558-580 | some order reports a view that lies on no cycle if and only if some view off every cycle has a dependent and leads to a cycle |
| ViewGraph.MisleadingIsReported | src/catalog/view.rs:831-862 | for each such view there is an order that reports it |
| ViewGraph.SpuriousReport | src/catalog/view.rs:558-580 | a on b, b on itself, c on a, searched in this order: the second report, a, lies on no cycle |
| ViewGraph.RankedIsAcyclic | src/catalog/view.rs:831-862 | a graph whose views can be numbered with dependencies first has no cycle |
| ViewGraph.CalculateDepth | src/catalog/view.rs:801-828 | fails with a path that returns to itself or the current path; otherwise restores the visited set and returns the length of the longest path |
| ViewGraph.CalculateDependencyDepth | src/catalog/view.rs:794-798 | fails if and only if a cycle is reachable; otherwise the number of views on the longest dependency chain |
| ViewManager.UpToDateMeans | src/catalog/view.rs:441-462 | being up to date means a refresh since creation after which no change to the view's tables was recorded |
| ViewManager.UpToDateIsLoaded | src/catalog/view.rs:327-368 | a view refreshed with data after every change is up to date; the converse holds if it was never refreshed without data |
| ViewManager.RefreshWithoutData | src/catalog/view.rs:360-364 | a run after which a view counts as up to date without holding the data of its table |
| ViewManager.Unlink | src/catalog/view.rs:738-747 | takes one view out of the given tables' entries, drops emptied entries, changes nothing else |
| ViewManager.Link | src/catalog/view.rs:714-724 | adds one view to its tables' entries and changes nothing else |
| ViewManager.Relink | src/catalog/view.rs:695-731 | the two maps stay inverse relations without empty entries when a view's dependencies are replaced |
| ViewManager.MarkStale | src/catalog/view.rs:761-779 | exactly the dependents of the table become stale, unless they are being refreshed |
| ViewManager.AfterCreate | src/catalog/view.rs:182-247 | creation keeps the invariant of all reachable states |
| ViewManager.AfterDrop | src/catalog/view.rs:250-292 | dropping keeps the invariant |
| ViewManager.AfterRefresh | src/catalog/view.rs:327-368 | refreshing keeps the invariant |
| ViewManager.AfterChange | src/catalog/view.rs:441-462 | recording a change keeps the invariant and marks exactly the views that read the table |
| ViewManager.ViewManager.constructor | src/catalog/view.rs:158-172 | a new manager satisfies the invariant with no views |
| ViewManager.ViewManager.CreateView | src/catalog/view.rs:182-247 | fails exactly for an existing name and then changes nothing; otherwise adds the view, stale if materialized; keeps inverse maps and honest freshness |
| ViewManager.ViewManager.Register | src/catalog/view.rs:223-245 | the state update of a creation |
| ViewManager.ViewManager.DropView | src/catalog/view.rs:250-292 | fails exactly for an unknown name or, without CASCADE, a view another one lists; otherwise removes view, status, schedule and links |
| ViewManager.HasDependents | src/catalog/view.rs:254-268 | finds a dependent if and only if another view lists the name |
| ViewManager.ViewManager.Remove | src/catalog/view.rs:276-286 | the state update of a drop |
| ViewManager.ViewManager.RefreshMaterializedView | src/catalog/view.rs:327-368 | fails exactly for unknown or plain views; otherwise the view is fresh, with or without data, and this refresh comes after every recorded change to its tables; nothing else changes |
| ViewManager.ViewManager.ScheduleRefresh | src/catalog/view.rs:371-395 | schedules exactly the existing materialized views |
| ViewManager.ViewManager.NeedsRefresh | src/catalog/view.rs:398-430 | the answer is stale-or-due, spelled out; "no" for a materialized view means it was refreshed, with or without data, after every recorded change to its tables |
| ViewManager.ViewManager.RecordTableChange | src/catalog/view.rs:441-462 | exactly the views that read the table become stale; the change is appended to the log, from which the oldest drops out beyond a thousand |
| ViewManager.ViewManager.ViewsNeedingRefresh | src/catalog/view.rs:465-497 | lists exactly the materialized views that are stale or due, each once |
| ViewManager.ViewManager.RefreshAllStaleViews | src/catalog/view.rs:500-522 | refreshes, with data, exactly those and in that order, and moves exactly their schedules one interval ahead; afterwards every materialized view is fresh, and one is due again if and only if it was refreshed and has an active schedule of interval zero |
| ViewManager.RefreshedToMeans | src/catalog/view.rs:500-522 | what refreshing a list of views in turn does to every view, status, schedule and the run |
| ViewManager.ViewManager.UpdateRefreshSchedule | src/catalog/view.rs:782-791 | moves the next refresh one interval ahead, if there is a schedule |
| PlanCache.FindLru | src/optimizer/plan_cache.rs:200-203 | finds an entry no other was used before, unless the cache is empty |
| PlanCache.CollectDoomed | src/optimizer/plan_cache.rs:181-189 | lists exactly the expired or stale keys, each once |
| PlanCache.RemoveAll | src/optimizer/plan_cache.rs:191-195 | removes exactly those keys and shrinks by their number |
| PlanCache.Expire | src/optimizer/plan_cache.rs:180-197 | keeps exactly the entries within both limits and counts the others |
| PlanCache.CleanedMeans | src/optimizer/plan_cache.rs:169-197 | a due cleanup keeps exactly the entries whose age and idle time are within the limits, unchanged; one that is not due keeps all |
| PlanCache.PlanCache.constructor | src/optimizer/plan_cache.rs:90-105 | an empty cache satisfies the invariant |
| PlanCache.PlanCache.MaybeCleanup | src/optimizer/plan_cache.rs:169-178 | cleans up exactly when the interval has passed; afterwards the last cleanup is within one interval |
| PlanCache.PlanCache.Get | src/optimizer/plan_cache.rs:108-121 | a hit is exactly a key that is present and, if a cleanup is due, neither older nor longer idle than the limits; it returns the last plan put under it, and its age is within the age limit plus one cleanup interval; exactly one of hits and misses grows by one, expirations by the entries cleaned up, and no other counter changes |
| PlanCache.PlanCache.Put | src/optimizer/plan_cache.rs:124-147 | evicts one least recently used entry if full after the cleanup, then stores the plan; evictions grow by exactly that one, insertions by one unless an entry was replaced, expirations by the entries cleaned up; size never exceeds the capacity, and insertions equal size + evictions + expirations + removals |
| PlanCache.PlanCache.Insert | src/optimizer/plan_cache.rs:128-146 | the same after the cleanup |
| PlanCache.PlanCache.MakeRoom | src/optimizer/plan_cache.rs:128-133 | succeeds unless the capacity is zero; evicts and counts one entry exactly when the cache is full |
| PlanCache.PlanCache.Store | src/optimizer/plan_cache.rs:135-146 | stores one entry, counted as inserted unless the key was there, and keeps the invariant |
| PlanCache.PlanCache.EvictLru | src/optimizer/plan_cache.rs:199-211 | removes one least recently used entry and counts it, or reports that there is none |
| PlanCache.PlanCache.Remove | src/optimizer/plan_cache.rs:150-155 | removes exactly the key and returns its plan; of the counters only the size changes |
| PlanCache.PlanCache.Clear | src/optimizer/plan_cache.rs:158-161 | empties the cache; the accounting counts the entries as removed, and of the counters only the size changes |
| PlanCache.PlanCache.UpdateConfig | src/optimizer/plan_cache.rs:219-232 | a smaller capacity evicts just enough entries, none used later than one that stays, counts each as evicted, and changes no other entry or counter |
| PlanCache.PlanCache.ShrinkToFit | src/optimizer/plan_cache.rs:226-231 | the eviction loop: what is left, and how many evictions are counted |
| TableStore.TableManager.DeleteRow | src/catalog/table.rs:379-405 | removes and returns exactly the row at the position; the two error cases change nothing |
| TableStore.TableManager.RestoreRow | src/catalog/table.rs:355-375 | inserts at the position; a position at or past the end is padded and leaves an empty row behind the restored one |
| TableStore.TableManager.ScanAll | src/executor/scanner.rs:82-97 | rows carry their snapshot positions as identifiers |
| TableStore.TableManager.DeleteWhere | src/executor/operators.rs:1240-1294 | exactly the rows that do not match are left, in order, and the deleted ones are logged with their positions |
| TableStore.CollectMatching | src/executor/operators.rs:1251-1279 | collects exactly the matching rows with their positions |
| TableStore.DescendingIsReverse | src/executor/operators.rs:1281-1285 | sorting the collected rows by descending identifier reverses them |
| TableStore.TableManager.RestoreAll | src/transaction/manager.rs:262-290 | rollback restores the logged rows of every table one at a time, in the order the log yields them; entries of a table that no longer exists change nothing |
| TableStore.OneTableRollback | src/transaction/manager.rs:262-290 | a log of one table restores its rows as listed |
| TableStore.DeleteThenRestore | src/catalog/table.rs:355-405 | deleting and restoring in ascending order gives the table back, plus one trailing empty row if and only if the last row had been deleted |
| TableStore.RestoreSucceedsIff | src/transaction/manager.rs:262-290 | for every table, condition and order of the rows deleted by one DELETE, restoring gives the table back (with that trailing row) if and only if the order is the ascending one; rollback takes them in hash-map order |
| TableStore.TrackRises | src/catalog/table.rs:355-375 | a restored row starts at its old position and moves up for every later row with a smaller position, never down |
| TableStore.DescendingRestoreFails | src/transaction/manager.rs:262-290 | what restoring two deleted rows in descending order leaves |
| TableStore.LoggedMeans | src/transaction/manager.rs:79-82 | under each row position the log of a transaction holds the last deletion at that position |
| TableStore.NoneLostIff | src/transaction/manager.rs:394-403 | the log holds as many entries as there were deletions if and only if no two deletions had the same row position |
| TableStore.TwoDeletesLoggedIff | src/transaction/manager.rs:372-403 | after two DELETEs, of one table or of two, every deleted row is still in the log if and only if no position was deleted by both |
| TableStore.SecondDeleteOverwrites | src/transaction/manager.rs:372-403 | deleting the first of two rows and then the other: rollback restores the second only |

## Left out

- SQL lexer and parser, catalog DDL, B-tree, buffer pool, WAL, MVCC, locking, parallel execution, optimizer rules and cost model: not part of this model.
- NaN, negative zero and rounding of 64-bit floats: a float is a `real`. DISTINCT aggregates compare values where the code compares their debug strings, which is the same without negative zero and NaN.
- Overflow of 64-bit integers and counters, except the range test that turns a SUM or AVG into an integer.
- Evaluation errors of join conditions, which abort the join: a condition is a total function here. Grouping keys, aggregate arguments, HAVING and DELETE conditions are total functions because the code replaces their errors by fixed outcomes. Errors of ORDER BY keys and of expressions are modelled.
- Column naming of join results, logging and formatting of results.
- Index scans, INSERT and UPDATE operators, subquery execution: a subquery is an abstract function of the context.
- MergeJoin.SortMergeJoin: the exact multiplicities are stated for rows that have every sort column; the code skips a column a row lacks, and the comparison is then no order.
- Joins.HashJoinIsReferenceIff: for a semi join the rows of the other side must have a column, and for an anti join no joined row may look like a row of the kept side; inputs of fixed widths meet both.
- JoinKeys.MergeJoinIsReferenceIff: rows have every sort column and each side a fixed width; for a semi or anti join the other side must have a column.
- MergeJoin and SetOperations: results are stated as bags of rows; the order in which the rows come out is not.
- WindowRanks: partitioning, window frames, LAG, LEAD, FIRST_VALUE, LAST_VALUE, NTILE and windowed aggregates are not modelled. Where failing keys make the comparator no order, the sort may give any permutation.
- Joins.HashJoin: how a value is rendered into the key is a parameter; what JoinKeys says of it needs that, of the values that occur in the rows, different ones render differently and numbers without a bar.
- Aggregation: AggregateState is a value updated functionally, so updating it in place is not captured; the code's state is owned by one group and never shared. Groups are formed by rendered keys, and that different grouping values render differently is not claimed. Window calls on top of an aggregation are left out.
- Sorting: the library's stable sort is represented by insertion of positions, which is enough because the stable order is shown to be unique.
- Expressions: arithmetic, comparison, LIKE, casts and scalar functions are parameters; the lookup of aggregate values in a HAVING context is left out; when several qualified columns fit a name the choice is a function of the fitting names.
- WindowExtraction.ExtractPreservesMeaning: requires that the expression's columns avoid the added names and that subqueries do not look at them; a column called like a generated name is captured, as CapturedColumn shows.
- End-to-end planning of SELECT, including the base projection that may drop columns a window call needs.
- The manager never fills the view-to-view map it validates, so the graph algorithms are stated for arbitrary graphs rather than for graphs the manager builds.
- ViewManager: extraction of dependencies from query text (a fixed list of table names) is replaced by an arbitrary dependency list; view text, schemas and statistics are left out; operations are atomic.
- PlanCache: the clock is a monotone integer parameter; normalisation of queries, hit ratio and memory estimates are left out.
- TableStore: writing pages to disk and the transaction manager's own bookkeeping are left out; only what its deletion log keeps and the order in which it restores rows are considered. Which order of the entries of several DELETEs would restore all tables is not stated; the log has none.
- Materialized-view query rewriting, printing of statements, stored procedures, REPL and persistence.
