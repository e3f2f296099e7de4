/** The sort-merge join. Both inputs are stably sorted on the shared key columns
    and merged run by run. The operator emits the first pair of every matching
    run once on its own and then again with the rest of the run; the results
    below say exactly how often every pair of input positions is emitted. */
module MergeJoin {
  import opened Values
  import opened Sorting
  import opened Joins
  import opened MergeKeys

  // ----- counting what is emitted -----

  /** How often the merge emits the pair (`x`, `y`): once if the keys tie and the
      condition holds, and once more if both positions start their run. */
  ghost function Emitted(L: seq<Row>, R: seq<Row>, K: seq<Row>, J: seq<Row>, width: nat, on: Condition, x: int, y: int): nat
    requires |K| == |L| && |J| == |R| && SortedKeys(K, width) && SortedKeys(J, width)
  {
    if Tied(K, J, width, x, y) && on(L[x], R[y])
    then if RunStart(K, width, x) && RunStart(J, width, y) then 2 else 1
    else 0
  }

  ghost function HeadPair(L: seq<Row>, R: seq<Row>, on: Condition, li: nat, ri: nat): seq<Pair>
    requires li < |L| && ri < |R|
  {
    if on(L[li], R[ri]) then [(li, ri)] else []
  }

  lemma {:induction false} RunCount(L: seq<Row>, R: seq<Row>, K: seq<Row>, J: seq<Row>, width: nat, on: Condition,
      li: nat, le: nat, ri: nat, re: nat, x: int, y: int)
    requires |K| == |L| && |J| == |R| && SortedKeys(K, width) && SortedKeys(J, width) && Tied(K, J, width, li, ri)
    requires Separated(K, J, width, li, ri) && IsRun(K, width, li, le) && IsRun(J, width, ri, re)
    ensures multiset(HeadPair(L, R, on, li, ri))[(x, y)] + multiset(BlockPairs(L, R, on, li, le, ri, re))[(x, y)] ==
            if li <= x < le then Emitted(L, R, K, J, width, on, x, y) else 0
  {
    BlockPairsCount(L, R, on, li, le, ri, re, x, y);
    RunPairs(K, J, width, li, le, ri, re, x, y);
    RunsStartHere(K, J, width, li, le, ri, re, x, y);
  }

  /** `K` holds the keys of rows that all have one and are sorted by it. */
  ghost predicate SortedBy(rows: seq<Row>, cols: seq<string>, sort: seq<string>, K: seq<Row>) {
    Keyed(rows, cols, sort) && K == KeysOf(rows, cols, sort) && SortedKeys(K, |sort|)
  }

  lemma {:induction false} ComparesToItself(a: Row, cols: seq<string>, sort: seq<string>)
    ensures CompareKeyed(a, cols, a, cols, sort) == Equal
  {
    if sort != [] {
      var x := Position(cols, sort[0]);
      if x.Some? && x.value < |a| { CompareValuesReflexive(a[x.value], NullsDefault); }
      ComparesToItself(a, cols, sort[1..]);
    }
  }

  lemma {:induction false} ComparesAt(rows: seq<Row>, cols: seq<string>, sort: seq<string>, K: seq<Row>, i: nat, j: nat)
    requires SortedBy(rows, cols, sort, K) && i < |rows| && j < |rows|
    ensures CompareKeyed(rows[i], cols, rows[j], cols, sort) == CompareKeys(K[i], K[j])
  {
    ComparesKeys(rows[i], cols, rows[j], cols, sort);
  }

  method RunEnd(rows: seq<Row>, cols: seq<string>, sort: seq<string>, start: nat, ghost K: seq<Row>) returns (end: nat)
    requires start < |rows|
    ensures start < end <= |rows|
    ensures SortedBy(rows, cols, sort, K) ==> IsRun(K, |sort|, start, end)
  {
    end := start;
    ComparesToItself(rows[start], cols, sort);
    while end < |rows| && CompareKeyed(rows[end], cols, rows[start], cols, sort) == Equal
      invariant start <= end <= |rows|
      invariant SortedBy(rows, cols, sort, K) ==> forall k | start <= k < end :: CompareKeys(K[k], K[start]) == Equal
    {
      if SortedBy(rows, cols, sort, K) { ComparesAt(rows, cols, sort, K, end, start); }
      end := end + 1;
    }
    if SortedBy(rows, cols, sort, K) && end < |rows| { ComparesAt(rows, cols, sort, K, end, start); }
  }

  /** All combinations of a left run and a right run. */
  method EmitRun(L: seq<Row>, R: seq<Row>, on: Condition, li: nat, le: nat, ri: nat, re: nat) returns (out: seq<Row>)
    requires li <= le <= |L| && ri <= re <= |R|
    ensures PairsInRange(L, R, BlockPairs(L, R, on, li, le, ri, re))
    ensures out == RowsOf(L, R, BlockPairs(L, R, on, li, le, ri, re))
  {
    out := [];
    for i := li to le
      invariant PairsInRange(L, R, BlockPairs(L, R, on, li, i, ri, re))
      invariant out == RowsOf(L, R, BlockPairs(L, R, on, li, i, ri, re))
    {
      var row := EmitRow(L, R, on, i, ri, re);
      BlockPairsInRange(L, R, on, li, i + 1, ri, re);
      out := out + row;
    }
  }

  method EmitRow(L: seq<Row>, R: seq<Row>, on: Condition, i: nat, ri: nat, re: nat) returns (out: seq<Row>)
    requires i < |L| && ri <= re <= |R|
    ensures PairsInRange(L, R, RowPairs(L, R, on, i, ri, re))
    ensures out == RowsOf(L, R, RowPairs(L, R, on, i, ri, re))
  {
    out := [];
    for j := ri to re
      invariant PairsInRange(L, R, RowPairs(L, R, on, i, ri, j))
      invariant out == RowsOf(L, R, RowPairs(L, R, on, i, ri, j))
    {
      if on(L[i], R[j]) { out := out + [L[i] + R[j]]; }
    }
  }

  /** `pairs` holds each pair with left position in `a..b` as often as the merge
      emits it, and nothing else. */
  ghost predicate EmittedBetween(L: seq<Row>, R: seq<Row>, K: seq<Row>, J: seq<Row>, width: nat, on: Condition,
                                 pairs: seq<Pair>, a: int, b: int)
    requires |K| == |L| && |J| == |R| && SortedKeys(K, width) && SortedKeys(J, width)
  {
    && PairsInRange(L, R, pairs)
    && forall x, y :: multiset(pairs)[(x, y)] == if a <= x < b then Emitted(L, R, K, J, width, on, x, y) else 0
  }

  lemma {:induction false} EmittedConcat(L: seq<Row>, R: seq<Row>, K: seq<Row>, J: seq<Row>, width: nat, on: Condition,
      p: seq<Pair>, q: seq<Pair>, a: int, b: int, c: int)
    requires |K| == |L| && |J| == |R| && SortedKeys(K, width) && SortedKeys(J, width) && a <= b <= c
    requires EmittedBetween(L, R, K, J, width, on, p, a, b) && EmittedBetween(L, R, K, J, width, on, q, b, c)
    ensures EmittedBetween(L, R, K, J, width, on, p + q, a, c)
  {
    assert multiset(p + q) == multiset(p) + multiset(q);
  }

  lemma {:induction false} EmittedSkip(L: seq<Row>, R: seq<Row>, K: seq<Row>, J: seq<Row>, width: nat, on: Condition,
      p: seq<Pair>, a: int, b: int, c: int)
    requires |K| == |L| && |J| == |R| && SortedKeys(K, width) && SortedKeys(J, width) && a <= b <= c
    requires EmittedBetween(L, R, K, J, width, on, p, a, b)
    requires forall x, y | b <= x < c :: !Tied(K, J, width, x, y)
    ensures EmittedBetween(L, R, K, J, width, on, p, a, c)
  {
  }

  lemma {:induction false} EmittedRun(L: seq<Row>, R: seq<Row>, K: seq<Row>, J: seq<Row>, width: nat, on: Condition,
      li: nat, le: nat, ri: nat, re: nat)
    requires |K| == |L| && |J| == |R| && SortedKeys(K, width) && SortedKeys(J, width) && Tied(K, J, width, li, ri)
    requires Separated(K, J, width, li, ri) && IsRun(K, width, li, le) && IsRun(J, width, ri, re)
    ensures EmittedBetween(L, R, K, J, width, on, HeadPair(L, R, on, li, ri) + BlockPairs(L, R, on, li, le, ri, re), li, le)
  {
    var head, block := HeadPair(L, R, on, li, ri), BlockPairs(L, R, on, li, le, ri, re);
    BlockPairsInRange(L, R, on, li, le, ri, re);
    forall x, y ensures multiset(head + block)[(x, y)] == if li <= x < le then Emitted(L, R, K, J, width, on, x, y) else 0 {
      CountConcat(head, block, (x, y));
      RunCount(L, R, K, J, width, on, li, le, ri, re, x, y);
    }
    HeadAndBlockInRange(L, R, head, block);
  }

  lemma {:induction false} HeadAndBlockInRange(L: seq<Row>, R: seq<Row>, head: seq<Pair>, block: seq<Pair>)
    requires PairsInRange(L, R, head) && PairsInRange(L, R, block)
    ensures PairsInRange(L, R, head + block)
  {
  }

  lemma {:induction false} RowsOfConcat(L: seq<Row>, R: seq<Row>, p: seq<Pair>, q: seq<Pair>)
    requires PairsInRange(L, R, p) && PairsInRange(L, R, q)
    ensures PairsInRange(L, R, p + q) && RowsOf(L, R, p + q) == RowsOf(L, R, p) + RowsOf(L, R, q)
  {
  }

  /** All pairs satisfy the condition. */
  ghost predicate Satisfying(L: seq<Row>, R: seq<Row>, on: Condition, pairs: seq<Pair>) {
    PairsInRange(L, R, pairs) && forall k | 0 <= k < |pairs| :: on(L[pairs[k].0], R[pairs[k].1])
  }

  lemma {:induction false} RowPairsSatisfy(L: seq<Row>, R: seq<Row>, on: Condition, i: nat, b: nat, n: nat)
    requires i < |L| && b <= n <= |R|
    ensures Satisfying(L, R, on, RowPairs(L, R, on, i, b, n))
  {
    if n != b {
      RowPairsSatisfy(L, R, on, i, b, n - 1);
      if on(L[i], R[n - 1]) { SatisfyingMore(L, R, on, RowPairs(L, R, on, i, b, n - 1), (i, n - 1)); }
    }
  }

  lemma {:induction false} SatisfyingMore(L: seq<Row>, R: seq<Row>, on: Condition, pairs: seq<Pair>, p: Pair)
    requires Satisfying(L, R, on, pairs) && 0 <= p.0 < |L| && 0 <= p.1 < |R| && on(L[p.0], R[p.1])
    ensures Satisfying(L, R, on, pairs + [p])
  {
  }

  lemma {:induction false} SatisfyingConcat(L: seq<Row>, R: seq<Row>, on: Condition, p: seq<Pair>, q: seq<Pair>)
    requires Satisfying(L, R, on, p) && Satisfying(L, R, on, q)
    ensures Satisfying(L, R, on, p + q) && RowsOf(L, R, p + q) == RowsOf(L, R, p) + RowsOf(L, R, q)
  {
    RowsOfConcat(L, R, p, q);
  }

  lemma {:induction false} BlockPairsSatisfy(L: seq<Row>, R: seq<Row>, on: Condition, a: nat, m: nat, b: nat, n: nat)
    requires a <= m <= |L| && b <= n <= |R|
    ensures Satisfying(L, R, on, BlockPairs(L, R, on, a, m, b, n))
  {
    if m != a {
      BlockPairsSatisfy(L, R, on, a, m - 1, b, n);
      RowPairsSatisfy(L, R, on, m - 1, b, n);
      SatisfyingConcat(L, R, on, BlockPairs(L, R, on, a, m - 1, b, n), RowPairs(L, R, on, m - 1, b, n));
    }
  }

  /** Both inputs are sorted by their keys. */
  ghost predicate BothSorted(L: seq<Row>, lCols: seq<string>, K: seq<Row>, R: seq<Row>, rCols: seq<string>, J: seq<Row>, sort: seq<string>) {
    SortedBy(L, lCols, sort, K) && SortedBy(R, rCols, sort, J)
  }

  /** A matching pair of runs: the first pair alone, then every combination. */
  method EmitMatch(L: seq<Row>, R: seq<Row>, lCols: seq<string>, rCols: seq<string>, sort: seq<string>, on: Condition,
                   li: nat, ri: nat, ghost K: seq<Row>, ghost J: seq<Row>)
    returns (out: seq<Row>, le: nat, re: nat, ghost pairs: seq<Pair>)
    requires li < |L| && ri < |R|
    requires BothSorted(L, lCols, K, R, rCols, J, sort) ==> Tied(K, J, |sort|, li, ri) && Separated(K, J, |sort|, li, ri)
    ensures li < le <= |L| && ri < re <= |R| && Satisfying(L, R, on, pairs) && out == RowsOf(L, R, pairs)
    ensures BothSorted(L, lCols, K, R, rCols, J, sort) ==>
      Separated(K, J, |sort|, le, re) && EmittedBetween(L, R, K, J, |sort|, on, pairs, li, le)
  {
    out := [];
    if on(L[li], R[ri]) { out := [L[li] + R[ri]]; }
    ghost var head := HeadPair(L, R, on, li, ri);
    assert Satisfying(L, R, on, head) && out == RowsOf(L, R, head);
    le := RunEnd(L, lCols, sort, li, K);
    re := RunEnd(R, rCols, sort, ri, J);
    var run := EmitRun(L, R, on, li, le, ri, re);
    ghost var block := BlockPairs(L, R, on, li, le, ri, re);
    BlockPairsSatisfy(L, R, on, li, le, ri, re);
    SatisfyingConcat(L, R, on, head, block);
    if BothSorted(L, lCols, K, R, rCols, J, sort) {
      EmittedRun(L, R, K, J, |sort|, on, li, le, ri, re);
      SkipRun(K, J, |sort|, li, le, ri, re);
    }
    out, pairs := out + run, head + block;
  }

  /** `out` holds the rows of the pairs the merge emits. */
  ghost predicate Merged(L: seq<Row>, R: seq<Row>, K: seq<Row>, J: seq<Row>, width: nat, on: Condition, out: seq<Row>)
    requires |K| == |L| && |J| == |R| && SortedKeys(K, width) && SortedKeys(J, width)
  {
    exists trace :: EmittedBetween(L, R, K, J, width, on, trace, 0, |L|) && out == RowsOf(L, R, trace)
  }

  /** `row` joins two rows that satisfy the condition. */
  ghost predicate JoinedRow(L: seq<Row>, R: seq<Row>, on: Condition, row: Row) {
    exists l, r | l in L && r in R :: on(l, r) && row == l + r
  }

  lemma {:induction false} SatisfyingRows(L: seq<Row>, R: seq<Row>, on: Condition, pairs: seq<Pair>)
    requires Satisfying(L, R, on, pairs)
    ensures forall row | row in RowsOf(L, R, pairs) :: JoinedRow(L, R, on, row)
  {
    forall row | row in RowsOf(L, R, pairs) ensures JoinedRow(L, R, on, row) {
      var k :| 0 <= k < |pairs| && row == RowsOf(L, R, pairs)[k];
      assert L[pairs[k].0] in L && R[pairs[k].1] in R;
    }
  }

  /** The state of the merge at positions `li` and `ri`, if the inputs are sorted. */
  ghost predicate MergedTo(L: seq<Row>, lCols: seq<string>, K: seq<Row>, R: seq<Row>, rCols: seq<string>, J: seq<Row>, sort: seq<string>,
                           on: Condition, trace: seq<Pair>, li: int, ri: int) {
    BothSorted(L, lCols, K, R, rCols, J, sort) ==>
      Separated(K, J, |sort|, li, ri) && EmittedBetween(L, R, K, J, |sort|, on, trace, 0, li)
  }

  /** One comparison of the merge: where it leads when it is not a match. */
  lemma {:induction false} MergeSkips(L: seq<Row>, lCols: seq<string>, K: seq<Row>, R: seq<Row>, rCols: seq<string>, J: seq<Row>, sort: seq<string>,
      on: Condition, trace: seq<Pair>, li: nat, ri: nat)
    requires MergedTo(L, lCols, K, R, rCols, J, sort, on, trace, li, ri) && li < |L| && ri < |R|
    ensures CompareKeyed(L[li], lCols, R[ri], rCols, sort) == Equal && BothSorted(L, lCols, K, R, rCols, J, sort) ==>
      Tied(K, J, |sort|, li, ri) && Separated(K, J, |sort|, li, ri)
    ensures CompareKeyed(L[li], lCols, R[ri], rCols, sort) == Less ==>
      MergedTo(L, lCols, K, R, rCols, J, sort, on, trace, li + 1, ri)
    ensures CompareKeyed(L[li], lCols, R[ri], rCols, sort) == Greater ==>
      MergedTo(L, lCols, K, R, rCols, J, sort, on, trace, li, ri + 1)
  {
    if BothSorted(L, lCols, K, R, rCols, J, sort) {
      ComparesKeys(L[li], lCols, R[ri], rCols, sort);
      match CompareKeys(K[li], J[ri])
      case Equal =>
      case Less =>
        SkipLeft(K, J, |sort|, li, ri);
        EmittedSkip(L, R, K, J, |sort|, on, trace, 0, li, li + 1);
      case Greater =>
        SkipRight(K, J, |sort|, li, ri);
    }
  }

  lemma {:induction false} MergeMatches(L: seq<Row>, lCols: seq<string>, K: seq<Row>, R: seq<Row>, rCols: seq<string>, J: seq<Row>, sort: seq<string>,
      on: Condition, trace: seq<Pair>, li: nat, ri: nat, pairs: seq<Pair>, le: nat, re: nat)
    requires MergedTo(L, lCols, K, R, rCols, J, sort, on, trace, li, ri) && li <= le
    requires BothSorted(L, lCols, K, R, rCols, J, sort) ==>
      Separated(K, J, |sort|, le, re) && EmittedBetween(L, R, K, J, |sort|, on, pairs, li, le)
    ensures MergedTo(L, lCols, K, R, rCols, J, sort, on, trace + pairs, le, re)
  {
    if BothSorted(L, lCols, K, R, rCols, J, sort) { EmittedConcat(L, R, K, J, |sort|, on, trace, pairs, 0, li, le); }
  }

  lemma {:induction false} MergeFinishes(L: seq<Row>, lCols: seq<string>, K: seq<Row>, R: seq<Row>, rCols: seq<string>, J: seq<Row>, sort: seq<string>,
      on: Condition, trace: seq<Pair>, li: nat, ri: nat)
    requires MergedTo(L, lCols, K, R, rCols, J, sort, on, trace, li, ri) && Satisfying(L, R, on, trace)
    requires li <= |L| && ri <= |R| && (li == |L| || ri == |R|)
    ensures BothSorted(L, lCols, K, R, rCols, J, sort) ==> Merged(L, R, K, J, |sort|, on, RowsOf(L, R, trace))
  {
    if BothSorted(L, lCols, K, R, rCols, J, sort) { EmittedSkip(L, R, K, J, |sort|, on, trace, 0, li, |L|); }
  }

  /** The merge loop. Whatever the inputs, it emits only rows that satisfy the
      condition; on sorted inputs, exactly the right ones. */
  method MergeSorted(L: seq<Row>, R: seq<Row>, lCols: seq<string>, rCols: seq<string>, sort: seq<string>, on: Condition,
                     ghost K: seq<Row>, ghost J: seq<Row>)
    returns (out: seq<Row>)
    ensures forall row | row in out :: JoinedRow(L, R, on, row)
    ensures BothSorted(L, lCols, K, R, rCols, J, sort) ==> Merged(L, R, K, J, |sort|, on, out)
  {
    out := [];
    ghost var trace: seq<Pair> := [];
    var li, ri := 0, 0;
    while li < |L| && ri < |R|
      invariant 0 <= li <= |L| && 0 <= ri <= |R|
      invariant Satisfying(L, R, on, trace) && out == RowsOf(L, R, trace)
      invariant MergedTo(L, lCols, K, R, rCols, J, sort, on, trace, li, ri)
      decreases |L| + |R| - li - ri
    {
      MergeSkips(L, lCols, K, R, rCols, J, sort, on, trace, li, ri);
      match CompareKeyed(L[li], lCols, R[ri], rCols, sort)
      case Equal =>
        ghost var pairs;
        var run, le, re;
        run, le, re, pairs := EmitMatch(L, R, lCols, rCols, sort, on, li, ri, K, J);
        MergeMatches(L, lCols, K, R, rCols, J, sort, on, trace, li, ri, pairs, le, re);
        SatisfyingConcat(L, R, on, trace, pairs);
        out, trace, li, ri := out + run, trace + pairs, le, re;
      case Less =>
        li := li + 1;
      case Greater =>
        ri := ri + 1;
    }
    MergeFinishes(L, lCols, K, R, rCols, J, sort, on, trace, li, ri);
    SatisfyingRows(L, R, on, trace);
  }

  // ----- back to the positions of the unsorted inputs -----

  function SortInput(rows: seq<Row>, cols: seq<string>, sort: seq<string>): seq<Row> {
    if sort == [] then rows else StableSort(rows, KeyOrder(cols, sort))
  }

  lemma {:induction false} SortInputOrder(rows: seq<Row>, cols: seq<string>, sort: seq<string>) returns (p: seq<nat>)
    requires Keyed(rows, cols, sort)
    ensures StableOrder(rows, KeyOrder(cols, sort), p) && SortInput(rows, cols, sort) == Permute(rows, p)
    ensures Keyed(SortInput(rows, cols, sort), cols, sort)
  {
    KeyOrderPreorder(rows, cols, sort);
    if sort == [] {
      p := seq(|rows|, i => i);
      forall m: nat | m < |rows| ensures m in p { assert p[m] == m; }
      assert Permute(rows, p) == rows;
    } else {
      p := SortPositions(rows, KeyOrder(cols, sort), |rows|);
      StableOrderUnique(rows, KeyOrder(cols, sort), p);
    }
  }

  lemma {:induction false} SortedInputKeys(rows: seq<Row>, cols: seq<string>, sort: seq<string>, p: seq<nat>)
    requires Keyed(rows, cols, sort) && StableOrder(rows, KeyOrder(cols, sort), p)
    requires Keyed(Permute(rows, p), cols, sort)
    ensures SortedKeys(KeysOf(Permute(rows, p), cols, sort), |sort|)
  {
    var sorted := Permute(rows, p);
    var K := KeysOf(sorted, cols, sort);
    forall i, j | 0 <= i < j < |K| ensures CompareKeys(K[i], K[j]) != Greater {
      assert Before(rows, KeyOrder(cols, sort), p[i], p[j]);
      ComparesKeys(sorted[i], cols, sorted[j], cols, sort);
    }
  }

  /** No earlier row of the input has the key of row `x`. */
  ghost predicate FirstOfKey(rows: seq<Row>, cols: seq<string>, sort: seq<string>, x: int)
    requires 0 <= x < |rows|
  {
    forall z | 0 <= z < x :: CompareKeyed(rows[z], cols, rows[x], cols, sort) != Equal
  }

  /** The row that starts a run after sorting is the first of its key before. */
  lemma {:induction false} RunStartIsFirst(rows: seq<Row>, cols: seq<string>, sort: seq<string>, p: seq<nat>, K: seq<Row>, i: nat)
    requires Keyed(rows, cols, sort) && StableOrder(rows, KeyOrder(cols, sort), p) && i < |p|
    requires Keyed(Permute(rows, p), cols, sort) && K == KeysOf(Permute(rows, p), cols, sort) && SortedKeys(K, |sort|)
    ensures RunStart(K, |sort|, i) <==> FirstOfKey(rows, cols, sort, p[i])
  {
    var sorted, cmp := Permute(rows, p), KeyOrder(cols, sort);
    KeyOrderPreorder(rows, cols, sort);
    if 0 < i {
      assert Before(rows, cmp, p[i - 1], p[i]);
      ComparesKeys(sorted[i - 1], cols, sorted[i], cols, sort);
    }
    if RunStart(K, |sort|, i) {
      forall z: nat | z < p[i] && CompareKeyed(rows[z], cols, rows[p[i]], cols, sort) == Equal ensures false {
        assert z in p;
        var m :| 0 <= m < |p| && p[m] == z;
        BeforeIsStrictOrder(rows, cmp, z, p[i], z);
        assert m < i;
        ComparesKeys(sorted[m], cols, sorted[i], cols, sort);
        if m < i - 1 { CompareKeysTransitive(K[m], K[i - 1], K[i]); }
      }
    }
  }

  ghost function Translate(trace: seq<Pair>, p: seq<nat>, q: seq<nat>): (pairs: seq<Pair>)
    requires forall k | 0 <= k < |trace| :: 0 <= trace[k].0 < |p| && 0 <= trace[k].1 < |q|
    ensures |pairs| == |trace|
  {
    seq(|trace|, k requires 0 <= k < |trace| => (p[trace[k].0], q[trace[k].1]))
  }

  lemma {:induction false} SameCountStep(a: seq<Pair>, x: Pair, y: Pair, b: seq<Pair>, v: Pair, w: Pair)
    requires multiset(a)[y] == multiset(b)[w] && (x == y <==> v == w)
    ensures multiset(a + [x])[y] == multiset(b + [v])[w]
  {
  }

  lemma {:induction false} TranslateCount(trace: seq<Pair>, p: seq<nat>, q: seq<nat>, i: nat, j: nat)
    requires forall k | 0 <= k < |trace| :: 0 <= trace[k].0 < |p| && 0 <= trace[k].1 < |q|
    requires i < |p| && j < |q|
    requires (forall k, l | 0 <= k < l < |p| :: p[k] != p[l]) && (forall k, l | 0 <= k < l < |q| :: q[k] != q[l])
    ensures multiset(Translate(trace, p, q))[(p[i], q[j])] == multiset(trace)[(i, j)]
  {
    if trace != [] {
      var n := |trace| - 1;
      var earlier, last, moved := trace[..n], trace[n], (p[trace[n].0], q[trace[n].1]);
      TranslateCount(earlier, p, q, i, j);
      assert trace == earlier + [last];
      assert Translate(trace, p, q) == Translate(earlier, p, q) + [moved];
      SameCountStep(earlier, last, (i, j), Translate(earlier, p, q), moved, (p[i], q[j]));
    }
  }

  lemma {:induction false} StableOrderDistinct(rows: seq<Row>, cols: seq<string>, sort: seq<string>, p: seq<nat>)
    requires Keyed(rows, cols, sort) && StableOrder(rows, KeyOrder(cols, sort), p)
    ensures forall k, l | 0 <= k < l < |p| :: p[k] != p[l]
  {
    KeyOrderPreorder(rows, cols, sort);
    forall k, l | 0 <= k < l < |p| ensures p[k] != p[l] {
      BeforeIsStrictOrder(rows, KeyOrder(cols, sort), p[k], p[k], p[k]);
    }
  }

  function EqualKeys(lCols: seq<string>, rCols: seq<string>, sort: seq<string>, on: Condition): Condition {
    (l: Row, r: Row) => CompareKeyed(l, lCols, r, rCols, sort) == Equal && on(l, r)
  }

  /** Both rows are the first of their key in their own input. */
  ghost predicate HeadsOfRuns(L: seq<Row>, R: seq<Row>, lCols: seq<string>, rCols: seq<string>, sort: seq<string>, x: int, y: int)
    requires 0 <= x < |L| && 0 <= y < |R|
  {
    FirstOfKey(L, lCols, sort, x) && FirstOfKey(R, rCols, sort, y)
  }

  ghost function MergeCount(L: seq<Row>, R: seq<Row>, lCols: seq<string>, rCols: seq<string>, sort: seq<string>,
                            on: Condition, x: int, y: int): nat
    requires 0 <= x < |L| && 0 <= y < |R|
  {
    if !EqualKeys(lCols, rCols, sort, on)(L[x], R[y]) then 0
    else if HeadsOfRuns(L, R, lCols, rCols, sort, x, y) then 2
    else 1
  }

  lemma {:induction false} CountAtOriginal(L: seq<Row>, R: seq<Row>, lCols: seq<string>, rCols: seq<string>, sort: seq<string>, on: Condition,
      p: seq<nat>, q: seq<nat>, K: seq<Row>, J: seq<Row>, trace: seq<Pair>, x: nat, y: nat)
    requires Keyed(L, lCols, sort) && StableOrder(L, KeyOrder(lCols, sort), p)
    requires Keyed(R, rCols, sort) && StableOrder(R, KeyOrder(rCols, sort), q)
    requires Keyed(Permute(L, p), lCols, sort) && K == KeysOf(Permute(L, p), lCols, sort) && SortedKeys(K, |sort|)
    requires Keyed(Permute(R, q), rCols, sort) && J == KeysOf(Permute(R, q), rCols, sort) && SortedKeys(J, |sort|)
    requires EmittedBetween(Permute(L, p), Permute(R, q), K, J, |sort|, on, trace, 0, |p|)
    requires x < |L| && y < |R|
    ensures multiset(Translate(trace, p, q))[(x, y)] == MergeCount(L, R, lCols, rCols, sort, on, x, y)
  {
    assert x in p && y in q;
    var i: nat :| i < |p| && p[i] == x;
    var j: nat :| j < |q| && q[j] == y;
    StableOrderDistinct(L, lCols, sort, p);
    StableOrderDistinct(R, rCols, sort, q);
    TranslateCount(trace, p, q, i, j);
    RunStartIsFirst(L, lCols, sort, p, K, i);
    RunStartIsFirst(R, rCols, sort, q, J, j);
    ComparesKeys(L[x], lCols, R[y], rCols, sort);
  }

  lemma {:induction false} TranslatedRows(L: seq<Row>, R: seq<Row>, p: seq<nat>, q: seq<nat>, trace: seq<Pair>)
    requires InRange(p, |L|) && InRange(q, |R|) && PairsInRange(Permute(L, p), Permute(R, q), trace)
    ensures PairsInRange(L, R, Translate(trace, p, q))
    ensures RowsOf(L, R, Translate(trace, p, q)) == RowsOf(Permute(L, p), Permute(R, q), trace)
  {
  }

  lemma {:induction false} TranslatedCounts(L: seq<Row>, R: seq<Row>, lCols: seq<string>, rCols: seq<string>, sort: seq<string>, on: Condition,
      p: seq<nat>, q: seq<nat>, K: seq<Row>, J: seq<Row>, trace: seq<Pair>)
    requires Keyed(L, lCols, sort) && StableOrder(L, KeyOrder(lCols, sort), p)
    requires Keyed(R, rCols, sort) && StableOrder(R, KeyOrder(rCols, sort), q)
    requires BothSorted(Permute(L, p), lCols, K, Permute(R, q), rCols, J, sort)
    requires EmittedBetween(Permute(L, p), Permute(R, q), K, J, |sort|, on, trace, 0, |p|)
    ensures forall x, y | 0 <= x < |L| && 0 <= y < |R| ::
              multiset(Translate(trace, p, q))[(x, y)] == MergeCount(L, R, lCols, rCols, sort, on, x, y)
  {
    forall x: nat, y: nat | x < |L| && y < |R|
      ensures multiset(Translate(trace, p, q))[(x, y)] == MergeCount(L, R, lCols, rCols, sort, on, x, y)
    {
      CountAtOriginal(L, R, lCols, rCols, sort, on, p, q, K, J, trace, x, y);
    }
  }

  /** In terms of the unsorted inputs, every pair of rows with tied keys that
      satisfies the condition is emitted once, and the pair of first rows of each
      key once more. */
  lemma {:induction false} MergedCounts(L: seq<Row>, R: seq<Row>, lCols: seq<string>, rCols: seq<string>, sort: seq<string>, on: Condition,
    p: seq<nat>, q: seq<nat>, K: seq<Row>, J: seq<Row>, out: seq<Row>)
    returns (pairs: seq<Pair>)
    requires Keyed(L, lCols, sort) && StableOrder(L, KeyOrder(lCols, sort), p)
    requires Keyed(R, rCols, sort) && StableOrder(R, KeyOrder(rCols, sort), q)
    requires BothSorted(Permute(L, p), lCols, K, Permute(R, q), rCols, J, sort)
    requires Merged(Permute(L, p), Permute(R, q), K, J, |sort|, on, out)
    ensures PairsInRange(L, R, pairs) && out == RowsOf(L, R, pairs)
    ensures forall x, y | 0 <= x < |L| && 0 <= y < |R| ::
              multiset(pairs)[(x, y)] == MergeCount(L, R, lCols, rCols, sort, on, x, y)
  {
    var trace :| EmittedBetween(Permute(L, p), Permute(R, q), K, J, |sort|, on, trace, 0, |Permute(L, p)|)
      && out == RowsOf(Permute(L, p), Permute(R, q), trace);
    pairs := Translate(trace, p, q);
    TranslatedRows(L, R, p, q, trace);
    TranslatedCounts(L, R, lCols, rCols, sort, on, p, q, K, J, trace);
  }

  lemma {:induction false} InputsSorted(rows: seq<Row>, cols: seq<string>, sort: seq<string>) returns (p: seq<nat>, K: seq<Row>)
    ensures Keyed(rows, cols, sort) ==>
      && StableOrder(rows, KeyOrder(cols, sort), p) && SortInput(rows, cols, sort) == Permute(rows, p)
      && SortedBy(SortInput(rows, cols, sort), cols, sort, K)
    ensures forall r | r in SortInput(rows, cols, sort) :: r in rows
  {
    p, K := [], [];
    if Keyed(rows, cols, sort) {
      p := SortInputOrder(rows, cols, sort);
      SortedInputKeys(rows, cols, sort, p);
      K := KeysOf(SortInput(rows, cols, sort), cols, sort);
    }
  }

  // ----- the emitted rows as a multiset -----

  ghost function HeadsAmong(L: seq<Row>, R: seq<Row>, lCols: seq<string>, rCols: seq<string>, sort: seq<string>,
                            pairs: seq<Pair>, n: nat): seq<Pair>
    requires PairsInRange(L, R, pairs) && n <= |pairs|
  {
    if n == 0 then []
    else
      var rest := HeadsAmong(L, R, lCols, rCols, sort, pairs, n - 1);
      if HeadsOfRuns(L, R, lCols, rCols, sort, pairs[n - 1].0, pairs[n - 1].1) then rest + [pairs[n - 1]] else rest
  }

  lemma {:induction false} HeadsAmongCount(L: seq<Row>, R: seq<Row>, lCols: seq<string>, rCols: seq<string>, sort: seq<string>,
      pairs: seq<Pair>, n: nat, p: Pair)
    requires PairsInRange(L, R, pairs) && n <= |pairs|
    ensures PairsInRange(L, R, HeadsAmong(L, R, lCols, rCols, sort, pairs, n))
    ensures multiset(HeadsAmong(L, R, lCols, rCols, sort, pairs, n))[p] ==
            if 0 <= p.0 < |L| && 0 <= p.1 < |R| && HeadsOfRuns(L, R, lCols, rCols, sort, p.0, p.1)
            then multiset(pairs[..n])[p] else 0
  {
    if n != 0 {
      HeadsAmongCount(L, R, lCols, rCols, sort, pairs, n - 1, p);
      assert pairs[..n] == pairs[..n - 1] + [pairs[n - 1]];
    }
  }

  /** The satisfying pairs of first rows, one per matching key run. */
  ghost function HeadPairs(L: seq<Row>, R: seq<Row>, lCols: seq<string>, rCols: seq<string>, sort: seq<string>, on: Condition)
    : (heads: seq<Pair>)
    ensures PairsInRange(L, R, heads)
  {
    var all := JoinPairs(L, R, EqualKeys(lCols, rCols, sort, on));
    BlockPairsInRange(L, R, EqualKeys(lCols, rCols, sort, on), 0, |L|, 0, |R|);
    HeadsAmongCount(L, R, lCols, rCols, sort, all, |all|, (0, 0));
    HeadsAmong(L, R, lCols, rCols, sort, all, |all|)
  }

  lemma {:induction false} HeadPairsCount(L: seq<Row>, R: seq<Row>, lCols: seq<string>, rCols: seq<string>, sort: seq<string>, on: Condition, p: Pair)
    ensures multiset(HeadPairs(L, R, lCols, rCols, sort, on))[p] ==
            if 0 <= p.0 < |L| && 0 <= p.1 < |R| && MergeCount(L, R, lCols, rCols, sort, on, p.0, p.1) == 2 then 1 else 0
  {
    var both := EqualKeys(lCols, rCols, sort, on);
    var all := JoinPairs(L, R, both);
    BlockPairsInRange(L, R, both, 0, |L|, 0, |R|);
    BlockPairsCount(L, R, both, 0, |L|, 0, |R|, p.0, p.1);
    HeadsAmongCount(L, R, lCols, rCols, sort, all, |all|, p);
    assert all[..|all|] == all;
  }

  lemma {:induction false} PairsSplit(L: seq<Row>, R: seq<Row>, lCols: seq<string>, rCols: seq<string>, sort: seq<string>, on: Condition,
      pairs: seq<Pair>)
    requires PairsInRange(L, R, pairs)
    requires forall x, y | 0 <= x < |L| && 0 <= y < |R| ::
               multiset(pairs)[(x, y)] == MergeCount(L, R, lCols, rCols, sort, on, x, y)
    ensures multiset(pairs) ==
            multiset(JoinPairs(L, R, EqualKeys(lCols, rCols, sort, on)) + HeadPairs(L, R, lCols, rCols, sort, on))
  {
    var join, heads := JoinPairs(L, R, EqualKeys(lCols, rCols, sort, on)), HeadPairs(L, R, lCols, rCols, sort, on);
    forall p ensures multiset(pairs)[p] == multiset(join + heads)[p] {
      BlockPairsCount(L, R, EqualKeys(lCols, rCols, sort, on), 0, |L|, 0, |R|, p.0, p.1);
      HeadPairsCount(L, R, lCols, rCols, sort, on, p);
      if p in pairs { var k :| 0 <= k < |pairs| && pairs[k] == p; }
      assert p in pairs <==> multiset(pairs)[p] > 0;
    }
    SameCounts(multiset(pairs), multiset(join + heads));
  }

  lemma {:induction false} RemoveAt(L: seq<Row>, R: seq<Row>, b: seq<Pair>, k: nat) returns (rest: seq<Pair>)
    requires PairsInRange(L, R, b) && k < |b|
    ensures PairsInRange(L, R, rest) && |rest| == |b| - 1
    ensures multiset(b) == multiset(rest) + multiset{b[k]}
    ensures multiset(RowsOf(L, R, b)) == multiset(RowsOf(L, R, rest)) + multiset{L[b[k].0] + R[b[k].1]}
  {
    var front, back, row := b[..k], b[k + 1..], L[b[k].0] + R[b[k].1];
    rest := front + back;
    assert b == front + [b[k]] + back;
    RowsOfConcat(L, R, front, back);
    RowsOfConcat(L, R, front, [b[k]]);
    RowsOfConcat(L, R, front + [b[k]], back);
    assert RowsOf(L, R, [b[k]]) == [row];
  }

  lemma {:induction false} CancelOne(x: multiset<Pair>, y: multiset<Pair>, p: Pair)
    requires x + multiset{p} == y + multiset{p}
    ensures x == y
  {
    assert x == (x + multiset{p}) - multiset{p} && y == (y + multiset{p}) - multiset{p};
  }

  lemma {:induction false} PlaceOf(a: seq<Pair>, b: seq<Pair>) returns (k: nat)
    requires a != [] && multiset(a) == multiset(b)
    ensures k < |b| && b[k] == a[0]
  {
    assert a[0] in multiset(a);
    k :| k < |b| && b[k] == a[0];
  }

  /** Rearranging the pairs rearranges the rows. */
  lemma {:induction false} RowsOfMultiset(L: seq<Row>, R: seq<Row>, a: seq<Pair>, b: seq<Pair>)
    requires PairsInRange(L, R, a) && PairsInRange(L, R, b) && multiset(a) == multiset(b)
    ensures multiset(RowsOf(L, R, a)) == multiset(RowsOf(L, R, b))
    decreases |a|
  {
    assert |a| == |multiset(a)| == |multiset(b)| == |b|;
    if a != [] {
      var k := PlaceOf(a, b);
      var a' := RemoveAt(L, R, a, 0);
      var b' := RemoveAt(L, R, b, k);
      CancelOne(multiset(a'), multiset(b'), a[0]);
      RowsOfMultiset(L, R, a', b');
    }
  }

  /** As a bag of rows, the merge join is the inner join on key equality and the
      condition, plus one surplus row per matching run whose first pair
      satisfies the condition. It is the inner join itself exactly when there
      is no such run. */
  lemma {:induction false} MergeJoinSurplus(L: seq<Row>, R: seq<Row>, lCols: seq<string>, rCols: seq<string>, sort: seq<string>, on: Condition,
      pairs: seq<Pair>)
    requires PairsInRange(L, R, pairs)
    requires forall x, y | 0 <= x < |L| && 0 <= y < |R| ::
               multiset(pairs)[(x, y)] == MergeCount(L, R, lCols, rCols, sort, on, x, y)
    ensures multiset(RowsOf(L, R, pairs)) ==
            multiset(InnerJoin(L, R, EqualKeys(lCols, rCols, sort, on)))
            + multiset(RowsOf(L, R, HeadPairs(L, R, lCols, rCols, sort, on)))
    ensures multiset(RowsOf(L, R, pairs)) == multiset(InnerJoin(L, R, EqualKeys(lCols, rCols, sort, on))) <==>
            forall x, y | 0 <= x < |L| && 0 <= y < |R| && HeadsOfRuns(L, R, lCols, rCols, sort, x, y) ::
              !EqualKeys(lCols, rCols, sort, on)(L[x], R[y])
  {
    var both := EqualKeys(lCols, rCols, sort, on);
    var join, heads := JoinPairs(L, R, both), HeadPairs(L, R, lCols, rCols, sort, on);
    JoinRowsFromPairs(L, R, both, |L|);
    PairsSplit(L, R, lCols, rCols, sort, on, pairs);
    RowsOfConcat(L, R, join, heads);
    RowsOfMultiset(L, R, pairs, join + heads);
    assert multiset(RowsOf(L, R, pairs)) == multiset(RowsOf(L, R, join)) + multiset(RowsOf(L, R, heads));
    NoHeadsIff(L, R, lCols, rCols, sort, on);
    SurplusEmptyIff(multiset(RowsOf(L, R, join)), RowsOf(L, R, heads));
  }

  lemma {:induction false} NoHeadsIff(L: seq<Row>, R: seq<Row>, lCols: seq<string>, rCols: seq<string>, sort: seq<string>, on: Condition)
    ensures HeadPairs(L, R, lCols, rCols, sort, on) == [] <==>
            forall x, y | 0 <= x < |L| && 0 <= y < |R| && HeadsOfRuns(L, R, lCols, rCols, sort, x, y) ::
              !EqualKeys(lCols, rCols, sort, on)(L[x], R[y])
  {
    var heads := HeadPairs(L, R, lCols, rCols, sort, on);
    if heads != [] {
      HeadPairsCount(L, R, lCols, rCols, sort, on, heads[0]);
      assert heads[0] in multiset(heads);
    }
    forall x, y | 0 <= x < |L| && 0 <= y < |R| && HeadsOfRuns(L, R, lCols, rCols, sort, x, y)
      && EqualKeys(lCols, rCols, sort, on)(L[x], R[y])
      ensures heads != []
    {
      HeadPairsCount(L, R, lCols, rCols, sort, on, (x, y));
      assert (x, y) in multiset(heads);
    }
  }

  lemma {:induction false} SurplusEmptyIff(base: multiset<Row>, extra: seq<Row>)
    ensures base + multiset(extra) == base <==> extra == []
  {
    assert |base + multiset(extra)| == |base| + |extra|;
  }

  /** The merge join as a whole. It emits only joined rows that satisfy the
      condition, even if some rows lack a sort column. When none does, the result
      is the inner join on key equality and the condition, plus the surplus rows. */
  method SortMergeJoin(L: seq<Row>, R: seq<Row>, lCols: seq<string>, rCols: seq<string>, sort: seq<string>, on: Condition)
    returns (out: seq<Row>)
    ensures forall row | row in out :: JoinedRow(L, R, on, row)
    ensures Keyed(L, lCols, sort) && Keyed(R, rCols, sort) ==>
      multiset(out) ==
      multiset(InnerJoin(L, R, EqualKeys(lCols, rCols, sort, on)))
      + multiset(RowsOf(L, R, HeadPairs(L, R, lCols, rCols, sort, on)))
    ensures Keyed(L, lCols, sort) && Keyed(R, rCols, sort) ==>
      (multiset(out) == multiset(InnerJoin(L, R, EqualKeys(lCols, rCols, sort, on))) <==>
       forall x, y | 0 <= x < |L| && 0 <= y < |R| && HeadsOfRuns(L, R, lCols, rCols, sort, x, y) ::
         !EqualKeys(lCols, rCols, sort, on)(L[x], R[y]))
  {
    ghost var p, K := InputsSorted(L, lCols, sort);
    ghost var q, J := InputsSorted(R, rCols, sort);
    var LS, RS := SortInput(L, lCols, sort), SortInput(R, rCols, sort);
    out := MergeSorted(LS, RS, lCols, rCols, sort, on, K, J);
    forall row | row in out ensures JoinedRow(L, R, on, row) {
      assert JoinedRow(LS, RS, on, row);
    }
    if Keyed(L, lCols, sort) && Keyed(R, rCols, sort) {
      ghost var pairs := MergedCounts(L, R, lCols, rCols, sort, on, p, q, K, J, out);
      MergeJoinSurplus(L, R, lCols, rCols, sort, on, pairs);
    }
  }
}
