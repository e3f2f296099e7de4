/** The semi-naive evaluation of a recursive common table expression. The
    recursive member is an arbitrary function of the rows it is shown, and it is
    only ever shown the rows found in the previous round. */
module RecursiveCte {
  import opened Values

  const MAX_ITERATIONS: nat := 1000

  type Member = seq<Row> -> seq<Row>

  ghost function RowSet(rows: seq<Row>): set<Row> {
    set r | r in rows
  }

  // ----- what UNION should compute -----

  /** The recursive member looks at its input row by row. */
  ghost predicate Distributes(F: Member) {
    forall d: seq<Row>, x: Row :: x in Output(F, d) <==> exists r :: r in d && x in F([r])
  }

  ghost function Output(F: Member, d: seq<Row>): set<Row> {
    RowSet(F(d))
  }

  /** Rows reachable from the anchor by at most `k` applications of `F`. */
  ghost function Reach(anchor: seq<Row>, F: Member, k: nat): set<Row> {
    if k == 0 then RowSet(anchor)
    else
      var before := Reach(anchor, F, k - 1);
      before + set r, x | r in before && x in F([r]) :: x
  }

  ghost predicate Closed(S: iset<Row>, F: Member) {
    forall r, x :: r in S && x in F([r]) ==> x in S
  }

  ghost predicate LeastClosed(S: set<Row>, anchor: seq<Row>, F: Member) {
    && RowSet(anchor) <= S
    && Closed((iset r | r in S), F)
    && (forall T: iset<Row>, x: Row :: (forall r | r in anchor :: r in T) && Closed(T, F) && x in S ==> x in T)
  }

  lemma {:induction false} ReachIsWithin(anchor: seq<Row>, F: Member, k: nat, T: iset<Row>)
    requires (forall r | r in anchor :: r in T) && Closed(T, F)
    ensures forall x | x in Reach(anchor, F, k) :: x in T
  {
    if k != 0 { ReachIsWithin(anchor, F, k - 1, T); }
  }

  lemma {:induction false} ClosedReachIsLeast(anchor: seq<Row>, F: Member, k: nat)
    requires Closed((iset r | r in Reach(anchor, F, k)), F)
    ensures LeastClosed(Reach(anchor, F, k), anchor, F)
  {
    ReachGrows(anchor, F, k);
    forall T: iset<Row>, x: Row | (forall r | r in anchor :: r in T) && Closed(T, F) && x in Reach(anchor, F, k) ensures x in T {
      ReachIsWithin(anchor, F, k, T);
    }
  }

  lemma {:induction false} ReachGrows(anchor: seq<Row>, F: Member, k: nat)
    ensures RowSet(anchor) <= Reach(anchor, F, k)
  {
    if k != 0 { ReachGrows(anchor, F, k - 1); }
  }

  // ----- what UNION ALL should compute -----

  ghost function Power(anchor: seq<Row>, F: Member, k: nat): seq<Row> {
    if k == 0 then anchor else F(Power(anchor, F, k - 1))
  }

  /** anchor, F(anchor), F(F(anchor)), ..., up to `k` applications. */
  ghost function Levels(anchor: seq<Row>, F: Member, k: nat): seq<Row> {
    if k == 0 then anchor else Levels(anchor, F, k - 1) + Power(anchor, F, k)
  }

  // ----- one round -----

  /** Every comparable row beyond the anchor is present once, and the copies of
      an anchor row are those of the anchor. */
  ghost predicate Deduplicated(anchor: seq<Row>, all: seq<Row>) {
    forall x | Comparable(x) ::
      multiset(all)[x] == if x in anchor then multiset(anchor)[x] else if x in all then 1 else 0
  }

  lemma {:induction false} DeduplicatedStep(anchor: seq<Row>, all: seq<Row>, row: Row)
    requires Deduplicated(anchor, all) && RowSet(anchor) <= RowSet(all) && (row !in all || !Comparable(row))
    ensures Deduplicated(anchor, all + [row])
  {
    assert row in anchor ==> row in RowSet(anchor);
    forall x | Comparable(x)
      ensures multiset(all + [row])[x] == if x in anchor then multiset(anchor)[x] else if x in all + [row] then 1 else 0
    {
      assert multiset(all + [row])[x] == multiset(all)[x] + if x == row then 1 else 0;
    }
  }

  /** The rows that are new: all of them under UNION ALL; otherwise, in order, those
      that are not known and did not come before, and those that equal nothing. */
  ghost function NewRows(unionAll: bool, known: seq<Row>, rows: seq<Row>): seq<Row> {
    if rows == [] then []
    else
      var earlier, row := rows[..|rows| - 1], rows[|rows| - 1];
      var before := NewRows(unionAll, known, earlier);
      if unionAll || !Comparable(row) || (row !in known && row !in earlier) then before + [row] else before
  }

  lemma {:induction false} NewRowsSnoc(unionAll: bool, known: seq<Row>, rows: seq<Row>, row: Row)
    ensures NewRows(unionAll, known, rows + [row]) == NewRows(unionAll, known, rows) +
      if unionAll || !Comparable(row) || (row !in known && row !in rows) then [row] else []
  {
    assert (rows + [row])[..|rows|] == rows;
  }

  lemma {:induction false} NewRowsMembers(unionAll: bool, known: seq<Row>, rows: seq<Row>, x: Row)
    ensures x in NewRows(unionAll, known, rows) <==> x in rows && (unionAll || !Comparable(x) || x !in known)
  {
    if rows != [] {
      NewRowsMembers(unionAll, known, rows[..|rows| - 1], x);
      assert rows == rows[..|rows| - 1] + [rows[|rows| - 1]];
    }
  }

  lemma {:induction false} NewRowsDeduplicated(known: seq<Row>, rows: seq<Row>, anchor: seq<Row>)
    requires RowSet(anchor) <= RowSet(known) && Deduplicated(anchor, known)
    ensures Deduplicated(anchor, known + NewRows(false, known, rows))
  {
    if rows == [] {
      assert known + [] == known;
    } else {
      var earlier, row := rows[..|rows| - 1], rows[|rows| - 1];
      var all := known + NewRows(false, known, earlier);
      NewRowsDeduplicated(known, earlier, anchor);
      NewRowsMembers(false, known, earlier, row);
      assert RowSet(known) <= RowSet(all);
      if !Comparable(row) || (row !in known && row !in earlier) {
        DeduplicatedStep(anchor, all, row);
        assert all + [row] == known + NewRows(false, known, rows);
      }
    }
  }

  lemma {:induction false} AllNewRows(known: seq<Row>, rows: seq<Row>)
    ensures NewRows(true, known, rows) == rows
  {
    if rows != [] {
      AllNewRows(known, rows[..|rows| - 1]);
      assert rows == rows[..|rows| - 1] + [rows[|rows| - 1]];
    }
  }

  /** What appending the new rows does to the set of rows and to their copies. */
  lemma {:induction false} NewRowsMean(unionAll: bool, known: seq<Row>, rows: seq<Row>, anchor: seq<Row>)
    requires !unionAll ==> RowSet(anchor) <= RowSet(known) && Deduplicated(anchor, known)
    ensures var delta := NewRows(unionAll, known, rows);
      && (unionAll ==> delta == rows)
      && RowSet(known + delta) == RowSet(known) + RowSet(rows) && RowSet(delta) <= RowSet(rows)
      && (!unionAll ==> Deduplicated(anchor, known + delta))
      && (!unionAll ==> forall x | x in delta && Comparable(x) :: x !in known)
      && (forall x | x in rows && !Comparable(x) :: x in delta)
  {
    forall x ensures x in NewRows(unionAll, known, rows) <==> x in rows && (unionAll || !Comparable(x) || x !in known) {
      NewRowsMembers(unionAll, known, rows, x);
    }
    if unionAll { AllNewRows(known, rows); } else { NewRowsDeduplicated(known, rows, anchor); }
  }

  /** What is accumulated and what is expanded next after `k` rounds, row by row. */
  ghost function After(unionAll: bool, anchor: seq<Row>, F: Member, k: nat): (seq<Row>, seq<Row>) {
    if k == 0 then (anchor, anchor)
    else
      var (all, working) := After(unionAll, anchor, F, k - 1);
      var delta := NewRows(unionAll, all, F(working));
      (all + delta, delta)
  }

  /** Appends the produced rows, dropping the ones already present if duplicates
      are to be eliminated. */
  method AddRows(unionAll: bool, known: seq<Row>, rows: seq<Row>, ghost anchor: seq<Row>)
    returns (delta: seq<Row>, all: seq<Row>)
    requires !unionAll ==> RowSet(anchor) <= RowSet(known) && Deduplicated(anchor, known)
    ensures all == known + delta && delta == NewRows(unionAll, known, rows)
    ensures unionAll ==> delta == rows
    ensures RowSet(all) == RowSet(known) + RowSet(rows)
    ensures RowSet(delta) <= RowSet(rows)
    ensures !unionAll ==> Deduplicated(anchor, all)
    ensures !unionAll ==> forall x | x in delta && Comparable(x) :: x !in known
    ensures forall x | x in rows && !Comparable(x) :: x in delta
  {
    delta, all := [], known;
    for i := 0 to |rows|
      invariant all == known + delta && delta == NewRows(unionAll, known, rows[..i])
    {
      RowsContainMeans(all, rows[i]);
      NewRowsMembers(unionAll, known, rows[..i], rows[i]);
      NewRowsSnoc(unionAll, known, rows[..i], rows[i]);
      assert rows[..i + 1] == rows[..i] + [rows[i]];
      if unionAll || !RowsContain(all, rows[i]) {
        delta, all := delta + [rows[i]], all + [rows[i]];
      }
    }
    assert rows[..|rows|] == rows;
    NewRowsMean(unionAll, known, rows, anchor);
  }

  // ----- the loop -----

  /** All rows the member can ever produce lie in `U`, and are comparable. */
  ghost predicate Bounded(U: set<Row>, anchor: seq<Row>, F: Member) {
    && RowSet(anchor) <= U
    && (forall d: seq<Row>, x: Row | RowSet(d) <= U && x in Output(F, d) :: x in U && Comparable(x))
  }

  /** Each row is produced from the one before it, and duplicate elimination sees
      none of them, because each holds a timestamp or a list. */
  ghost predicate HiddenChain(F: Member, p: seq<Row>) {
    && (forall i | 0 <= i < |p| :: !Comparable(p[i]))
    && (forall i | 0 <= i < |p| - 1 :: p[i + 1] in F([p[i]]))
  }

  ghost predicate HiddenCycle(F: Member, p: seq<Row>) {
    |p| >= 2 && p[0] == p[|p| - 1] && HiddenChain(F, p)
  }

  /** A cycle of rows that duplicate elimination cannot see is reached. */
  ghost predicate Sustained(anchor: seq<Row>, F: Member) {
    exists p, k: nat :: HiddenCycle(F, p) && p[0] in Reach(anchor, F, k)
  }

  ghost predicate Touches(p: seq<Row>, rows: seq<Row>) {
    exists i | 0 <= i < |p| :: p[i] in rows
  }

  /** All reachable rows lie in `U`. */
  ghost predicate Within(U: set<Row>, anchor: seq<Row>, F: Member) {
    RowSet(anchor) <= U && forall r, x | r in U && x in F([r]) :: x in U
  }

  ghost function Hidden(U: set<Row>): set<Row> {
    set x | x in U && !Comparable(x)
  }

  /** The comparable rows of `U` that are not in the anchor. */
  ghost function Findable(U: set<Row>, anchor: seq<Row>): set<Row> {
    set x | x in U && Comparable(x) && x !in anchor
  }

  /** Rounds that always suffice in the universe `U`: between two rounds that find
      a new comparable row there is no time to meet more hidden rows than exist. */
  ghost function Rounds(U: set<Row>, anchor: seq<Row>): nat {
    (|Findable(U, anchor)| + 1) * (|Hidden(U)| + 1)
  }

  /** Everything found so far except the current delta is already expanded. */
  ghost predicate Expanded(all: seq<Row>, working: seq<Row>, F: Member) {
    && RowSet(working) <= RowSet(all)
    && forall r, x | r in all && r !in working && x in F([r]) :: x in all
  }

  ghost predicate UnionInvariant(anchor: seq<Row>, F: Member, all: seq<Row>, working: seq<Row>, k: nat) {
    Distributes(F) ==>
      && RowSet(all) == Reach(anchor, F, k)
      && Expanded(all, working, F)
      && (forall p | HiddenCycle(F, p) && Touches(p, all) :: Touches(p, working))
  }

  ghost predicate GrowthInvariant(U: set<Row>, anchor: seq<Row>, F: Member, all: seq<Row>, working: seq<Row>, k: nat) {
    Bounded(U, anchor, F) ==>
      && RowSet(all) <= U && RowSet(working) <= U
      && k <= |RowSet(all) - RowSet(anchor)| + if working == [] then 1 else 0
  }

  lemma {:induction false} UnionStep(anchor: seq<Row>, F: Member, all: seq<Row>, working: seq<Row>, k: nat, delta: seq<Row>, all': seq<Row>)
    requires Distributes(F) && UnionInvariant(anchor, F, all, working, k)
    requires all' == all + delta && RowSet(all') == RowSet(all) + Output(F, working) && RowSet(delta) <= Output(F, working)
    requires forall x | x in F(working) && !Comparable(x) :: x in delta
    ensures UnionInvariant(anchor, F, all', delta, k + 1)
  {
    assert forall x :: x in F(working) <==> x in Output(F, working);
    assert forall x :: x in all' <==> x in RowSet(all');
    assert forall x :: x in all <==> x in RowSet(all);
    forall x ensures x in Reach(anchor, F, k + 1) <==> x in RowSet(all') {
      if x in Reach(anchor, F, k + 1) && x !in Reach(anchor, F, k) {
        var r :| r in Reach(anchor, F, k) && x in F([r]);
        assert r in all;
        if r in working { assert x in Output(F, working); }
      }
      if x in Output(F, working) {
        var r :| r in working && x in F([r]);
        assert r in RowSet(working);
      }
    }
    forall r, x | r in all' && r !in delta && x in F([r]) ensures x in all' {
      if r in working { assert x in Output(F, working); }
    }
    forall p | HiddenCycle(F, p) && Touches(p, all') ensures Touches(p, delta) {
      if Touches(p, all) { CycleGoesOn(F, p, working, delta); }
    }
  }

  /** A hidden cycle in the delta is in the next delta too. */
  lemma {:induction false} CycleGoesOn(F: Member, p: seq<Row>, working: seq<Row>, delta: seq<Row>)
    requires Distributes(F) && HiddenCycle(F, p) && Touches(p, working)
    requires forall x | x in F(working) && !Comparable(x) :: x in delta
    ensures Touches(p, delta)
  {
    var i :| 0 <= i < |p| && p[i] in working;
    var j := if i == |p| - 1 then 0 else i;
    assert p[j + 1] in F([p[j]]) && p[j] in working;
    assert p[j + 1] in Output(F, working);
    assert p[j + 1] in F(working);
  }

  lemma {:induction false} GrowthStep(U: set<Row>, anchor: seq<Row>, F: Member, all: seq<Row>, working: seq<Row>, k: nat,
      delta: seq<Row>, all': seq<Row>)
    requires Bounded(U, anchor, F) && GrowthInvariant(U, anchor, F, all, working, k) && working != []
    requires all' == all + delta && RowSet(all') == RowSet(all) + Output(F, working) && RowSet(delta) <= Output(F, working)
    requires RowSet(anchor) <= RowSet(all) && forall x | x in delta && Comparable(x) :: x !in all
    ensures GrowthInvariant(U, anchor, F, all', delta, k + 1)
  {
    var old', new' := RowSet(all) - RowSet(anchor), RowSet(all') - RowSet(anchor);
    SubsetSize(old', new');
    if delta != [] {
      var x := delta[0];
      assert x in RowSet(delta);
      assert Comparable(x) && x !in RowSet(all) && x in RowSet(all');
      SubsetSize(old' + {x}, new');
    }
  }

  lemma {:induction false} SubsetSize(a: set<Row>, b: set<Row>)
    requires a <= b
    ensures |a| <= |b|
  {
    assert b == a + (b - a);
  }

  // ----- how long hidden rows can keep the loop going -----

  ghost predicate ChainTo(F: Member, all: seq<Row>, x: Row, n: nat) {
    n > 0 && exists p :: HiddenChain(F, p) && |p| == n && p[n - 1] == x && forall e | e in p :: e in all
  }

  lemma {:induction false} ChainStarts(F: Member, all: seq<Row>, x: Row)
    requires !Comparable(x) && x in all
    ensures ChainTo(F, all, x, 1)
  {
    assert HiddenChain(F, [x]) && [x][0] == x;
  }

  lemma {:induction false} ChainGrows(F: Member, all: seq<Row>, all': seq<Row>, r: Row, x: Row, n: nat)
    requires ChainTo(F, all, r, n) && x in F([r]) && !Comparable(x) && x in all' && forall e | e in all :: e in all'
    ensures ChainTo(F, all', x, n + 1)
  {
    var p :| HiddenChain(F, p) && |p| == n && p[n - 1] == r && forall e | e in p :: e in all;
    var q := p + [x];
    assert HiddenChain(F, q) && q[n] == x;
  }

  lemma {:induction false} DistinctFit(p: seq<Row>, S: set<Row>)
    requires (forall i | 0 <= i < |p| :: p[i] in S) && forall i, j | 0 <= i < j < |p| :: p[i] != p[j]
    ensures |p| <= |S|
  {
    if p != [] {
      var n := |p| - 1;
      DistinctFit(p[..n], S - {p[n]});
    }
  }

  lemma {:induction false} RepeatMakesCycle(F: Member, p: seq<Row>, i: nat, j: nat)
    requires HiddenChain(F, p) && i < j < |p| && p[i] == p[j]
    ensures HiddenCycle(F, p[i..j + 1]) && p[i..j + 1][0] == p[i]
  {
    var q := p[i..j + 1];
    forall m | 0 <= m < |q| - 1 ensures q[m + 1] in F([q[m]]) { assert p[(i + m) + 1] in F([p[i + m]]); }
  }

  /** Without a hidden cycle, a chain of reachable hidden rows never repeats. */
  lemma {:induction false} ChainFits(U: set<Row>, anchor: seq<Row>, F: Member, all: seq<Row>, k: nat, x: Row, n: nat)
    requires !Sustained(anchor, F) && RowSet(all) == Reach(anchor, F, k) && RowSet(all) <= U && ChainTo(F, all, x, n)
    ensures n <= |Hidden(U)|
  {
    var p :| HiddenChain(F, p) && |p| == n && p[n - 1] == x && forall e | e in p :: e in all;
    forall i | 0 <= i < |p| ensures p[i] in Hidden(U) && p[i] in Reach(anchor, F, k) {
      assert p[i] in p;
      assert p[i] in RowSet(all);
    }
    forall i, j | 0 <= i < j < |p| ensures p[i] != p[j] {
      if p[i] == p[j] { RepeatMakesCycle(F, p, i, j); }
    }
    DistinctFit(p, Hidden(U));
  }

  ghost predicate Patient(U: set<Row>, anchor: seq<Row>, F: Member) {
    Distributes(F) && Within(U, anchor, F) && !Sustained(anchor, F)
  }

  ghost function Paid(U: set<Row>, anchor: seq<Row>, all: seq<Row>): nat {
    |Findable(RowSet(all), anchor)| * (|Hidden(U)| + 1)
  }

  /** The last `run` rounds found no comparable row; everything before them is paid
      for by the comparable rows found. */
  ghost predicate Patience(U: set<Row>, anchor: seq<Row>, F: Member, all: seq<Row>, working: seq<Row>, k: nat, run: nat) {
    && k <= Paid(U, anchor, all) + run
    && run <= |Hidden(U)| + (if working == [] then 1 else 0)
    && Chained(F, all, working, run)
  }

  ghost predicate PatienceInvariant(U: set<Row>, anchor: seq<Row>, F: Member, all: seq<Row>, working: seq<Row>, k: nat, run: nat) {
    Patient(U, anchor, F) ==> Patience(U, anchor, F, all, working, k, run)
  }

  lemma {:induction false} AllWithin(U: set<Row>, anchor: seq<Row>, F: Member, all: seq<Row>, k: nat)
    requires Within(U, anchor, F) && RowSet(all) == Reach(anchor, F, k)
    ensures RowSet(all) <= U
  {
    ReachIsWithin(anchor, F, k, iset x | x in U);
  }

  lemma {:induction false} PayForOneMore(a: nat, b: nat, h: nat)
    requires a < b
    ensures a * (h + 1) + h + 1 <= b * (h + 1)
  {
    assert b * (h + 1) == (b - 1) * (h + 1) + (h + 1);
    assert (b - 1 - a) * (h + 1) >= 0;
  }

  lemma {:induction false} PaidGrows(U: set<Row>, anchor: seq<Row>, all: seq<Row>, delta: seq<Row>)
    ensures Paid(U, anchor, all) <= Paid(U, anchor, all + delta)
  {
    var before, after := Findable(RowSet(all), anchor), Findable(RowSet(all + delta), anchor);
    SubsetSize(before, after);
    assert (|after| - |before|) * (|Hidden(U)| + 1) >= 0;
  }

  lemma {:induction false} PaidByOne(U: set<Row>, anchor: seq<Row>, all: seq<Row>, delta: seq<Row>, x: Row)
    requires x in delta && Comparable(x) && x !in all && RowSet(anchor) <= RowSet(all)
    ensures Paid(U, anchor, all) + |Hidden(U)| + 1 <= Paid(U, anchor, all + delta)
  {
    var before, after := Findable(RowSet(all), anchor), Findable(RowSet(all + delta), anchor);
    assert x !in RowSet(all) && x !in RowSet(anchor) && x in RowSet(all + delta);
    SubsetSize(before + {x}, after);
    PayForOneMore(|before|, |after|, |Hidden(U)|);
  }

  /** A round that finds only hidden rows extends the chains. */
  lemma {:induction false} ChainsGrow(F: Member, all: seq<Row>, working: seq<Row>, run: nat, delta: seq<Row>)
    requires Distributes(F) && Chained(F, all, working, run)
    requires RowSet(delta) <= Output(F, working) && forall x | x in delta :: !Comparable(x)
    ensures Chained(F, all + delta, delta, run + 1)
  {
    forall x | x in delta ensures ChainTo(F, all + delta, x, run + 1) {
      assert x in RowSet(delta) && x in Output(F, working);
      var r :| r in working && x in F([r]);
      if run == 0 { ChainStarts(F, all + delta, x); } else { ChainGrows(F, all, all + delta, r, x, run); }
    }
  }

  lemma {:induction false} HiddenFit(U: set<Row>, anchor: seq<Row>, F: Member, all: seq<Row>, k: nat, x: Row, n: nat)
    requires Within(U, anchor, F) && !Sustained(anchor, F) && RowSet(all) == Reach(anchor, F, k) && ChainTo(F, all, x, n)
    ensures n <= |Hidden(U)|
  {
    AllWithin(U, anchor, F, all, k);
    ChainFits(U, anchor, F, all, k, x, n);
  }

  ghost predicate Chained(F: Member, all: seq<Row>, rows: seq<Row>, n: nat) {
    n > 0 ==> forall x | x in rows :: ChainTo(F, all, x, n)
  }

  lemma {:induction false} HiddenFitAll(U: set<Row>, anchor: seq<Row>, F: Member, all: seq<Row>, k: nat, rows: seq<Row>, n: nat)
    requires Within(U, anchor, F) && !Sustained(anchor, F) && RowSet(all) == Reach(anchor, F, k) && Chained(F, all, rows, n)
    ensures rows != [] ==> n <= |Hidden(U)|
  {
    if rows != [] && n > 0 {
      assert rows[0] in rows;
      HiddenFit(U, anchor, F, all, k, rows[0], n);
    }
  }

  /** A round that finds a comparable row starts a new run. */
  lemma {:induction false} RunEnds(U: set<Row>, anchor: seq<Row>, F: Member, all: seq<Row>, working: seq<Row>, k: nat, run: nat,
      delta: seq<Row>, x: Row)
    requires Patience(U, anchor, F, all, working, k, run) && working != [] && RowSet(anchor) <= RowSet(all)
    requires x in delta && Comparable(x) && x !in all
    ensures Patience(U, anchor, F, all + delta, delta, k + 1, 0)
  {
    PaidByOne(U, anchor, all, delta, x);
  }

  /** A round that finds only hidden rows extends it. */
  lemma {:induction false} RunGoesOn(U: set<Row>, anchor: seq<Row>, F: Member, all: seq<Row>, working: seq<Row>, k: nat, run: nat,
      delta: seq<Row>)
    requires Patience(U, anchor, F, all, working, k, run) && working != []
    requires Chained(F, all + delta, delta, run + 1) && (delta != [] ==> run + 1 <= |Hidden(U)|)
    ensures Patience(U, anchor, F, all + delta, delta, k + 1, run + 1)
  {
    PaidGrows(U, anchor, all, delta);
  }

  lemma {:induction false} PatienceStep(U: set<Row>, anchor: seq<Row>, F: Member, all: seq<Row>, working: seq<Row>, k: nat, run: nat,
      delta: seq<Row>)
    returns (run': nat)
    requires Patient(U, anchor, F) && Patience(U, anchor, F, all, working, k, run) && working != []
    requires RowSet(all + delta) == Reach(anchor, F, k + 1) && RowSet(anchor) <= RowSet(all)
    requires RowSet(delta) <= Output(F, working) && forall x | x in delta && Comparable(x) :: x !in all
    ensures Patience(U, anchor, F, all + delta, delta, k + 1, run')
  {
    if x :| x in delta && Comparable(x) {
      RunEnds(U, anchor, F, all, working, k, run, delta, x);
      run' := 0;
    } else {
      ChainsGrow(F, all, working, run, delta);
      HiddenFitAll(U, anchor, F, all + delta, k + 1, delta, run + 1);
      RunGoesOn(U, anchor, F, all, working, k, run, delta);
      run' := run + 1;
    }
  }

  /** UNION ALL keeps whole levels. */
  ghost predicate LevelInvariant(anchor: seq<Row>, F: Member, all: seq<Row>, working: seq<Row>, k: nat) {
    && all == Levels(anchor, F, k) && working == Power(anchor, F, k)
    && forall j: nat | j < k :: Power(anchor, F, j) != []
  }

  ghost predicate LoopInvariant(unionAll: bool, anchor: seq<Row>, F: Member, U: set<Row>, all: seq<Row>, working: seq<Row>, k: nat,
                                run: nat) {
    if unionAll then LevelInvariant(anchor, F, all, working, k)
    else
      && RowSet(anchor) <= RowSet(all) && Deduplicated(anchor, all)
      && UnionInvariant(anchor, F, all, working, k)
      && GrowthInvariant(U, anchor, F, all, working, k)
      && PatienceInvariant(U, anchor, F, all, working, k, run)
  }

  lemma {:induction false} Initially(unionAll: bool, anchor: seq<Row>, F: Member, U: set<Row>)
    ensures LoopInvariant(unionAll, anchor, F, U, anchor, anchor, 0, 0)
  {
    assert RowSet(anchor) - RowSet(anchor) == {};
  }

  /** One round in which the member produced `F(working)`, possibly nothing. */
  lemma {:induction false} Round(unionAll: bool, anchor: seq<Row>, F: Member, U: set<Row>, all: seq<Row>, working: seq<Row>, k: nat,
      run: nat, delta: seq<Row>, all': seq<Row>)
    returns (run': nat)
    requires LoopInvariant(unionAll, anchor, F, U, all, working, k, run) && working != []
    requires all' == all + delta && RowSet(all') == RowSet(all) + Output(F, working) && RowSet(delta) <= Output(F, working)
    requires unionAll ==> delta == F(working)
    requires !unionAll ==> Deduplicated(anchor, all') && forall x | x in delta && Comparable(x) :: x !in all
    requires forall x | x in F(working) && !Comparable(x) :: x in delta
    ensures LoopInvariant(unionAll, anchor, F, U, all', delta, k + 1, run')
  {
    run' := 0;
    if !unionAll {
      if Distributes(F) { UnionStep(anchor, F, all, working, k, delta, all'); }
      if Bounded(U, anchor, F) { GrowthStep(U, anchor, F, all, working, k, delta, all'); }
      if Patient(U, anchor, F) { run' := PatienceStep(U, anchor, F, all, working, k, run, delta); }
    }
  }

  /** What UNION guarantees after `k` rounds. */
  ghost predicate UnionResult(anchor: seq<Row>, F: Member, U: set<Row>, all: seq<Row>, k: nat, converged: bool) {
    // no duplicates beyond the anchor's own
    && Deduplicated(anchor, all)
    // the rows reachable in that many steps, and on convergence the least closed set
    && (Distributes(F) ==> RowSet(all) == Reach(anchor, F, k))
    && (Distributes(F) && converged ==> LeastClosed(RowSet(all), anchor, F))
    // the cap cuts nothing off a small enough universe
    && (Bounded(U, anchor, F) ==> k <= |U - RowSet(anchor)| + 1)
    && (Bounded(U, anchor, F) && |U - RowSet(anchor)| < MAX_ITERATIONS ==> converged)
    // a hidden cycle runs into the cap, and nothing else does in a small enough universe
    && (Distributes(F) && Sustained(anchor, F) ==> !converged)
    && (Patient(U, anchor, F) ==> k <= Rounds(U, anchor))
    && (Distributes(F) && Within(U, anchor, F) && Rounds(U, anchor) <= MAX_ITERATIONS ==>
          (converged <==> !Sustained(anchor, F)))
  }

  /** What UNION ALL guarantees after `k` rounds. */
  ghost predicate UnionAllResult(anchor: seq<Row>, F: Member, all: seq<Row>, k: nat, converged: bool) {
    && all == Levels(anchor, F, k)
    && (forall j: nat | j < k :: Power(anchor, F, j) != [])
    && (converged <==> Power(anchor, F, k) == [])
  }

  /** Once nothing is left to expand, no hidden cycle can have been reached. */
  lemma {:induction false} ConvergedMeansNotSustained(anchor: seq<Row>, F: Member, all: seq<Row>, k: nat)
    requires Distributes(F) && UnionInvariant(anchor, F, all, [], k)
    ensures !Sustained(anchor, F)
  {
    ReachGrows(anchor, F, k);
    forall p, j: nat | HiddenCycle(F, p) ensures p[0] !in Reach(anchor, F, j) {
      ReachIsWithin(anchor, F, j, iset x | x in RowSet(all));
      assert !Touches(p, []) && !Touches(p, all);
      assert p[0] !in all;
    }
  }

  lemma {:induction false} PatiencePays(U: set<Row>, anchor: seq<Row>, F: Member, all: seq<Row>, working: seq<Row>, k: nat, run: nat)
    requires Patient(U, anchor, F) && UnionInvariant(anchor, F, all, working, k)
    requires PatienceInvariant(U, anchor, F, all, working, k, run)
    ensures k <= Rounds(U, anchor) && (working != [] ==> k < Rounds(U, anchor))
  {
    var found, most, h := Findable(RowSet(all), anchor), Findable(U, anchor), |Hidden(U)|;
    AllWithin(U, anchor, F, all, k);
    SubsetSize(found, most);
    PayForOneMore(|found|, |most| + 1, h);
  }

  lemma {:induction false} Finally(unionAll: bool, anchor: seq<Row>, F: Member, U: set<Row>, all: seq<Row>, working: seq<Row>, k: nat,
      run: nat)
    requires LoopInvariant(unionAll, anchor, F, U, all, working, k, run)
    requires working == [] || k == MAX_ITERATIONS
    ensures unionAll ==> UnionAllResult(anchor, F, all, k, working == [])
    ensures !unionAll ==> UnionResult(anchor, F, U, all, k, working == [])
  {
    if !unionAll {
      if Bounded(U, anchor, F) { SubsetSize(RowSet(all) - RowSet(anchor), U - RowSet(anchor)); }
      if Distributes(F) && working == [] {
        ClosedReachIsLeast(anchor, F, k);
        ConvergedMeansNotSustained(anchor, F, all, k);
      }
      if Patient(U, anchor, F) { PatiencePays(U, anchor, F, all, working, k, run); }
    }
  }

  ghost function Counter(i: nat): seq<Row> {
    [[Integer(i)]]
  }

  /** The number after `i`, if it is not beyond `n`. */
  ghost function CounterAfter(i: nat, n: nat): seq<Row> {
    if i < n then Counter(i + 1) else []
  }

  /** The member counts from 0 up to `n`, one step at a time. */
  ghost predicate CountsTo(F: Member, n: nat) {
    F([]) == [] && forall i: nat {:trigger Counter(i)} :: F(Counter(i)) == CounterAfter(i, n)
  }

  lemma {:induction false} CountPower(F: Member, n: nat, k: nat)
    requires CountsTo(F, n)
    ensures Power(Counter(0), F, k) == if k <= n then Counter(k) else []
  {
    if k != 0 {
      CountPower(F, n, k - 1);
      assert k - 1 <= n ==> F(Counter(k - 1)) == CounterAfter(k - 1, n);
    }
  }

  /** The rows from 0 to `n`. */
  ghost function Count(n: nat): seq<Row> {
    seq(n + 1, i => [Integer(i)])
  }

  lemma {:induction false} CountLevels(F: Member, n: nat, k: nat)
    requires CountsTo(F, n)
    ensures Levels(Counter(0), F, k) == Count(if k <= n then k else n)
  {
    if k != 0 {
      CountLevels(F, n, k - 1);
      CountPower(F, n, k);
      CountMore(k - 1);
    }
  }

  lemma {:induction false} CountMore(n: nat)
    ensures Count(n) + Counter(n + 1) == Count(n + 1) && Count(n) + [] == Count(n)
  {
  }

  /** Where the cap lies: of a count of `n` steps, all of them are made up to a
      thousand, and the first thousand if there are more. */
  lemma {:induction false} CountIsCut(F: Member, n: nat, all: seq<Row>, k: nat, converged: bool)
    requires CountsTo(F, n) && UnionAllResult(Counter(0), F, all, k, converged)
    requires k <= 1000 && (converged || k == 1000)
    ensures all == Count(if n <= 1000 then n else 1000)
  {
    CountLevels(F, n, k);
    CountPower(F, n, k);
  }

  /** Shows the member the current delta and collects what is new. */
  method OneRound(unionAll: bool, anchor: seq<Row>, F: Member, all: seq<Row>, working: seq<Row>, ghost k: nat, ghost U: set<Row>,
                  ghost run: nat)
    returns (delta: seq<Row>, all': seq<Row>, ghost run': nat)
    requires LoopInvariant(unionAll, anchor, F, U, all, working, k, run) && working != []
    ensures all' == all + delta && delta == NewRows(unionAll, all, F(working))
    ensures LoopInvariant(unionAll, anchor, F, U, all', delta, k + 1, run')
  {
    var produced := F(working);
    assert RowSet(produced) == Output(F, working);
    if produced == [] {
      delta, all' := [], all;
      assert all == all + [] && RowSet(all) == RowSet(all) + RowSet([]);
    } else {
      delta, all' := AddRows(unionAll, all, produced, anchor);
    }
    run' := Round(unionAll, anchor, F, U, all, working, k, run, delta, all');
  }

  /** The recursive CTE loop. `converged` records that it stopped because there
      was nothing left to expand rather than because of the cap. */
  method ExecuteRecursiveCte(anchor: seq<Row>, F: Member, unionAll: bool, ghost U: set<Row>)
    returns (all: seq<Row>, iterations: nat, ghost converged: bool)
    ensures iterations <= 1000 && (converged || iterations == 1000) && all == After(unionAll, anchor, F, iterations).0
    ensures unionAll ==> UnionAllResult(anchor, F, all, iterations, converged)
    ensures !unionAll ==> UnionResult(anchor, F, U, all, iterations, converged)
  {
    var working := anchor;
    all, iterations := anchor, 0;
    ghost var run: nat := 0;
    Initially(unionAll, anchor, F, U);
    while working != [] && iterations < MAX_ITERATIONS
      invariant iterations <= MAX_ITERATIONS
      invariant LoopInvariant(unionAll, anchor, F, U, all, working, iterations, run)
      invariant After(unionAll, anchor, F, iterations) == (all, working)
      decreases MAX_ITERATIONS - iterations
    {
      working, all, run := OneRound(unionAll, anchor, F, all, working, iterations, U, run);
      iterations := iterations + 1;
    }
    Finally(unionAll, anchor, F, U, all, working, iterations, run);
    converged := working == [];
  }
}
