/** ROW_NUMBER, RANK and DENSE_RANK over one partition. The operator sorts the
    partition, walks it once with a small state, and writes each result at the
    position the row had before sorting. */
module WindowRanks {
  import opened Values
  import opened Sorting

  datatype Ranking = RowNumber | Rank | DenseRank

  /** The state carried along the sorted partition. */
  datatype RankState = RankState(current: nat, previous: Option<seq<Value>>)

  // ----- what section 6.10 of ISO/IEC 9075-2 asks for -----

  ghost function Preceding(rows: seq<Row>, keys: seq<OrderBy>, o: nat): set<int>
    requires o < |rows|
  {
    set i | 0 <= i < |rows| && CompareRows(keys, rows[i], rows[o]) == Less
  }

  /** The first row of its peer class, in input order. */
  ghost predicate LeadsPeers(rows: seq<Row>, keys: seq<OrderBy>, i: int)
    requires 0 <= i < |rows|
  {
    forall j | 0 <= j < i :: CompareRows(keys, rows[j], rows[i]) != Equal
  }

  /** One more than the number of rows before it (in the order, with ties broken
      by input position), of rows strictly before it, or of peer classes strictly
      before it. */
  ghost function Expected(ranking: Ranking, rows: seq<Row>, keys: seq<OrderBy>, o: nat): nat
    requires o < |rows|
  {
    match ranking
    case RowNumber => 1 + |set i: nat | i < |rows| && Before(rows, RowOrder(keys), i, o)|
    case Rank => 1 + |Preceding(rows, keys, o)|
    case DenseRank => 1 + |set i | i in Preceding(rows, keys, o) && LeadsPeers(rows, keys, i)|
  }

  // ----- the walk -----

  function OrderValues(keys: seq<OrderBy>, row: Row): (vs: seq<Value>)
    requires forall k | 0 <= k < |keys| :: keys[k].expr(row).Some?
    ensures |vs| == |keys|
  {
    if keys == [] then [] else [keys[0].expr(row).value] + OrderValues(keys[1..], row)
  }

  /** Peers are recognised with the default NULL placement and no direction. */
  predicate SameValues(a: seq<Value>, b: seq<Value>) {
    |a| == |b| && (a == [] || (CompareValues(a[0], b[0], NullsDefault) == Equal && SameValues(a[1..], b[1..])))
  }

  function Advance(ranking: Ranking, state: RankState, values: seq<Value>, index: nat): RankState {
    match ranking
    case RowNumber => state.(current := state.current + 1)
    case Rank =>
      if state.previous.None? then RankState(1, Some(values))
      else if SameValues(values, state.previous.value) then state
      else RankState(index + 1, Some(values))
    case DenseRank =>
      if state.previous.None? then RankState(1, Some(values))
      else if SameValues(values, state.previous.value) then state
      else RankState(state.current + 1, Some(values))
  }

  /** Peer recognition agrees with the sort, whatever directions and NULL
      placements the sort uses. */
  lemma {:induction false} PeersAreTies(keys: seq<OrderBy>, a: Row, b: Row)
    requires forall k | 0 <= k < |keys| :: keys[k].expr(a).Some? && keys[k].expr(b).Some?
    ensures SameValues(OrderValues(keys, a), OrderValues(keys, b)) <==> CompareRows(keys, a, b) == Equal
  {
    if keys != [] {
      PeersAreTies(keys[1..], a, b);
      var va, vb := OrderValues(keys, a), OrderValues(keys, b);
      assert va[1..] == OrderValues(keys[1..], a) && vb[1..] == OrderValues(keys[1..], b);
      TiesIgnoreNullPlacement(va[0], vb[0], NullsDefault, keys[0].nulls);
    }
  }

  // ----- runs of peers along the sorted positions -----

  /** Where the run of peers that contains sorted position `k` begins. */
  ghost function RunHead<T>(xs: seq<T>, cmp: (T, T) -> Ordering, p: seq<nat>, k: nat): (h: nat)
    requires InRange(p, |xs|) && k < |p|
    ensures h <= k
  {
    if k == 0 then 0 else if cmp(xs[p[k - 1]], xs[p[k]]) == Equal then RunHead(xs, cmp, p, k - 1) else k
  }

  /** The number of runs that begin before sorted position `k`. */
  ghost function Runs<T>(xs: seq<T>, cmp: (T, T) -> Ordering, p: seq<nat>, k: nat): nat
    requires InRange(p, |xs|) && k <= |p|
  {
    if k == 0 then 0 else Runs(xs, cmp, p, k - 1) + if RunHead(xs, cmp, p, k - 1) == k - 1 then 1 else 0
  }

  lemma {:induction false} Mix<T(!new)>(xs: seq<T>, cmp: (T, T) -> Ordering, a: T, b: T, c: T)
    requires Preorder(xs, cmp) && a in xs && b in xs && c in xs
    ensures cmp(a, b) == Equal ==> cmp(b, a) == Equal && cmp(a, c) == cmp(b, c) && cmp(c, a) == cmp(c, b)
    ensures cmp(a, b) == Less && cmp(b, c) != Greater ==> cmp(a, c) == Less
    ensures cmp(a, b) != Greater && cmp(b, c) == Less ==> cmp(a, c) == Less
  {
    assert cmp(b, a) == cmp(a, b).Reverse() && cmp(c, b) == cmp(b, c).Reverse() && cmp(c, a) == cmp(a, c).Reverse();
    assert cmp(c, b) != Greater && cmp(b, a) != Greater ==> cmp(c, a) != Greater;
    assert cmp(c, a) != Greater && cmp(a, b) != Greater ==> cmp(c, b) != Greater;
    assert cmp(b, c) != Greater && cmp(c, a) != Greater ==> cmp(b, a) != Greater;
    assert cmp(a, c) != Greater && cmp(c, b) != Greater ==> cmp(a, b) != Greater;
    assert cmp(b, a) != Greater && cmp(a, c) != Greater ==> cmp(b, c) != Greater;
    assert cmp(a, b) != Greater && cmp(b, c) != Greater ==> cmp(a, c) != Greater;
  }

  lemma {:induction false} RunIsTied<T(!new)>(xs: seq<T>, cmp: (T, T) -> Ordering, p: seq<nat>, k: nat, j: nat)
    requires Preorder(xs, cmp) && Ascending(xs, cmp, p) && k < |p| && RunHead(xs, cmp, p, k) <= j <= k
    ensures cmp(xs[p[j]], xs[p[k]]) == Equal
  {
    if j == k {
      assert xs[p[k]] in xs;
    } else {
      RunIsTied(xs, cmp, p, k - 1, j);
      Mix(xs, cmp, xs[p[j]], xs[p[k - 1]], xs[p[k]]);
    }
  }

  lemma {:induction false} BeforeRunIsLess<T(!new)>(xs: seq<T>, cmp: (T, T) -> Ordering, p: seq<nat>, k: nat, j: nat)
    requires Preorder(xs, cmp) && Ascending(xs, cmp, p) && k < |p| && j < RunHead(xs, cmp, p, k)
    ensures cmp(xs[p[j]], xs[p[k]]) == Less
  {
    var h := RunHead(xs, cmp, p, k);
    HeadIsHead(xs, cmp, p, k);
    RunIsTied(xs, cmp, p, k, h);
    assert Before(xs, cmp, p[h - 1], p[h]);
    if j < h - 1 {
      assert Before(xs, cmp, p[j], p[h - 1]);
      Mix(xs, cmp, xs[p[j]], xs[p[h - 1]], xs[p[h]]);
    }
    Mix(xs, cmp, xs[p[j]], xs[p[h]], xs[p[k]]);
  }

  lemma {:induction false} HeadIsHead<T>(xs: seq<T>, cmp: (T, T) -> Ordering, p: seq<nat>, k: nat)
    requires InRange(p, |xs|) && k < |p|
    ensures var h := RunHead(xs, cmp, p, k);
      RunHead(xs, cmp, p, h) == h && (h == 0 || cmp(xs[p[h - 1]], xs[p[h]]) != Equal)
  {
    if k != 0 && cmp(xs[p[k - 1]], xs[p[k]]) == Equal { HeadIsHead(xs, cmp, p, k - 1); }
  }

  /** Exactly the sorted positions before the run hold strictly smaller rows. */
  lemma {:induction false} LessThanMeans<T(!new)>(xs: seq<T>, cmp: (T, T) -> Ordering, p: seq<nat>, k: nat, m: nat)
    requires Preorder(xs, cmp) && Ascending(xs, cmp, p) && k < |p| && m < |p|
    ensures cmp(xs[p[m]], xs[p[k]]) == Less <==> m < RunHead(xs, cmp, p, k)
  {
    if m < RunHead(xs, cmp, p, k) {
      BeforeRunIsLess(xs, cmp, p, k, m);
    } else if m <= k {
      RunIsTied(xs, cmp, p, k, m);
    } else {
      assert Before(xs, cmp, p[k], p[m]);
      Mix(xs, cmp, xs[p[k]], xs[p[m]], xs[p[k]]);
      assert cmp(xs[p[m]], xs[p[k]]) == cmp(xs[p[k]], xs[p[m]]).Reverse();
    }
  }

  // ----- counting -----

  lemma {:induction false} Distinct<T(!new)>(xs: seq<T>, cmp: (T, T) -> Ordering, p: seq<nat>, j: nat, k: nat)
    requires Preorder(xs, cmp) && Ascending(xs, cmp, p) && j < k < |p|
    ensures p[j] != p[k]
  {
    BeforeIsStrictOrder(xs, cmp, p[j], p[j], p[j]);
  }

  /** The rows at the first `k` sorted positions. */
  ghost function Front(p: seq<nat>, k: nat): set<int>
    requires k <= |p|
  {
    if k == 0 then {} else Front(p, k - 1) + {p[k - 1]}
  }

  lemma {:induction false} FrontMembers(p: seq<nat>, k: nat, i: int)
    requires k <= |p|
    ensures i in Front(p, k) <==> exists j | 0 <= j < k :: p[j] == i
  {
    if k != 0 { FrontMembers(p, k - 1, i); }
  }

  lemma {:induction false} FrontSize<T(!new)>(xs: seq<T>, cmp: (T, T) -> Ordering, p: seq<nat>, k: nat)
    requires Preorder(xs, cmp) && Ascending(xs, cmp, p) && k <= |p|
    ensures |Front(p, k)| == k
  {
    if k != 0 {
      FrontSize(xs, cmp, p, k - 1);
      FrontMembers(p, k - 1, p[k - 1]);
      forall j | 0 <= j < k - 1 ensures p[j] != p[k - 1] { Distinct(xs, cmp, p, j, k - 1); }
    }
  }

  /** The rows that begin a run among the first `k` sorted positions. */
  ghost function Heads<T>(xs: seq<T>, cmp: (T, T) -> Ordering, p: seq<nat>, k: nat): set<int>
    requires InRange(p, |xs|) && k <= |p|
  {
    if k == 0 then {}
    else if RunHead(xs, cmp, p, k - 1) == k - 1 then Heads(xs, cmp, p, k - 1) + {p[k - 1]}
    else Heads(xs, cmp, p, k - 1)
  }

  lemma {:induction false} HeadsMembers<T>(xs: seq<T>, cmp: (T, T) -> Ordering, p: seq<nat>, k: nat, i: int)
    requires InRange(p, |xs|) && k <= |p|
    ensures i in Heads(xs, cmp, p, k) <==> exists j: nat | j < k :: p[j] == i && RunHead(xs, cmp, p, j) == j
  {
    if k != 0 {
      HeadsMembers(xs, cmp, p, k - 1, i);
      if RunHead(xs, cmp, p, k - 1) == k - 1 && p[k - 1] == i {
        var j: nat := k - 1;
        assert p[j] == i && RunHead(xs, cmp, p, j) == j;
      }
    }
  }

  lemma {:induction false} HeadsSize<T(!new)>(xs: seq<T>, cmp: (T, T) -> Ordering, p: seq<nat>, k: nat)
    requires Preorder(xs, cmp) && Ascending(xs, cmp, p) && k <= |p|
    ensures |Heads(xs, cmp, p, k)| == Runs(xs, cmp, p, k)
  {
    if k != 0 {
      HeadsSize(xs, cmp, p, k - 1);
      NotYetHead(xs, cmp, p, k - 1);
    }
  }

  lemma {:induction false} NotYetHead<T(!new)>(xs: seq<T>, cmp: (T, T) -> Ordering, p: seq<nat>, k: nat)
    requires Preorder(xs, cmp) && Ascending(xs, cmp, p) && k < |p|
    ensures p[k] !in Heads(xs, cmp, p, k)
  {
    HeadsMembers(xs, cmp, p, k, p[k]);
    forall j: nat | j < k ensures p[j] != p[k] { Distinct(xs, cmp, p, j, k); }
  }

  lemma {:induction false} RunsAtHead<T>(xs: seq<T>, cmp: (T, T) -> Ordering, p: seq<nat>, k: nat)
    requires InRange(p, |xs|) && k < |p|
    ensures Runs(xs, cmp, p, k + 1) == Runs(xs, cmp, p, RunHead(xs, cmp, p, k)) + 1
  {
    if k != 0 && cmp(xs[p[k - 1]], xs[p[k]]) == Equal { RunsAtHead(xs, cmp, p, k - 1); }
  }

  // ----- positions and expectations -----

  /** What the walk has computed at sorted position `k`. */
  ghost function Walked(ranking: Ranking, rows: seq<Row>, keys: seq<OrderBy>, p: seq<nat>, k: nat): nat
    requires InRange(p, |rows|) && k < |p|
  {
    match ranking
    case RowNumber => k + 1
    case Rank => RunHead(rows, RowOrder(keys), p, k) + 1
    case DenseRank => Runs(rows, RowOrder(keys), p, k + 1)
  }

  lemma {:induction false} RowNumberExpected(rows: seq<Row>, keys: seq<OrderBy>, p: seq<nat>, k: nat)
    requires Preorder(rows, RowOrder(keys)) && StableOrder(rows, RowOrder(keys), p) && k < |p|
    ensures Expected(RowNumber, rows, keys, p[k]) == k + 1
  {
    var cmp := RowOrder(keys);
    FrontSize(rows, cmp, p, k);
    var S := set i: nat | i < |rows| && Before(rows, cmp, i, p[k]);
    forall i: int ensures i in S <==> i in Front(p, k) {
      FrontMembers(p, k, i);
      if 0 <= i < |rows| {
        assert i in p;
        var m :| 0 <= m < |p| && p[m] == i;
        BeforeIsStrictOrder(rows, cmp, p[m], p[k], p[m]);
        if k < m { assert Before(rows, cmp, p[k], p[m]); }
      }
    }
    assert S == Front(p, k);
  }

  lemma {:induction false} PrecedingIsFront(rows: seq<Row>, keys: seq<OrderBy>, p: seq<nat>, k: nat, i: int)
    requires Evaluable(keys, rows) && StableOrder(rows, RowOrder(keys), p) && k < |p|
    ensures i in Preceding(rows, keys, p[k]) <==> i in Front(p, RunHead(rows, RowOrder(keys), p, k))
  {
    var cmp := RowOrder(keys);
    var h := RunHead(rows, cmp, p, k);
    RowOrderPreorder(keys, rows);
    FrontMembers(p, h, i);
    if 0 <= i < |rows| {
      assert i in p;
      var m: nat :| m < |p| && p[m] == i;
      LessThanMeans(rows, cmp, p, k, m);
      forall j: nat | j < h && p[j] == i ensures j == m {
        if j < m { Distinct(rows, cmp, p, j, m); } else if m < j { Distinct(rows, cmp, p, m, j); }
      }
    }
  }

  lemma {:induction false} RankExpected(rows: seq<Row>, keys: seq<OrderBy>, p: seq<nat>, k: nat)
    requires Evaluable(keys, rows) && StableOrder(rows, RowOrder(keys), p) && k < |p|
    ensures Preceding(rows, keys, p[k]) == Front(p, RunHead(rows, RowOrder(keys), p, k))
    ensures Expected(Rank, rows, keys, p[k]) == RunHead(rows, RowOrder(keys), p, k) + 1
  {
    RowOrderPreorder(keys, rows);
    forall i: int { PrecedingIsFront(rows, keys, p, k, i); }
    FrontSize(rows, RowOrder(keys), p, RunHead(rows, RowOrder(keys), p, k));
  }

  /** The head of a run is the peer that came first in the input. */
  lemma {:induction false} HeadLeadsPeers(rows: seq<Row>, keys: seq<OrderBy>, p: seq<nat>, m: nat)
    requires Evaluable(keys, rows) && StableOrder(rows, RowOrder(keys), p) && m < |p|
    ensures LeadsPeers(rows, keys, p[m]) <==> RunHead(rows, RowOrder(keys), p, m) == m
  {
    var cmp := RowOrder(keys);
    RowOrderPreorder(keys, rows);
    if RunHead(rows, cmp, p, m) == m {
      forall j: nat | j < p[m] ensures CompareRows(keys, rows[j], rows[p[m]]) != Equal {
        assert j in p;
        var n: nat :| n < |p| && p[n] == j;
        BeforeIsStrictOrder(rows, cmp, p[n], p[m], p[n]);
        if n < m { LessThanMeans(rows, cmp, p, m, n); }
        else if m < n { assert Before(rows, cmp, p[m], p[n]); }
      }
    } else {
      assert Before(rows, cmp, p[m - 1], p[m]);
    }
  }

  lemma {:induction false} LeadersAreHeads(rows: seq<Row>, keys: seq<OrderBy>, p: seq<nat>, h: nat, i: int)
    requires Evaluable(keys, rows) && StableOrder(rows, RowOrder(keys), p) && h <= |p|
    ensures i in Heads(rows, RowOrder(keys), p, h) <==> i in Front(p, h) && 0 <= i < |rows| && LeadsPeers(rows, keys, i)
  {
    var cmp := RowOrder(keys);
    RowOrderPreorder(keys, rows);
    HeadsMembers(rows, cmp, p, h, i);
    FrontMembers(p, h, i);
    if j: nat :| j < h && p[j] == i { HeadLeadsPeers(rows, keys, p, j); }
    forall j: nat | j < h && p[j] == i ensures LeadsPeers(rows, keys, i) <==> RunHead(rows, cmp, p, j) == j {
      HeadLeadsPeers(rows, keys, p, j);
    }
  }

  lemma {:induction false} DenseRankExpected(rows: seq<Row>, keys: seq<OrderBy>, p: seq<nat>, k: nat)
    requires Evaluable(keys, rows) && StableOrder(rows, RowOrder(keys), p) && k < |p|
    ensures Expected(DenseRank, rows, keys, p[k]) == Runs(rows, RowOrder(keys), p, k + 1)
  {
    var cmp := RowOrder(keys);
    var h := RunHead(rows, cmp, p, k);
    RowOrderPreorder(keys, rows);
    LeadersBefore(rows, keys, p, k, h);
    HeadsSize(rows, cmp, p, h);
    RunsAtHead(rows, cmp, p, k);
  }

  lemma {:induction false} LeadersBefore(rows: seq<Row>, keys: seq<OrderBy>, p: seq<nat>, k: nat, h: nat)
    requires Evaluable(keys, rows) && StableOrder(rows, RowOrder(keys), p) && k < |p| && h == RunHead(rows, RowOrder(keys), p, k)
    ensures (set i | i in Preceding(rows, keys, p[k]) && LeadsPeers(rows, keys, i)) == Heads(rows, RowOrder(keys), p, h)
  {
    RankExpected(rows, keys, p, k);
    var S := set i | i in Preceding(rows, keys, p[k]) && LeadsPeers(rows, keys, i);
    forall i: int ensures i in S <==> i in Heads(rows, RowOrder(keys), p, h) { LeadersAreHeads(rows, keys, p, h, i); }
  }

  /** The walk computes what is expected, for all three functions. */
  lemma {:induction false} WalkedIsExpected(ranking: Ranking, rows: seq<Row>, keys: seq<OrderBy>, p: seq<nat>, k: nat)
    requires Evaluable(keys, rows) && StableOrder(rows, RowOrder(keys), p) && k < |p|
    ensures Walked(ranking, rows, keys, p, k) == Expected(ranking, rows, keys, p[k])
  {
    RowOrderPreorder(keys, rows);
    match ranking
    case RowNumber => RowNumberExpected(rows, keys, p, k);
    case Rank => RankExpected(rows, keys, p, k);
    case DenseRank => DenseRankExpected(rows, keys, p, k);
  }

  // ----- the operator -----

  ghost predicate StateAt(ranking: Ranking, state: RankState, rows: seq<Row>, keys: seq<OrderBy>, p: seq<nat>, k: nat)
    requires InRange(p, |rows|) && k <= |p| && Evaluable(keys, rows)
  {
    if k == 0 then state == RankState(0, None)
    else
      && state.current == Walked(ranking, rows, keys, p, k - 1)
      && (ranking.RowNumber? || state.previous == Some(OrderValues(keys, rows[p[RunHead(rows, RowOrder(keys), p, k - 1)]])))
  }

  /** A row is tied with the head of the previous run exactly when it belongs to it. */
  lemma {:induction false} HeadTie<T(!new)>(xs: seq<T>, cmp: (T, T) -> Ordering, p: seq<nat>, k: nat)
    requires Preorder(xs, cmp) && Ascending(xs, cmp, p) && 0 < k < |p|
    ensures var h := RunHead(xs, cmp, p, k - 1);
      cmp(xs[p[k]], xs[p[h]]) == Equal <==> RunHead(xs, cmp, p, k) == h
  {
    var h := RunHead(xs, cmp, p, k - 1);
    RunIsTied(xs, cmp, p, k - 1, h);
    TiedAlike(xs, cmp, xs[p[h]], xs[p[k - 1]], xs[p[k]]);
  }

  /** Comparing with the head of the previous run is comparing with the previous
      row. */
  lemma {:induction false} HeadStandsForRun(rows: seq<Row>, keys: seq<OrderBy>, p: seq<nat>, k: nat)
    requires Evaluable(keys, rows) && Ascending(rows, RowOrder(keys), p) && 0 < k < |p|
    ensures var h := RunHead(rows, RowOrder(keys), p, k - 1);
      SameValues(OrderValues(keys, rows[p[k]]), OrderValues(keys, rows[p[h]])) <==>
      RunHead(rows, RowOrder(keys), p, k) == h
  {
    RowOrderPreorder(keys, rows);
    HeadTie(rows, RowOrder(keys), p, k);
    PeersAreTies(keys, rows[p[k]], rows[p[RunHead(rows, RowOrder(keys), p, k - 1)]]);
  }

  /** Being tied with `c` is the same for two that are tied, in either direction. */
  lemma {:induction false} TiedAlike<T(!new)>(xs: seq<T>, cmp: (T, T) -> Ordering, a: T, b: T, c: T)
    requires Preorder(xs, cmp) && a in xs && b in xs && c in xs && cmp(a, b) == Equal
    ensures cmp(c, a) == Equal <==> cmp(b, c) == Equal
  {
    Mix(xs, cmp, a, b, c);
    assert cmp(c, b) == cmp(b, c).Reverse();
  }

  lemma {:induction false} WalkStep(ranking: Ranking, state: RankState, rows: seq<Row>, keys: seq<OrderBy>, p: seq<nat>, k: nat)
    requires Evaluable(keys, rows) && Ascending(rows, RowOrder(keys), p) && k < |p|
    requires StateAt(ranking, state, rows, keys, p, k)
    ensures StateAt(ranking, Advance(ranking, state, OrderValues(keys, rows[p[k]]), k), rows, keys, p, k + 1)
  {
    if k == 0 {
      assert Runs(rows, RowOrder(keys), p, 0) == 0 && RunHead(rows, RowOrder(keys), p, 0) == 0;
    } else if !ranking.RowNumber? {
      HeadStandsForRun(rows, keys, p, k);
    }
  }

  /** The first `k` sorted rows have their results. */
  ghost predicate Filled(out: seq<nat>, ranking: Ranking, rows: seq<Row>, keys: seq<OrderBy>, p: seq<nat>, k: nat)
    requires InRange(p, |rows|) && k <= |p|
  {
    && |out| == |rows|
    && forall j {:trigger Walked(ranking, rows, keys, p, j)} | 0 <= j < k :: out[p[j]] == Walked(ranking, rows, keys, p, j)
  }

  lemma {:induction false} FilledStep(out: seq<nat>, ranking: Ranking, rows: seq<Row>, keys: seq<OrderBy>, p: seq<nat>, k: nat)
    requires Evaluable(keys, rows) && Ascending(rows, RowOrder(keys), p) && k < |p| && Filled(out, ranking, rows, keys, p, k)
    ensures Filled(out[p[k] := Walked(ranking, rows, keys, p, k)], ranking, rows, keys, p, k + 1)
  {
    RowOrderPreorder(keys, rows);
    forall j: nat | j < k ensures p[j] != p[k] { Distinct(rows, RowOrder(keys), p, j, k); }
  }

  lemma {:induction false} FilledAll(out: seq<nat>, ranking: Ranking, rows: seq<Row>, keys: seq<OrderBy>, p: seq<nat>)
    requires Evaluable(keys, rows) && StableOrder(rows, RowOrder(keys), p) && Filled(out, ranking, rows, keys, p, |p|)
    ensures forall o | 0 <= o < |rows| :: out[o] == Expected(ranking, rows, keys, o)
  {
    forall o: nat | o < |rows| ensures out[o] == Expected(ranking, rows, keys, o) {
      assert o in p;
      var j: nat :| j < |p| && p[j] == o;
      WalkedIsExpected(ranking, rows, keys, p, j);
    }
  }

  predicate Evaluates(keys: seq<OrderBy>, row: Row) {
    forall k | 0 <= k < |keys| :: keys[k].expr(row).Some?
  }

  /** `p` lists the positions below `n`, each once. */
  ghost predicate Positions(p: seq<nat>, n: nat) {
    |p| == n && InRange(p, n) && NoRepeats(p) && forall m: nat | m < n :: m in p
  }

  /** Walks the sorted positions for RANK or DENSE_RANK, writing each result back
      where the row was. The first row on which a key fails ends the walk. */
  method Walk(ranking: Ranking, rows: seq<Row>, keys: seq<OrderBy>, p: seq<nat>) returns (results: Option<seq<nat>>)
    requires !ranking.RowNumber? && Positions(p, |rows|)
    requires Evaluable(keys, rows) ==> Ascending(rows, RowOrder(keys), p)
    ensures results.Some? <==> Evaluable(keys, rows)
    ensures results.Some? ==> Filled(results.value, ranking, rows, keys, p, |p|)
  {
    var out: seq<nat> := seq(|rows|, _ => 0);
    var state := RankState(0, None);
    for k := 0 to |p|
      invariant forall j | 0 <= j < k :: Evaluates(keys, rows[p[j]])
      invariant WalkedTo(out, state, ranking, rows, keys, p, k)
    {
      if !Evaluates(keys, rows[p[k]]) {
        assert rows[p[k]] in rows;
        return None;
      }
      WalkOn(out, state, ranking, rows, keys, p, k);
      state := Advance(ranking, state, OrderValues(keys, rows[p[k]]), k);
      out := out[p[k] := state.current];
    }
    AllEvaluated(rows, keys, p);
    return Some(out);
  }

  /** Results and state after `k` rows, if all keys evaluate. */
  ghost predicate WalkedTo(out: seq<nat>, state: RankState, ranking: Ranking, rows: seq<Row>, keys: seq<OrderBy>, p: seq<nat>, k: nat)
    requires InRange(p, |rows|) && k <= |p|
  {
    && |out| == |rows|
    && (Evaluable(keys, rows) ==> StateAt(ranking, state, rows, keys, p, k) && Filled(out, ranking, rows, keys, p, k))
  }

  lemma {:induction false} WalkOn(out: seq<nat>, state: RankState, ranking: Ranking, rows: seq<Row>, keys: seq<OrderBy>, p: seq<nat>, k: nat)
    requires InRange(p, |rows|) && k < |p| && Evaluates(keys, rows[p[k]]) && WalkedTo(out, state, ranking, rows, keys, p, k)
    requires Evaluable(keys, rows) ==> Ascending(rows, RowOrder(keys), p)
    ensures var next := Advance(ranking, state, OrderValues(keys, rows[p[k]]), k);
      WalkedTo(out[p[k] := next.current], next, ranking, rows, keys, p, k + 1)
  {
    if Evaluable(keys, rows) {
      WalkStep(ranking, state, rows, keys, p, k);
      FilledStep(out, ranking, rows, keys, p, k);
    }
  }

  lemma {:induction false} AllEvaluated(rows: seq<Row>, keys: seq<OrderBy>, p: seq<nat>)
    requires Positions(p, |rows|) && forall j | 0 <= j < |p| :: Evaluates(keys, rows[p[j]])
    ensures Evaluable(keys, rows)
  {
    forall k, r | 0 <= k < |keys| && r in rows ensures keys[k].expr(r).Some? {
      var o: nat :| o < |rows| && rows[o] == r;
      assert o in p;
      var j :| 0 <= j < |p| && p[j] == o;
      assert Evaluates(keys, rows[p[j]]);
    }
  }

  /** 1, 2, 3, ... along the sorted positions; no key is evaluated. */
  method NumberRows(p: seq<nat>) returns (results: seq<nat>)
    requires Positions(p, |p|)
    ensures |results| == |p| && forall k | 0 <= k < |p| :: results[p[k]] == k + 1
  {
    results := seq(|p|, _ => 0);
    for k := 0 to |p|
      invariant |results| == |p| && forall j | 0 <= j < k :: results[p[j]] == j + 1
    {
      results := results[p[k] := k + 1];
    }
  }

  /** The numbers 1 to n, each once. */
  ghost predicate Numbering(results: seq<nat>) {
    && (forall o | 0 <= o < |results| :: 1 <= results[o] <= |results|)
    && (forall v: nat | 1 <= v <= |results| :: v in results)
    && (forall o, q | 0 <= o < q < |results| :: results[o] != results[q])
  }

  lemma {:induction false} NumbersArePermutation(p: seq<nat>, results: seq<nat>)
    requires Positions(p, |p|) && |results| == |p| && forall k | 0 <= k < |p| :: results[p[k]] == k + 1
    ensures Numbering(results)
  {
    forall o: nat | o < |results| ensures exists k | 0 <= k < |p| :: p[k] == o && results[o] == k + 1 {
      assert o in p;
      var k :| 0 <= k < |p| && p[k] == o;
    }
    forall v: nat | 1 <= v <= |results| ensures v in results { assert results[p[v - 1]] == v; }
  }

  lemma {:induction false} NumberedExpected(rows: seq<Row>, keys: seq<OrderBy>, p: seq<nat>, results: seq<nat>)
    requires Preorder(rows, RowOrder(keys)) && StableOrder(rows, RowOrder(keys), p) && |p| == |rows|
    requires |results| == |p| && forall k | 0 <= k < |p| :: results[p[k]] == k + 1
    ensures forall o | 0 <= o < |rows| :: results[o] == Expected(RowNumber, rows, keys, o)
  {
    forall o: nat | o < |rows| ensures results[o] == Expected(RowNumber, rows, keys, o) {
      assert o in p;
      var k: nat :| k < |p| && p[k] == o;
      RowNumberExpected(rows, keys, p, k);
    }
  }

  /** RANK and DENSE_RANK fail on keys that do not evaluate; ROW_NUMBER ignores
      them. */
  ghost predicate Fails(ranking: Ranking, rows: seq<Row>, keys: seq<OrderBy>) {
    !ranking.RowNumber? && !Evaluable(keys, rows)
  }

  /** Ranks one partition. Without failing keys the results are the expected ones;
      with them ROW_NUMBER gives the expected results as long as the comparator is
      still an order, and in any case the numbers 1 to n. */
  method RankPartition(ranking: Ranking, rows: seq<Row>, keys: seq<OrderBy>) returns (results: Option<seq<nat>>)
    ensures results.None? <==> Fails(ranking, rows, keys)
    ensures results.Some? ==> |results.value| == |rows|
    ensures results.Some? && Preorder(rows, RowOrder(keys)) ==>
      forall o | 0 <= o < |rows| :: results.value[o] == Expected(ranking, rows, keys, o)
    ensures results.Some? && Evaluable(keys, rows) ==> Preorder(rows, RowOrder(keys))
    ensures results.Some? && ranking.RowNumber? ==> Numbering(results.value)
  {
    var p := SortedPositions(rows, keys);
    if Evaluable(keys, rows) { RowOrderPreorder(keys, rows); }
    if ranking.RowNumber? {
      var numbers := NumberRows(p);
      NumbersArePermutation(p, numbers);
      if Preorder(rows, RowOrder(keys)) { NumberedExpected(rows, keys, p, numbers); }
      return Some(numbers);
    }
    results := Walk(ranking, rows, keys, p);
    if results.Some? { FilledAll(results.value, ranking, rows, keys, p); }
  }

  /** The original positions in sorted order; without ORDER BY, as they come. */
  method SortedPositions(rows: seq<Row>, keys: seq<OrderBy>) returns (p: seq<nat>)
    ensures Positions(p, |rows|)
    ensures Preorder(rows, RowOrder(keys)) ==> StableOrder(rows, RowOrder(keys), p)
  {
    if keys == [] {
      p := seq(|rows|, i => i);
      forall m: nat | m < |rows| ensures m in p { assert p[m] == m; }
    } else {
      p := SortPositions(rows, RowOrder(keys), |rows|);
      SortPositionsDistinct(rows, RowOrder(keys), |rows|);
      if Preorder(rows, RowOrder(keys)) { StableOrderUnique(rows, RowOrder(keys), p); }
    }
  }

  /** ROW_NUMBER respects the order, with ties broken by input position. */
  lemma {:induction false} RowNumbersRespectOrder(rows: seq<Row>, keys: seq<OrderBy>, a: nat, b: nat)
    requires Preorder(rows, RowOrder(keys)) && a < |rows| && b < |rows|
    ensures 1 <= Expected(RowNumber, rows, keys, a) <= |rows|
    ensures Expected(RowNumber, rows, keys, a) < Expected(RowNumber, rows, keys, b) <==> Before(rows, RowOrder(keys), a, b)
    ensures Expected(RowNumber, rows, keys, a) == Expected(RowNumber, rows, keys, b) <==> a == b
  {
    var cmp := RowOrder(keys);
    var p := SortPositions(rows, cmp, |rows|);
    StableOrderUnique(rows, cmp, p);
    assert a in p && b in p;
    var i: nat :| i < |p| && p[i] == a;
    var j: nat :| j < |p| && p[j] == b;
    RowNumberExpected(rows, keys, p, i);
    RowNumberExpected(rows, keys, p, j);
    BeforeIsStrictOrder(rows, cmp, a, b, a);
  }

  // ----- rankings by a whole number -----

  /** Row `i` has the smaller number under ASC, the larger one under DESC. */
  ghost predicate Ahead(key: OrderBy, numbers: seq<int>, i: int, o: int)
    requires 0 <= i < |numbers| && 0 <= o < |numbers|
  {
    if key.direction.Asc? then numbers[i] < numbers[o] else numbers[i] > numbers[o]
  }

  lemma {:induction false} ComparesNumbers(key: OrderBy, rows: seq<Row>, numbers: seq<int>, i: int, o: int)
    requires |numbers| == |rows| && 0 <= i < |rows| && 0 <= o < |rows|
    requires key.expr(rows[i]) == Some(Integer(numbers[i])) && key.expr(rows[o]) == Some(Integer(numbers[o]))
    ensures CompareRows([key], rows[i], rows[o]) == Less <==> Ahead(key, numbers, i, o)
    ensures CompareRows([key], rows[i], rows[o]) == Equal <==> numbers[i] == numbers[o]
  {
    CompareByOneKey(key, rows[i], rows[o]);
    CompareValuesMeans(Integer(numbers[i]), Integer(numbers[o]), key.nulls);
  }

  /** No earlier row has the same number. */
  ghost predicate First(numbers: seq<int>, i: int)
    requires 0 <= i < |numbers|
  {
    forall j | 0 <= j < i :: numbers[j] != numbers[i]
  }

  /** Ordered by whole numbers, RANK is one more than the number of rows with a
      number ahead, and DENSE_RANK one more than the number of different numbers
      ahead, each counted where it first occurs. */
  lemma {:induction false} RanksByNumber(key: OrderBy, rows: seq<Row>, numbers: seq<int>, o: nat)
    requires |numbers| == |rows| && o < |rows| && forall i | 0 <= i < |rows| :: key.expr(rows[i]) == Some(Integer(numbers[i]))
    ensures Expected(Rank, rows, [key], o) == 1 + |set i | 0 <= i < |rows| && Ahead(key, numbers, i, o)|
    ensures Expected(DenseRank, rows, [key], o) == 1 + |set i | 0 <= i < |rows| && Ahead(key, numbers, i, o) && First(numbers, i)|
  {
    PrecedingByNumber(key, rows, numbers, o);
    assert (set i | i in Preceding(rows, [key], o) && LeadsPeers(rows, [key], i))
        == (set i | 0 <= i < |rows| && Ahead(key, numbers, i, o) && First(numbers, i));
  }

  lemma {:induction false} PrecedingByNumber(key: OrderBy, rows: seq<Row>, numbers: seq<int>, o: nat)
    requires |numbers| == |rows| && o < |rows| && forall i | 0 <= i < |rows| :: key.expr(rows[i]) == Some(Integer(numbers[i]))
    ensures Preceding(rows, [key], o) == set i | 0 <= i < |rows| && Ahead(key, numbers, i, o)
    ensures forall i | 0 <= i < |rows| :: LeadsPeers(rows, [key], i) <==> First(numbers, i)
  {
    forall i | 0 <= i < |rows| ensures i in Preceding(rows, [key], o) <==> Ahead(key, numbers, i, o) {
      ComparesNumbers(key, rows, numbers, i, o);
    }
    forall i | 0 <= i < |rows| ensures LeadsPeers(rows, [key], i) <==> First(numbers, i) {
      forall j | 0 <= j < i ensures CompareRows([key], rows[j], rows[i]) == Equal <==> numbers[j] == numbers[i] {
        ComparesNumbers(key, rows, numbers, j, i);
      }
    }
  }

  /** A window call: which ranking, over which ORDER BY. */
  datatype RankingCall = RankingCall(ranking: Ranking, orderBy: seq<OrderBy>)

  /** The value of a call for the row at position `o`, where it is determined. */
  ghost predicate RightValue(v: Value, call: RankingCall, rows: seq<Row>, o: int)
    requires 0 <= o < |rows|
  {
    Preorder(rows, RowOrder(call.orderBy)) ==> v == Integer(Expected(call.ranking, rows, call.orderBy, o))
  }

  /** `out` is the row at `o` with the values of the first `n` calls appended. */
  ghost predicate Ranked(out: Row, calls: seq<RankingCall>, rows: seq<Row>, o: int, n: int)
    requires 0 <= o < |rows| && 0 <= n <= |calls|
  {
    && |out| == |rows[o]| + n && out[..|rows[o]|] == rows[o]
    && forall c | 0 <= c < n :: RightValue(out[|rows[o]| + c], calls[c], rows, o)
  }

  lemma {:induction false} RankedStep(out: Row, calls: seq<RankingCall>, rows: seq<Row>, o: int, n: int, v: Value)
    requires 0 <= o < |rows| && 0 <= n < |calls| && Ranked(out, calls, rows, o, n)
    requires RightValue(v, calls[n], rows, o)
    ensures Ranked(out + [v], calls, rows, o, n + 1)
  {
    assert (out + [v])[..|rows[o]|] == out[..|rows[o]|];
  }

  /** All ranking calls of a query on one partition: every row keeps its place
      and its columns and gains one column per call, each call sorted by its own
      ORDER BY. One failing call fails the query. */
  method ApplyRankings(rows: seq<Row>, calls: seq<RankingCall>) returns (out: Option<seq<Row>>)
    ensures out.None? <==> exists c | 0 <= c < |calls| :: Fails(calls[c].ranking, rows, calls[c].orderBy)
    ensures out.Some? ==> |out.value| == |rows|
    ensures out.Some? ==> forall o | 0 <= o < |rows| :: Ranked(out.value[o], calls, rows, o, |calls|)
  {
    var extended := rows;
    for c := 0 to |calls|
      invariant |extended| == |rows|
      invariant forall o | 0 <= o < |rows| :: Ranked(extended[o], calls, rows, o, c)
      invariant forall d | 0 <= d < c :: !Fails(calls[d].ranking, rows, calls[d].orderBy)
    {
      var results := RankPartition(calls[c].ranking, rows, calls[c].orderBy);
      if results.None? { return None; }
      var column := results.value;
      forall o | 0 <= o < |rows| ensures Ranked(extended[o] + [Integer(column[o])], calls, rows, o, c + 1) {
        RankedStep(extended[o], calls, rows, o, c, Integer(column[o]));
      }
      extended := AppendColumn(extended, column);
    }
    return Some(extended);
  }

  method AppendColumn(rows: seq<Row>, column: seq<nat>) returns (out: seq<Row>)
    requires |column| == |rows|
    ensures |out| == |rows| && forall o | 0 <= o < |rows| :: out[o] == rows[o] + [Integer(column[o])]
  {
    out := [];
    for i := 0 to |rows|
      invariant |out| == i && forall o | 0 <= o < i :: out[o] == rows[o] + [Integer(column[o])]
    {
      out := out + [rows[i] + [Integer(column[i])]];
    }
  }
}
