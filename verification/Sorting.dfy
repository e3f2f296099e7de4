/** ORDER BY. The multi-key row comparator of the sort operator, and the stable
    sort it is handed to. The library sort is represented by the sequence of
    input positions it selects; that sequence is shown to be the only one a
    stable sort can produce, so nothing depends on the algorithm behind it. */
module Sorting {
  import opened Values

  // ----- stable sorting by an arbitrary comparator -----

  /** `cmp` is a total preorder on the members of `xs`. */
  ghost predicate Preorder<T(!new)>(xs: seq<T>, cmp: (T, T) -> Ordering) {
    && (forall a {:trigger cmp(a, a)} | a in xs :: cmp(a, a) == Equal)
    && (forall a, b {:trigger cmp(b, a)} | a in xs && b in xs :: cmp(b, a) == cmp(a, b).Reverse())
    && (forall a, b, c {:trigger cmp(a, b), cmp(b, c)} | a in xs && b in xs && c in xs ::
          cmp(a, b) != Greater && cmp(b, c) != Greater ==> cmp(a, c) != Greater)
  }

  /** Position `i` must come before position `j` in a stable sort of `xs`. */
  predicate Before<T>(xs: seq<T>, cmp: (T, T) -> Ordering, i: nat, j: nat)
    requires i < |xs| && j < |xs|
  {
    cmp(xs[i], xs[j]) == Less || (cmp(xs[i], xs[j]) == Equal && i < j)
  }

  predicate InRange(p: seq<nat>, n: nat) {
    forall k | 0 <= k < |p| :: p[k] < n
  }

  ghost predicate Ascending<T>(xs: seq<T>, cmp: (T, T) -> Ordering, p: seq<nat>) {
    && InRange(p, |xs|)
    && (forall k, l | 0 <= k < l < |p| :: Before(xs, cmp, p[k], p[l]))
  }

  /** `p` lists every position of `xs` and does so in stable sorted order. */
  ghost predicate StableOrder<T>(xs: seq<T>, cmp: (T, T) -> Ordering, p: seq<nat>) {
    && Ascending(xs, cmp, p)
    && (forall m: nat :: m in p <==> m < |xs|)
  }

  function Permute<T>(xs: seq<T>, p: seq<nat>): (ys: seq<T>)
    requires InRange(p, |xs|)
    ensures |ys| == |p| && forall k | 0 <= k < |p| :: ys[k] == xs[p[k]]
  {
    seq(|p|, k requires 0 <= k < |p| => xs[p[k]])
  }

  function InsertPosition<T>(xs: seq<T>, cmp: (T, T) -> Ordering, p: seq<nat>, i: nat): (q: seq<nat>)
    requires i < |xs| && InRange(p, |xs|)
    ensures |q| == |p| + 1 && InRange(q, |xs|)
    ensures InRange(p, i) ==> InRange(q, i + 1)
    ensures forall m :: m in q <==> m in p || m == i
  {
    if p == [] then [i]
    else if cmp(xs[p[|p| - 1]], xs[i]) == Greater then
      assert p == p[..|p| - 1] + [p[|p| - 1]];
      InsertPosition(xs, cmp, p[..|p| - 1], i) + [p[|p| - 1]]
    else p + [i]
  }

  function SortPositions<T>(xs: seq<T>, cmp: (T, T) -> Ordering, n: nat): (p: seq<nat>)
    requires n <= |xs|
    ensures |p| == n && InRange(p, n)
    ensures forall m: nat :: m in p <==> m < n
  {
    if n == 0 then [] else InsertPosition(xs, cmp, SortPositions(xs, cmp, n - 1), n - 1)
  }

  predicate NoRepeats(p: seq<nat>) {
    forall k, l | 0 <= k < l < |p| :: p[k] != p[l]
  }

  lemma {:induction false} InsertPositionDistinct<T>(xs: seq<T>, cmp: (T, T) -> Ordering, p: seq<nat>, i: nat)
    requires i < |xs| && InRange(p, |xs|) && i !in p && NoRepeats(p)
    ensures NoRepeats(InsertPosition(xs, cmp, p, i))
  {
    if p != [] && cmp(xs[p[|p| - 1]], xs[i]) == Greater {
      var rest, last := p[..|p| - 1], p[|p| - 1];
      InsertPositionDistinct(xs, cmp, rest, i);
      var q := InsertPosition(xs, cmp, rest, i);
      assert last !in rest;
      forall k | 0 <= k < |q| ensures q[k] != last { assert q[k] in q; }
      assert InsertPosition(xs, cmp, p, i) == q + [last];
    }
  }

  /** Whatever the comparator does, each position is listed once. */
  lemma {:induction false} SortPositionsDistinct<T>(xs: seq<T>, cmp: (T, T) -> Ordering, n: nat)
    requires n <= |xs|
    ensures NoRepeats(SortPositions(xs, cmp, n))
  {
    if n != 0 {
      SortPositionsDistinct(xs, cmp, n - 1);
      InsertPositionDistinct(xs, cmp, SortPositions(xs, cmp, n - 1), n - 1);
    }
  }

  function StableSort<T>(xs: seq<T>, cmp: (T, T) -> Ordering): seq<T> {
    Permute(xs, SortPositions(xs, cmp, |xs|))
  }

  lemma {:induction false} BeforeIsStrictOrder<T(!new)>(xs: seq<T>, cmp: (T, T) -> Ordering, i: nat, j: nat, k: nat)
    requires Preorder(xs, cmp) && i < |xs| && j < |xs| && k < |xs|
    ensures !Before(xs, cmp, i, i)
    ensures i != j ==> (Before(xs, cmp, i, j) <==> !Before(xs, cmp, j, i))
    ensures Before(xs, cmp, i, j) && Before(xs, cmp, j, k) ==> Before(xs, cmp, i, k)
  {
    var a, b, c := xs[i], xs[j], xs[k];
    assert cmp(b, a) == cmp(a, b).Reverse();
    assert cmp(a, c) == cmp(c, a).Reverse() && cmp(c, b) == cmp(b, c).Reverse();
    assert cmp(c, b) != Greater && cmp(b, a) != Greater ==> cmp(c, a) != Greater;
    assert cmp(c, a) != Greater && cmp(a, b) != Greater ==> cmp(c, b) != Greater;
    assert cmp(b, c) != Greater && cmp(c, a) != Greater ==> cmp(b, a) != Greater;
  }

  lemma {:induction false} InsertPositionAscending<T(!new)>(xs: seq<T>, cmp: (T, T) -> Ordering, p: seq<nat>, i: nat)
    requires Preorder(xs, cmp) && Ascending(xs, cmp, p) && i < |xs|
    requires InRange(p, i)
    ensures Ascending(xs, cmp, InsertPosition(xs, cmp, p, i))
  {
    if p != [] {
      var last, rest := p[|p| - 1], p[..|p| - 1];
      var q := InsertPosition(xs, cmp, p, i);
      if cmp(xs[last], xs[i]) == Greater {
        InsertPositionAscending(xs, cmp, rest, i);
        BeforeIsStrictOrder(xs, cmp, last, i, i);
        forall k | 0 <= k < |q| - 1 ensures Before(xs, cmp, q[k], last) {
          assert q[k] in InsertPosition(xs, cmp, rest, i);
          if q[k] != i { var m :| 0 <= m < |rest| && rest[m] == q[k]; assert rest[m] == p[m]; }
        }
      } else {
        forall k | 0 <= k < |p| ensures Before(xs, cmp, p[k], i) {
          assert Before(xs, cmp, last, i);
          BeforeIsStrictOrder(xs, cmp, p[k], last, i);
        }
      }
    }
  }

  lemma {:induction false} SortPositionsAscending<T(!new)>(xs: seq<T>, cmp: (T, T) -> Ordering, n: nat)
    requires Preorder(xs, cmp) && n <= |xs|
    ensures Ascending(xs, cmp, SortPositions(xs, cmp, n))
  {
    if n != 0 {
      SortPositionsAscending(xs, cmp, n - 1);
      InsertPositionAscending(xs, cmp, SortPositions(xs, cmp, n - 1), n - 1);
    }
  }

  /** Two ascending listings of the same positions are the same listing. */
  lemma {:induction false} AscendingUnique<T(!new)>(xs: seq<T>, cmp: (T, T) -> Ordering, p: seq<nat>, q: seq<nat>)
    requires Preorder(xs, cmp) && Ascending(xs, cmp, p) && Ascending(xs, cmp, q)
    requires forall m :: m in p <==> m in q
    ensures p == q
  {
    EmptyTogether(p, q);
    if p != [] {
      assert p[0] in q;
      var k :| 0 <= k < |q| && q[k] == p[0];
      assert q[0] in p;
      var l :| 0 <= l < |p| && p[l] == q[0];
      BeforeIsStrictOrder(xs, cmp, p[0], q[0], p[0]);
      assert p[0] == q[0];
      HeadNotInTail(xs, cmp, p);
      HeadNotInTail(xs, cmp, q);
      assert p == [p[0]] + p[1..] && q == [q[0]] + q[1..];
      assert forall m :: (m in p <==> m == p[0] || m in p[1..]) && (m in q <==> m == q[0] || m in q[1..]);
      AscendingUnique(xs, cmp, p[1..], q[1..]);
    }
  }

  lemma {:induction false} EmptyTogether(p: seq<nat>, q: seq<nat>)
    requires forall m :: m in p <==> m in q
    ensures p == [] <==> q == []
  {
    if p != [] { assert p[0] in q; }
    if q != [] { assert q[0] in p; }
  }

  lemma {:induction false} HeadNotInTail<T(!new)>(xs: seq<T>, cmp: (T, T) -> Ordering, p: seq<nat>)
    requires Preorder(xs, cmp) && Ascending(xs, cmp, p) && p != []
    ensures p[0] !in p[1..]
  {
    forall k | 0 < k < |p| ensures p[k] != p[0] {
      BeforeIsStrictOrder(xs, cmp, p[0], p[0], p[0]);
    }
  }

  /** The stable sorted order of the positions exists and is unique. */
  lemma {:induction false} StableOrderUnique<T(!new)>(xs: seq<T>, cmp: (T, T) -> Ordering, p: seq<nat>)
    requires Preorder(xs, cmp)
    ensures StableOrder(xs, cmp, p) <==> p == SortPositions(xs, cmp, |xs|)
  {
    SortPositionsAscending(xs, cmp, |xs|);
    if StableOrder(xs, cmp, p) {
      AscendingUnique(xs, cmp, p, SortPositions(xs, cmp, |xs|));
    }
  }

  // ----- the ORDER BY comparator -----

  datatype SortDirection = Asc | Desc

  /** One ORDER BY item; evaluating its expression on a row may fail. */
  datatype OrderBy = OrderBy(expr: Row -> Option<Value>, direction: SortDirection, nulls: NullsPosition)

  function Directed(o: Ordering, d: SortDirection): Ordering {
    if d.Asc? then o else o.Reverse()
  }

  /** The comparator of the sort operator: a key that fails to evaluate on
      either row is skipped. */
  function CompareRows(keys: seq<OrderBy>, a: Row, b: Row): Ordering {
    if keys == [] then Equal
    else
      match (keys[0].expr(a), keys[0].expr(b))
      case (Some(x), Some(y)) =>
        var c := CompareValues(x, y, keys[0].nulls);
        if c != Equal then Directed(c, keys[0].direction) else CompareRows(keys[1..], a, b)
      case _ => CompareRows(keys[1..], a, b)
  }

  function RowOrder(keys: seq<OrderBy>): (Row, Row) -> Ordering {
    (a: Row, b: Row) => CompareRows(keys, a, b)
  }

  /** No key fails on any of the rows. */
  ghost predicate Evaluable(keys: seq<OrderBy>, rows: seq<Row>) {
    forall k, r {:trigger keys[k].expr(r)} | 0 <= k < |keys| && r in rows :: keys[k].expr(r).Some?
  }

  lemma {:induction false} CompareRowsReverse(keys: seq<OrderBy>, a: Row, b: Row)
    ensures CompareRows(keys, b, a) == CompareRows(keys, a, b).Reverse()
  {
    if keys != [] {
      CompareRowsReverse(keys[1..], a, b);
      match (keys[0].expr(a), keys[0].expr(b))
      case (Some(x), Some(y)) => CompareValuesReverse(x, y, keys[0].nulls);
      case _ =>
    }
  }

  lemma {:induction false} CompareRowsReflexive(keys: seq<OrderBy>, a: Row)
    ensures CompareRows(keys, a, a) == Equal
  {
    CompareRowsReverse(keys, a, a);
  }

  lemma {:induction false} CompareRowsTransitive(keys: seq<OrderBy>, a: Row, b: Row, c: Row)
    requires forall k | 0 <= k < |keys| ::
      keys[k].expr(a).Some? && keys[k].expr(b).Some? && keys[k].expr(c).Some?
    requires CompareRows(keys, a, b) != Greater && CompareRows(keys, b, c) != Greater
    ensures CompareRows(keys, a, c) != Greater
  {
    if keys != [] {
      var n := keys[0].nulls;
      var x, y, z := keys[0].expr(a).value, keys[0].expr(b).value, keys[0].expr(c).value;
      CompareValuesReverse(x, y, n);
      CompareValuesReverse(y, z, n);
      CompareValuesReverse(x, z, n);
      var xy, yz := CompareValues(x, y, n), CompareValues(y, z, n);
      if keys[0].direction.Asc? {
        CompareValuesTransitive(x, y, z, n);
        if xy == Equal { CompareValuesTransitive(y, x, z, n); } else { TransitiveStrict(x, y, z, n); }
        if yz == Less { TransitiveStrict(x, y, z, n); }
      } else {
        CompareValuesTransitive(z, y, x, n);
        if yz != Equal || xy != Equal { TransitiveStrict(z, y, x, n); }
      }
      if xy == Equal && yz == Equal {
        CompareValuesTransitive(x, y, z, n);
        CompareValuesTransitive(z, y, x, n);
        CompareRowsTransitive(keys[1..], a, b, c);
      }
    }
  }

  lemma {:induction false} TransitiveStrict(x: Value, y: Value, z: Value, n: NullsPosition)
    requires CompareValues(x, y, n) != Greater && CompareValues(y, z, n) != Greater
    requires CompareValues(x, y, n) == Less || CompareValues(y, z, n) == Less
    ensures CompareValues(x, z, n) == Less
  {
    CompareValuesReverse(x, y, n);
    CompareValuesReverse(y, z, n);
    CompareValuesReverse(x, z, n);
    CompareValuesTransitive(x, y, z, n);
    if CompareValues(x, z, n) == Equal {
      CompareValuesTransitive(z, x, y, n);
      CompareValuesTransitive(y, z, x, n);
    }
  }

  /** For every mix of directions and NULL placements the ORDER BY comparator
      is a total preorder on rows whose keys all evaluate. */
  lemma {:induction false} RowOrderPreorder(keys: seq<OrderBy>, rows: seq<Row>)
    requires Evaluable(keys, rows)
    ensures Preorder(rows, RowOrder(keys))
  {
    var cmp := RowOrder(keys);
    forall a | a in rows ensures cmp(a, a) == Equal { CompareRowsReflexive(keys, a); }
    forall a, b | a in rows && b in rows ensures cmp(b, a) == cmp(a, b).Reverse() {
      CompareRowsReverse(keys, a, b);
    }
    forall a, b, c | a in rows && b in rows && c in rows && cmp(a, b) != Greater && cmp(b, c) != Greater
      ensures cmp(a, c) != Greater
    {
      CompareRowsTransitive(keys, a, b, c);
    }
  }

  lemma {:induction false} CompareByOneKey(key: OrderBy, a: Row, b: Row)
    ensures CompareRows([key], a, b) ==
      if key.expr(a).Some? && key.expr(b).Some?
      then Directed(CompareValues(key.expr(a).value, key.expr(b).value, key.nulls), key.direction)
      else Equal
  {
    assert [key][1..] == [];
  }

  /** When evaluation may fail the comparator need not be an order at all. For
      one key it is a preorder exactly when no row fails, or every row that
      evaluates ties with every other. */
  lemma {:induction false} OneKeyPreorderIff(key: OrderBy, rows: seq<Row>)
    ensures Preorder(rows, RowOrder([key])) <==>
            || (forall r | r in rows :: key.expr(r).Some?)
            || (forall a, b | a in rows && b in rows && key.expr(a).Some? && key.expr(b).Some? ::
                  CompareValues(key.expr(a).value, key.expr(b).value, key.nulls) == Equal)
  {
    var cmp := RowOrder([key]);
    forall a, b ensures cmp(a, b) ==
      if key.expr(a).Some? && key.expr(b).Some?
      then Directed(CompareValues(key.expr(a).value, key.expr(b).value, key.nulls), key.direction)
      else Equal
    {
      CompareByOneKey(key, a, b);
    }
    if forall r | r in rows :: key.expr(r).Some? {
      RowOrderPreorder([key], rows);
    } else {
      var e :| e in rows && key.expr(e).None?;
      forall a, b | Preorder(rows, cmp) && a in rows && b in rows && key.expr(a).Some? && key.expr(b).Some?
        ensures CompareValues(key.expr(a).value, key.expr(b).value, key.nulls) == Equal
      {
        assert cmp(a, e) == Equal && cmp(e, b) == Equal && cmp(b, e) == Equal && cmp(e, a) == Equal;
        assert cmp(b, a) == cmp(a, b).Reverse();
      }
    }
  }

  /** Where a NULL key lands: NULLS FIRST (or no placement) puts it first only
      under ASC and NULLS LAST puts it last only under ASC, because DESC
      reverses the placement together with the values. */
  lemma {:induction false} NullPlacement(key: OrderBy, a: Row, b: Row)
    requires key.expr(a) == Some(Null) && key.expr(b).Some? && key.expr(b).value != Null
    ensures CompareRows([key], a, b) == Less <==> (key.direction.Asc? <==> !key.nulls.NullsLast?)
    ensures CompareRows([key], a, b) == Greater <==> (key.direction.Asc? <==> key.nulls.NullsLast?)
  {
    CompareByOneKey(key, a, b);
  }

  // ----- the sort operator -----

  function SortBy(rows: seq<Row>, keys: seq<OrderBy>): seq<Row> {
    StableSort(rows, RowOrder(keys))
  }

  /** The operator returns its input untouched when there is nothing to sort. */
  function ExecuteSort(rows: seq<Row>, keys: seq<OrderBy>): seq<Row> {
    if rows == [] || keys == [] then rows else SortBy(rows, keys)
  }

  /** The sort operator returns the unique stable sort of its input, also on the
      path that skips sorting. */
  lemma {:induction false} ExecuteSortIsTheStableSort(rows: seq<Row>, keys: seq<OrderBy>, p: seq<nat>)
    requires Evaluable(keys, rows) && StableOrder(rows, RowOrder(keys), p)
    ensures ExecuteSort(rows, keys) == Permute(rows, p)
    ensures multiset(ExecuteSort(rows, keys)) == multiset(rows)
  {
    RowOrderPreorder(keys, rows);
    StableOrderUnique(rows, RowOrder(keys), p);
    SortedMultiset(rows, RowOrder(keys));
    if keys == [] {
      var id := Identity(rows);
      StableOrderUnique(rows, RowOrder(keys), id);
    }
  }

  /** Of two rows of the result, the later one never comes before the earlier. */
  lemma {:induction false} SortedPair(rows: seq<Row>, keys: seq<OrderBy>, i: nat, j: nat)
    requires Evaluable(keys, rows) && i < j < |rows|
    ensures |ExecuteSort(rows, keys)| == |rows|
    ensures ExecuteSort(rows, keys)[i] in rows && ExecuteSort(rows, keys)[j] in rows
    ensures CompareRows(keys, ExecuteSort(rows, keys)[i], ExecuteSort(rows, keys)[j]) != Greater
  {
    RowOrderPreorder(keys, rows);
    SortPositionsAscending(rows, RowOrder(keys), |rows|);
    var p := SortPositions(rows, RowOrder(keys), |rows|);
    assert Before(rows, RowOrder(keys), p[i], p[j]);
  }

  lemma {:induction false} FirstDifferentKey(keys: seq<OrderBy>, a: Row, b: Row, m: nat)
    requires m < |keys| && forall l | 0 <= l <= m :: keys[l].expr(a).Some? && keys[l].expr(b).Some?
    requires forall l | 0 <= l < m :: CompareValues(keys[l].expr(a).value, keys[l].expr(b).value, keys[l].nulls) == Equal
    requires CompareRows(keys, a, b) != Greater
    ensures Directed(CompareValues(keys[m].expr(a).value, keys[m].expr(b).value, keys[m].nulls), keys[m].direction) != Greater
  {
    if m != 0 { FirstDifferentKey(keys[1..], a, b, m - 1); }
  }

  /** `x` may stand before `y` in the direction and with the NULL placement. */
  ghost predicate MayPrecede(x: Value, y: Value, key: OrderBy) {
    if x.Null? && y.Null? then true
    else if x.Null? || y.Null? then x.Null? == (key.direction.Asc? <==> !key.nulls.NullsLast?)
    else if key.direction.Asc? then !Smaller(y, x) else !Smaller(x, y)
  }

  /** The result is in order by its values: among rows that tie on the first `m`
      keys, those of the next key never decrease under ASC and never increase
      under DESC, and NULLs stand together at the end they were placed. */
  lemma {:induction false} SortedByKeys(rows: seq<Row>, keys: seq<OrderBy>, m: nat, i: nat, j: nat)
    requires Evaluable(keys, rows) && m < |keys| && i < j < |rows|
    ensures var out := ExecuteSort(rows, keys);
      && |out| == |rows| && keys[m].expr(out[i]).Some? && keys[m].expr(out[j]).Some?
      && ((forall l | 0 <= l < m :: keys[l].expr(out[i]) == keys[l].expr(out[j])) ==>
          MayPrecede(keys[m].expr(out[i]).value, keys[m].expr(out[j]).value, keys[m]))
  {
    var out := ExecuteSort(rows, keys);
    SortedPair(rows, keys, i, j);
    assert forall l | 0 <= l < |keys| :: keys[l].expr(out[i]).Some? && keys[l].expr(out[j]).Some?;
    if forall l | 0 <= l < m :: keys[l].expr(out[i]) == keys[l].expr(out[j]) {
      forall l | 0 <= l < m
        ensures CompareValues(keys[l].expr(out[i]).value, keys[l].expr(out[j]).value, keys[l].nulls) == Equal
      {
        CompareValuesReflexive(keys[l].expr(out[i]).value, keys[l].nulls);
      }
      FirstDifferentKey(keys, out[i], out[j], m);
      CompareValuesMeans(keys[m].expr(out[i]).value, keys[m].expr(out[j]).value, keys[m].nulls);
    }
  }

  /** On integers: sorted by size, upwards or downwards. */
  lemma {:induction false} SortedIntegers(rows: seq<Row>, keys: seq<OrderBy>, i: nat, j: nat)
    requires Evaluable(keys, rows) && keys != [] && i < j < |rows|
    requires forall r | r in rows :: keys[0].expr(r).value.Integer?
    ensures var out := ExecuteSort(rows, keys);
      && |out| == |rows| && out[i] in rows && out[j] in rows
      && var x, y := keys[0].expr(out[i]).value.i, keys[0].expr(out[j]).value.i;
         if keys[0].direction.Asc? then x <= y else x >= y
  {
    SortedPair(rows, keys, i, j);
    SortedByKeys(rows, keys, 0, i, j);
  }

  lemma {:induction false} Identity(rows: seq<Row>) returns (id: seq<nat>)
    ensures StableOrder(rows, RowOrder([]), id) && Permute(rows, id) == rows
  {
    id := seq(|rows|, i => i);
    forall m: nat | m < |rows| ensures m in id { assert id[m] == m; }
  }

  lemma {:induction false} SortedMultiset<T>(xs: seq<T>, cmp: (T, T) -> Ordering)
    ensures multiset(StableSort(xs, cmp)) == multiset(xs)
  {
    PermuteMultiset(xs, cmp, |xs|);
    assert xs[..|xs|] == xs;
  }

  lemma {:induction false} PrefixMultiset<T>(xs: seq<T>, n: nat)
    requires 0 < n <= |xs|
    ensures multiset(xs[..n]) == multiset(xs[..n - 1]) + multiset{xs[n - 1]}
  {
    assert xs[..n] == xs[..n - 1] + [xs[n - 1]];
  }

  lemma {:induction false} PermuteMultiset<T>(xs: seq<T>, cmp: (T, T) -> Ordering, n: nat)
    requires n <= |xs|
    ensures multiset(Permute(xs, SortPositions(xs, cmp, n))) == multiset(xs[..n])
  {
    if n != 0 {
      var p, q := SortPositions(xs, cmp, n - 1), SortPositions(xs, cmp, n);
      PermuteMultiset(xs, cmp, n - 1);
      InsertPermuteMultiset(xs, cmp, p, n - 1);
      assert q == InsertPosition(xs, cmp, p, n - 1);
      PrefixMultiset(xs, n);
    }
  }

  lemma {:induction false} InsertPermuteMultiset<T>(xs: seq<T>, cmp: (T, T) -> Ordering, p: seq<nat>, i: nat)
    requires i < |xs| && InRange(p, |xs|)
    ensures multiset(Permute(xs, InsertPosition(xs, cmp, p, i))) == multiset(Permute(xs, p)) + multiset{xs[i]}
  {
    var q := InsertPosition(xs, cmp, p, i);
    if p == [] {
      assert Permute(xs, q) == [xs[i]];
    } else if cmp(xs[p[|p| - 1]], xs[i]) == Greater {
      var rest, last := p[..|p| - 1], p[|p| - 1];
      InsertPermuteMultiset(xs, cmp, rest, i);
      assert Permute(xs, p) == Permute(xs, rest) + [xs[last]];
      assert Permute(xs, q) == Permute(xs, InsertPosition(xs, cmp, rest, i)) + [xs[last]];
    } else {
      assert Permute(xs, q) == Permute(xs, p) + [xs[i]];
    }
  }

  lemma {:induction false} CompareRowsConcat(k1: seq<OrderBy>, k2: seq<OrderBy>, a: Row, b: Row)
    ensures CompareRows(k1 + k2, a, b) ==
      if CompareRows(k1, a, b) != Equal then CompareRows(k1, a, b) else CompareRows(k2, a, b)
  {
    if k1 == [] {
      assert k1 + k2 == k2;
    } else {
      assert (k1 + k2)[1..] == k1[1..] + k2;
      CompareRowsConcat(k1[1..], k2, a, b);
    }
  }

  /** Stable sorting by `c2` and then by `c1` is stable sorting by `both`, the
      comparator that consults `c2` only on ties of `c1`. */
  lemma {:induction false} SortingTwice<T(!new)>(xs: seq<T>, c1: (T, T) -> Ordering, c2: (T, T) -> Ordering, both: (T, T) -> Ordering)
    requires Preorder(xs, c1) && Preorder(xs, c2) && Preorder(xs, both)
    requires forall a, b :: both(a, b) == if c1(a, b) != Equal then c1(a, b) else c2(a, b)
    ensures StableSort(StableSort(xs, c2), c1) == StableSort(xs, both)
  {
    var p := SortPositions(xs, c2, |xs|);
    var mid := StableSort(xs, c2);
    var q := SortPositions(mid, c1, |mid|);
    SortPositionsAscending(xs, c2, |xs|);
    SortedPreorder(xs, c1, p);
    SortPositionsAscending(mid, c1, |mid|);
    ComposedAscending(xs, c1, c2, both, p, q);
    ComposedListing(p, q, |xs|);
    StableOrderUnique(xs, both, Permute(p, q));
  }

  lemma {:induction false} ComposedAscending<T(!new)>(xs: seq<T>, c1: (T, T) -> Ordering, c2: (T, T) -> Ordering, both: (T, T) -> Ordering,
      p: seq<nat>, q: seq<nat>)
    requires forall a, b :: both(a, b) == if c1(a, b) != Equal then c1(a, b) else c2(a, b)
    requires Ascending(xs, c2, p) && Ascending(Permute(xs, p), c1, q)
    ensures Ascending(xs, both, Permute(p, q))
  {
    var mid, pq := Permute(xs, p), Permute(p, q);
    forall k, l | 0 <= k < l < |pq| ensures Before(xs, both, pq[k], pq[l]) {
      assert Before(mid, c1, q[k], q[l]);
      assert q[k] < q[l] ==> Before(xs, c2, p[q[k]], p[q[l]]);
    }
  }

  lemma {:induction false} SortedPreorder<T(!new)>(xs: seq<T>, cmp: (T, T) -> Ordering, p: seq<nat>)
    requires Preorder(xs, cmp) && InRange(p, |xs|)
    ensures Preorder(Permute(xs, p), cmp)
  {
    assert forall x | x in Permute(xs, p) :: x in xs;
  }

  lemma {:induction false} ComposedListing(p: seq<nat>, q: seq<nat>, n: nat)
    requires |p| == n && InRange(p, n) && InRange(q, n)
    requires forall m: nat | m < n :: m in p && m in q
    ensures forall m: nat :: m in Permute(p, q) <==> m < n
  {
    forall m: nat | m < n ensures m in Permute(p, q) {
      assert m in p;
      var i: nat :| i < |p| && p[i] == m;
      assert i in q;
      var k :| 0 <= k < |q| && q[k] == i;
      assert Permute(p, q)[k] == m;
    }
  }

  /** Sorting by the minor keys and then by the major keys is sorting by both at
      once, for any two ORDER BY lists. */
  lemma {:induction false} SortingTwiceIsSortingByBoth(rows: seq<Row>, k1: seq<OrderBy>, k2: seq<OrderBy>)
    requires Evaluable(k1, rows) && Evaluable(k2, rows)
    ensures SortBy(SortBy(rows, k2), k1) == SortBy(rows, k1 + k2)
  {
    RowOrderPreorder(k1, rows);
    RowOrderPreorder(k2, rows);
    EvaluableConcat(k1, k2, rows);
    RowOrderPreorder(k1 + k2, rows);
    forall a, b ensures CompareRows(k1 + k2, a, b) ==
      if CompareRows(k1, a, b) != Equal then CompareRows(k1, a, b) else CompareRows(k2, a, b)
    {
      CompareRowsConcat(k1, k2, a, b);
    }
    SortingTwice(rows, RowOrder(k1), RowOrder(k2), RowOrder(k1 + k2));
  }

  lemma {:induction false} EvaluableConcat(k1: seq<OrderBy>, k2: seq<OrderBy>, rows: seq<Row>)
    requires Evaluable(k1, rows) && Evaluable(k2, rows)
    ensures Evaluable(k1 + k2, rows)
  {
    var both := k1 + k2;
    forall k, r | 0 <= k < |both| && r in rows ensures both[k].expr(r).Some? {
      if k < |k1| { assert both[k] == k1[k]; } else { assert both[k] == k2[k - |k1|]; }
    }
  }
}
