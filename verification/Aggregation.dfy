/** GROUP BY by hashing. Rows are folded one at a time into the state of their
    group; the states are values, so the fold is the whole story. */
module Aggregation {
  import opened Values
  import opened Joins

  // ----- aggregate states -----

  datatype AggregateState =
    | Count(count: nat, distinct: bool, values: set<Value>)
    | Sum(sum: real, distinct: bool, values: set<Value>)
    | Avg(sum: real, count: nat, distinct: bool, values: set<Value>)
    | Min(best: Option<Value>)
    | Max(best: Option<Value>)

  function Numeric(v: Value): Option<real> {
    match v
    case Integer(i) => Some(i as real)
    case Float(f) => Some(f)
    case _ => None
  }

  function Update(s: AggregateState, v: Value): AggregateState {
    match s
    case Count(count, distinct, values) =>
      if v.Null? || (distinct && v in values) then s
      else Count(count + 1, distinct, if distinct then values + {v} else values)
    case Sum(sum, distinct, values) =>
      if distinct && v in values then s
      else Sum(if Numeric(v).Some? then sum + Numeric(v).value else sum, distinct, if distinct then values + {v} else values)
    case Avg(sum, count, distinct, values) =>
      if distinct && v in values then s
      else
        var seen := if distinct then values + {v} else values;
        if Numeric(v).Some? then Avg(sum + Numeric(v).value, count + 1, distinct, seen) else Avg(sum, count, distinct, seen)
    case Min(best) =>
      if v.Null? || (best.Some? && CompareValues(v, best.value, NullsDefault) != Less) then s else Min(Some(v))
    case Max(best) =>
      if v.Null? || (best.Some? && CompareValues(v, best.value, NullsDefault) != Greater) then s else Max(Some(v))
  }

  const TWO_63: int := 0x8000_0000_0000_0000

  /** A whole number in the 64-bit range is returned as an integer; the upper end
      of the range saturates. */
  function FromReal(x: real): Value {
    if x == x.Floor as real && -(TWO_63 as real) <= x <= TWO_63 as real
    then Integer(if x.Floor == TWO_63 then TWO_63 - 1 else x.Floor)
    else Float(x)
  }

  function Final(s: AggregateState): Value {
    match s
    case Count(count, _, _) => Integer(count)
    case Sum(sum, _, _) => FromReal(sum)
    case Avg(sum, count, _, _) => if count == 0 then Null else FromReal(sum / count as real)
    case Min(best) => if best.Some? then best.value else Null
    case Max(best) => if best.Some? then best.value else Null
  }

  function Fold(s: AggregateState, vs: seq<Value>): AggregateState {
    if vs == [] then s else Update(Fold(s, vs[..|vs| - 1]), vs[|vs| - 1])
  }

  // ----- what the folds compute -----

  function NonNulls(vs: seq<Value>): nat {
    if vs == [] then 0 else NonNulls(vs[..|vs| - 1]) + if vs[|vs| - 1].Null? then 0 else 1
  }

  predicate IsNumber(v: Value) {
    v.Integer? || v.Float?
  }

  /** The number a value stands for; other values stand for zero. */
  function Amount(v: Value): real {
    if v.Integer? then v.i as real else if v.Float? then v.f else 0.0
  }

  function Total(vs: seq<Value>): real {
    if vs == [] then 0.0 else Total(vs[..|vs| - 1]) + Amount(vs[|vs| - 1])
  }

  /** The values in order of first appearance. */
  function Distinct(vs: seq<Value>): seq<Value> {
    if vs == [] then []
    else
      var v, rest := vs[|vs| - 1], vs[..|vs| - 1];
      if v in rest then Distinct(rest) else Distinct(rest) + [v]
  }

  /** The different values that occur. */
  ghost function Members(vs: seq<Value>): (s: set<Value>)
    ensures forall v :: v in s <==> v in vs
  {
    if vs == [] then {}
    else
      assert vs == vs[..|vs| - 1] + [vs[|vs| - 1]];
      Members(vs[..|vs| - 1]) + {vs[|vs| - 1]}
  }

  /** The different values are those of the list, each once. */
  lemma {:induction false} DistinctMeans(vs: seq<Value>)
    ensures forall v :: v in Distinct(vs) <==> v in vs
    ensures forall i, j | 0 <= i < j < |Distinct(vs)| :: Distinct(vs)[i] != Distinct(vs)[j]
  {
    if vs != [] {
      DistinctMeans(vs[..|vs| - 1]);
      assert vs == vs[..|vs| - 1] + [vs[|vs| - 1]];
    }
  }

  lemma {:induction false} CountStates(vs: seq<Value>)
    ensures Fold(Count(0, false, {}), vs) == Count(NonNulls(vs), false, {})
  {
    if vs != [] { CountStates(vs[..|vs| - 1]); }
  }

  /** The different values that occur and are not NULL. */
  ghost function NonNullMembers(vs: seq<Value>): (s: set<Value>)
    ensures forall v :: v in s <==> v in vs && !v.Null?
  {
    if vs == [] then {}
    else
      assert vs == vs[..|vs| - 1] + [vs[|vs| - 1]];
      var rest := NonNullMembers(vs[..|vs| - 1]);
      if vs[|vs| - 1].Null? then rest else rest + {vs[|vs| - 1]}
  }

  lemma {:induction false} OneMoreNonNull(init: AggregateState, vs: seq<Value>)
    requires vs != []
    ensures var rest, last := vs[..|vs| - 1], vs[|vs| - 1];
      && Fold(init, vs) == Update(Fold(init, rest), last)
      && NonNullMembers(vs) == if last.Null? then NonNullMembers(rest) else NonNullMembers(rest) + {last}
  {
  }

  lemma {:induction false} CountDistinctStep(seen: set<Value>, last: Value)
    ensures var seen' := if last.Null? then seen else seen + {last};
      Update(Count(|seen|, true, seen), last) == Count(|seen'|, true, seen')
  {
    if last in seen { assert seen + {last} == seen; }
  }

  lemma {:induction false} CountDistinctStates(vs: seq<Value>)
    ensures Fold(Count(0, true, {}), vs) == Count(|NonNullMembers(vs)|, true, NonNullMembers(vs))
  {
    if vs != [] {
      CountDistinctStates(vs[..|vs| - 1]);
      OneMoreNonNull(Count(0, true, {}), vs);
      CountDistinctStep(NonNullMembers(vs[..|vs| - 1]), vs[|vs| - 1]);
    }
  }

  /** COUNT(x) is the number of values that are not NULL, COUNT(DISTINCT x) the
      number of different ones. */
  lemma {:induction false} CountMeans(vs: seq<Value>)
    ensures Final(Fold(Count(0, false, {}), vs)) == Integer(NonNulls(vs))
    ensures Final(Fold(Count(0, true, {}), vs)) == Integer(|NonNullMembers(vs)|)
  {
    CountStates(vs);
    CountDistinctStates(vs);
  }

  /** SUM adds up the numeric values; other values contribute nothing. */
  lemma {:induction false} SumMeans(vs: seq<Value>)
    ensures Fold(Sum(0.0, false, {}), vs) == Sum(Total(vs), false, {})
  {
    if vs != [] { SumMeans(vs[..|vs| - 1]); }
  }

  /** One more value, in all three views of a list. */
  lemma {:induction false} OneMore(init: AggregateState, vs: seq<Value>)
    requires vs != []
    ensures var rest, last := vs[..|vs| - 1], vs[|vs| - 1];
      && Fold(init, vs) == Update(Fold(init, rest), last)
      && Members(vs) == Members(rest) + {last}
      && Distinct(vs) == if last in Members(rest) then Distinct(rest) else Distinct(rest) + [last]
  {
  }

  lemma {:induction false} SumDistinctStep(d: seq<Value>, seen: set<Value>, last: Value)
    ensures Update(Sum(Total(d), true, seen), last) == Sum(Total(if last in seen then d else d + [last]), true, seen + {last})
  {
    if last in seen { assert seen + {last} == seen; } else { TotalSnoc(d, last); }
  }

  /** SUM(DISTINCT) adds up each different value once. */
  lemma {:induction false} SumDistinctMeans(vs: seq<Value>)
    ensures Fold(Sum(0.0, true, {}), vs) == Sum(Total(Distinct(vs)), true, Members(vs))
  {
    if vs != [] {
      var rest, last := vs[..|vs| - 1], vs[|vs| - 1];
      SumDistinctMeans(rest);
      OneMore(Sum(0.0, true, {}), vs);
      SumDistinctStep(Distinct(rest), Members(rest), last);
    }
  }

  lemma {:induction false} TotalSnoc(vs: seq<Value>, v: Value)
    ensures Total(vs + [v]) == Total(vs) + Amount(v)
  {
    assert (vs + [v])[..|vs|] == vs;
  }

  function Numerics(vs: seq<Value>): nat {
    if vs == [] then 0 else Numerics(vs[..|vs| - 1]) + if IsNumber(vs[|vs| - 1]) then 1 else 0
  }

  lemma {:induction false} NumericsSnoc(vs: seq<Value>, v: Value)
    ensures Numerics(vs + [v]) == Numerics(vs) + if IsNumber(v) then 1 else 0
  {
    assert (vs + [v])[..|vs|] == vs;
  }

  /** AVG divides the total of the numeric values by their number. */
  lemma {:induction false} AvgMeans(vs: seq<Value>)
    ensures Fold(Avg(0.0, 0, false, {}), vs) == Avg(Total(vs), Numerics(vs), false, {})
  {
    if vs != [] { AvgMeans(vs[..|vs| - 1]); }
  }

  lemma {:induction false} AvgDistinctStep(d: seq<Value>, seen: set<Value>, last: Value)
    ensures var d' := if last in seen then d else d + [last];
      Update(Avg(Total(d), Numerics(d), true, seen), last) == Avg(Total(d'), Numerics(d'), true, seen + {last})
  {
    if last in seen {
      assert seen + {last} == seen;
    } else {
      TotalSnoc(d, last);
      NumericsSnoc(d, last);
    }
  }

  /** AVG(DISTINCT) takes each different value once. */
  lemma {:induction false} AvgDistinctMeans(vs: seq<Value>)
    ensures Fold(Avg(0.0, 0, true, {}), vs) == Avg(Total(Distinct(vs)), Numerics(Distinct(vs)), true, Members(vs))
  {
    if vs != [] {
      var rest, last := vs[..|vs| - 1], vs[|vs| - 1];
      AvgDistinctMeans(rest);
      OneMore(Avg(0.0, 0, true, {}), vs);
      AvgDistinctStep(Distinct(rest), Members(rest), last);
    }
  }

  /** `v` is how the number `x` is returned: as an integer if it is whole and in the
      64-bit range, as a float if not. The upper end of the range saturates. */
  ghost predicate Returns(v: Value, x: real) {
    && IsNumber(v) && (v.Integer? <==> Whole(x) && -(TWO_63 as real) <= x <= TWO_63 as real)
    && if x == TWO_63 as real then v == Integer(TWO_63 - 1) else Amount(v) == x
  }

  ghost predicate Whole(x: real) {
    x.Floor as real == x
  }

  lemma {:induction false} FromRealReturns(x: real)
    ensures Returns(FromReal(x), x)
  {
  }

  /** SUM returns the total of the numbers among the values, SUM(DISTINCT) that of
      the different ones. */
  lemma {:induction false} SumValue(vs: seq<Value>)
    ensures Returns(Final(Fold(Sum(0.0, false, {}), vs)), Total(vs))
    ensures Returns(Final(Fold(Sum(0.0, true, {}), vs)), Total(Distinct(vs)))
  {
    SumMeans(vs);
    SumDistinctMeans(vs);
    FromRealReturns(Total(vs));
    FromRealReturns(Total(Distinct(vs)));
  }

  /** `v` is the total divided by the number of numbers, or NULL if there is none. */
  ghost predicate IsAverage(v: Value, vs: seq<Value>) {
    if Numerics(vs) == 0 then v == Null
    else exists x: real :: x * Numerics(vs) as real == Total(vs) && Returns(v, x)
  }

  lemma {:induction false} AverageIs(vs: seq<Value>)
    ensures IsAverage(if Numerics(vs) == 0 then Null else FromReal(Total(vs) / Numerics(vs) as real), vs)
  {
    if Numerics(vs) != 0 {
      var x := Total(vs) / Numerics(vs) as real;
      assert x * Numerics(vs) as real == Total(vs);
      FromRealReturns(x);
    }
  }

  /** AVG times the number of numbers is their total, unless it saturates. */
  lemma {:induction false} AvgValue(vs: seq<Value>)
    ensures IsAverage(Final(Fold(Avg(0.0, 0, false, {}), vs)), vs)
    ensures IsAverage(Final(Fold(Avg(0.0, 0, true, {}), vs)), Distinct(vs))
  {
    AvgMeans(vs);
    AvgDistinctMeans(vs);
    AverageIs(vs);
    AverageIs(Distinct(vs));
  }

  lemma {:induction false} AverageTimesCount(v: Value, vs: seq<Value>)
    requires IsAverage(v, vs) && Numerics(vs) > 0 && Total(vs) != TWO_63 as real * Numerics(vs) as real
    ensures IsNumber(v) && Amount(v) * Numerics(vs) as real == Total(vs)
  {
  }

  /** SUM is never NULL: over no numeric values at all it is zero, where the
      standard and AVG give NULL. */
  lemma {:induction false} NothingToAdd(vs: seq<Value>)
    ensures Final(Fold(Sum(0.0, false, {}), vs)) != Null
    ensures Final(Fold(Avg(0.0, 0, false, {}), vs)) == Null <==> Numerics(vs) == 0
    ensures Numerics(vs) == 0 ==> Final(Fold(Sum(0.0, false, {}), vs)) == Integer(0)
  {
    SumMeans(vs);
    AvgMeans(vs);
    TotalOfNothing(vs);
  }

  lemma {:induction false} TotalOfNothing(vs: seq<Value>)
    ensures Numerics(vs) == 0 ==> Total(vs) == 0.0
  {
    if vs != [] { TotalOfNothing(vs[..|vs| - 1]); }
  }

  /** `best` is NULL exactly when no value is; otherwise it is one of the values
      and none lies beyond it. */
  ghost predicate AttainedBound(best: Option<Value>, vs: seq<Value>, beyond: Ordering) {
    if best.None? then forall v | v in vs :: v.Null?
    else
      && best.value in vs && !best.value.Null?
      && forall v | v in vs && !v.Null? :: CompareValues(v, best.value, NullsDefault) != beyond
  }

  /** No value is smaller than MIN, which is one of them. */
  lemma {:induction false} MinMeans(vs: seq<Value>)
    ensures Fold(Min(None), vs).Min? && AttainedBound(Fold(Min(None), vs).best, vs, Less)
  {
    if vs != [] {
      var rest, last := vs[..|vs| - 1], vs[|vs| - 1];
      MinMeans(rest);
      assert vs == rest + [last];
      CompareValuesReflexive(last, NullsDefault);
      BoundStep(Fold(Min(None), rest).best, rest, last, Less);
    }
  }

  /** No value is greater than MAX, which is one of them. */
  lemma {:induction false} MaxMeans(vs: seq<Value>)
    ensures Fold(Max(None), vs).Max? && AttainedBound(Fold(Max(None), vs).best, vs, Greater)
  {
    if vs != [] {
      var rest, last := vs[..|vs| - 1], vs[|vs| - 1];
      MaxMeans(rest);
      assert vs == rest + [last];
      CompareValuesReflexive(last, NullsDefault);
      BoundStep(Fold(Max(None), rest).best, rest, last, Greater);
    }
  }

  /** What MIN and MAX return: NULL if every value is, and otherwise one of the values
      that no other lies beyond. */
  ghost predicate IsExtreme(v: Value, vs: seq<Value>, beyond: (Value, Value) -> bool) {
    if v.Null? then forall u | u in vs :: u.Null?
    else v in vs && forall u | u in vs && !u.Null? :: !beyond(u, v)
  }

  ghost function Below(): (Value, Value) -> bool { (u, v) => Smaller(u, v) }
  ghost function Above(): (Value, Value) -> bool { (u, v) => Smaller(v, u) }

  lemma {:induction false} MinMaxValue(vs: seq<Value>)
    ensures IsExtreme(Final(Fold(Min(None), vs)), vs, Below())
    ensures IsExtreme(Final(Fold(Max(None), vs)), vs, Above())
  {
    MinMeans(vs);
    MaxMeans(vs);
    forall u, v | u in vs && v in vs && !u.Null? && !v.Null?
      ensures CompareValues(u, v, NullsDefault) == Less <==> Smaller(u, v)
      ensures CompareValues(u, v, NullsDefault) == Greater <==> Smaller(v, u)
    {
      CompareValuesMeans(u, v, NullsDefault);
    }
  }

  /** On integers and NULLs, MIN and MAX bound every integer and are attained. */
  lemma {:induction false} MinMaxOfIntegers(vs: seq<Value>, n: int)
    requires Integer(n) in vs && forall v | v in vs :: v.Integer? || v.Null?
    ensures var lo, hi := Final(Fold(Min(None), vs)), Final(Fold(Max(None), vs));
      lo in vs && hi in vs && lo.Integer? && hi.Integer? && lo.i <= n <= hi.i
  {
    MinMaxValue(vs);
  }

  /** A value beyond the current bound is a bound for all earlier values. */
  lemma {:induction false} BoundStep(best: Option<Value>, rest: seq<Value>, last: Value, beyond: Ordering)
    requires AttainedBound(best, rest, beyond) && beyond != Equal
    ensures best.Some? && CompareValues(last, best.value, NullsDefault) == beyond ==>
      forall v | v in rest && !v.Null? :: CompareValues(v, last, NullsDefault) != beyond
  {
    if best.Some? && CompareValues(last, best.value, NullsDefault) == beyond {
      CompareValuesReverse(last, best.value, NullsDefault);
      forall v | v in rest && !v.Null? ensures CompareValues(v, last, NullsDefault) != beyond {
        CompareValuesReverse(v, best.value, NullsDefault);
        CompareValuesReverse(v, last, NullsDefault);
        if beyond == Less {
          CompareValuesTransitive(last, best.value, v, NullsDefault);
        } else {
          CompareValuesTransitive(v, best.value, last, NullsDefault);
        }
      }
    }
  }

  // ----- grouping -----

  /** An aggregate column: its initial state and the value it takes from a row. */
  datatype Aggregate = Aggregate(init: AggregateState, arg: Row -> Value)

  datatype Group = Group(values: Row, states: seq<AggregateState>)

  function ArgValues(a: Aggregate, rows: seq<Row>): (vs: seq<Value>)
    ensures |vs| == |rows|
  {
    seq(|rows|, i requires 0 <= i < |rows| => a.arg(rows[i]))
  }

  /** The states of a group that consists of the given rows. */
  function StatesOf(aggs: seq<Aggregate>, rows: seq<Row>): (states: seq<AggregateState>)
    ensures |states| == |aggs|
  {
    seq(|aggs|, a requires 0 <= a < |aggs| => Fold(aggs[a].init, ArgValues(aggs[a], rows)))
  }

  function UpdateStates(aggs: seq<Aggregate>, states: seq<AggregateState>, row: Row): (out: seq<AggregateState>)
    requires |states| == |aggs|
    ensures |out| == |aggs|
  {
    seq(|aggs|, a requires 0 <= a < |aggs| => Update(states[a], aggs[a].arg(row)))
  }

  lemma {:induction false} StatesSnoc(aggs: seq<Aggregate>, rows: seq<Row>, row: Row)
    ensures StatesOf(aggs, rows + [row]) == UpdateStates(aggs, StatesOf(aggs, rows), row)
  {
    forall a | 0 <= a < |aggs|
      ensures Fold(aggs[a].init, ArgValues(aggs[a], rows + [row])) == Update(Fold(aggs[a].init, ArgValues(aggs[a], rows)), aggs[a].arg(row))
    {
      var vs := ArgValues(aggs[a], rows + [row]);
      assert vs[..|vs| - 1] == ArgValues(aggs[a], rows);
    }
  }

  ghost function RowsOfKey(rows: seq<Row>, key: Row -> string, k: string, n: nat): seq<Row>
    requires n <= |rows|
  {
    Keep(rows, WithKey(key, k), n)
  }

  /** The group of the first `n` rows with key `k`: the grouping values of its
      first row, and the fold over exactly its rows in input order. */
  ghost predicate IsGroup(g: Group, rows: seq<Row>, key: Row -> string, values: Row -> Row, aggs: seq<Aggregate>, k: string, n: nat)
    requires n <= |rows|
  {
    var mine := RowsOfKey(rows, key, k, n);
    mine != [] && g == Group(values(mine[0]), StatesOf(aggs, mine))
  }

  ghost predicate Grouped(groups: map<string, Group>, rows: seq<Row>, key: Row -> string, values: Row -> Row,
                          aggs: seq<Aggregate>, n: nat)
    requires n <= |rows|
  {
    forall k :: if k in groups then IsGroup(groups[k], rows, key, values, aggs, k, n) else RowsOfKey(rows, key, k, n) == []
  }

  lemma {:induction false} GroupingStep(groups: map<string, Group>, rows: seq<Row>, key: Row -> string, values: Row -> Row, aggs: seq<Aggregate>,
      n: nat, g: Group)
    requires n < |rows| && Grouped(groups, rows, key, values, aggs, n)
    requires var k := key(rows[n]);
      var old' := if k in groups then groups[k] else Group(values(rows[n]), StatesOf(aggs, []));
      |old'.states| == |aggs| && g == Group(old'.values, UpdateStates(aggs, old'.states, rows[n]))
    ensures Grouped(groups[key(rows[n]) := g], rows, key, values, aggs, n + 1)
  {
    var k := key(rows[n]);
    var mine := RowsOfKey(rows, key, k, n);
    assert k in groups ==> IsGroup(groups[k], rows, key, values, aggs, k, n);
    StatesSnoc(aggs, mine, rows[n]);
    assert RowsOfKey(rows, key, k, n + 1) == mine + [rows[n]];
    forall j | j != k ensures RowsOfKey(rows, key, j, n + 1) == RowsOfKey(rows, key, j, n) { }
  }

  /** One pass over the input, one group per distinct key. */
  method BuildGroups(rows: seq<Row>, key: Row -> string, values: Row -> Row, aggs: seq<Aggregate>) returns (groups: map<string, Group>)
    ensures Grouped(groups, rows, key, values, aggs, |rows|)
  {
    groups := map[];
    for i := 0 to |rows|
      invariant Grouped(groups, rows, key, values, aggs, i)
    {
      var k := key(rows[i]);
      assert k in groups ==> IsGroup(groups[k], rows, key, values, aggs, k, i);
      var g := if k in groups then groups[k] else Group(values(rows[i]), StatesOf(aggs, []));
      g := g.(states := UpdateStates(aggs, g.states, rows[i]));
      GroupingStep(groups, rows, key, values, aggs, i, g);
      groups := groups[k := g];
    }
  }

  function FinalRow(g: Group): Row {
    g.values + seq(|g.states|, a requires 0 <= a < |g.states| => Final(g.states[a]))
  }

  /** The operator. Groups come out in whatever order the hash map yields them,
      recorded in `order`; HAVING drops groups whose result row it rejects. */
  method ExecuteAggregate(rows: seq<Row>, grouped: bool, key: Row -> string, values: Row -> Row, aggs: seq<Aggregate>, having: Row -> bool)
    returns (out: seq<Row>, order: seq<string>)
    requires !grouped ==> forall r :: key(r) == "SINGLE_GROUP" && values(r) == []
    ensures rows == [] ==> order == [] && out == if grouped then [] else [Finals(aggs, [])]
    ensures rows != [] ==>
      && (forall i, j | 0 <= i < j < |order| :: order[i] != order[j])
      && (forall i | 0 <= i < |rows| :: key(rows[i]) in order)
      && AllPresent(rows, key, order)
      && out == Filter(GroupRows(rows, key, values, aggs, order), having)
  {
    if rows == [] {
      order := [];
      FinalRowIs(Group([], StatesOf(aggs, [])), aggs, []);
      assert [] + Finals(aggs, []) == Finals(aggs, []);
      return if grouped then [] else [FinalRow(Group([], StatesOf(aggs, [])))], [];
    }
    var groups := BuildGroups(rows, key, values, aggs);
    order := ListKeys(groups.Keys);
    PresentKeys(groups, rows, key, values, aggs, order);
    ghost var all := GroupRows(rows, key, values, aggs, order);
    forall i | 0 <= i < |order| ensures FinalRow(groups[order[i]]) == all[i] {
      GroupGivesRow(groups, rows, key, values, aggs, order, i);
    }
    out := EmitGroups(groups, having, order, all);
    forall i | 0 <= i < |rows| ensures key(rows[i]) in order { KeyIsPresent(rows, key, i, |rows|); }
  }

  lemma {:induction false} PresentKeys(groups: map<string, Group>, rows: seq<Row>, key: Row -> string, values: Row -> Row, aggs: seq<Aggregate>,
      order: seq<string>)
    requires Grouped(groups, rows, key, values, aggs, |rows|) && Lists(order, groups.Keys)
    ensures AllPresent(rows, key, order) && forall i | 0 <= i < |order| :: order[i] in groups
    ensures forall k :: RowsOfKey(rows, key, k, |rows|) != [] ==> k in order
  {
    forall k | k in order ensures RowsOfKey(rows, key, k, |rows|) != [] {
      assert IsGroup(groups[k], rows, key, values, aggs, k, |rows|);
    }
    forall i | 0 <= i < |order| ensures order[i] in groups { assert order[i] in order; }
  }

  lemma {:induction false} KeyIsPresent(rows: seq<Row>, key: Row -> string, i: nat, n: nat)
    requires i < n <= |rows|
    ensures RowsOfKey(rows, key, key(rows[i]), n) != []
  {
    if i < n - 1 { KeyIsPresent(rows, key, i, n - 1); }
  }

  /** One value per aggregate: what it returns for the values it takes from the rows. */
  ghost function Finals(aggs: seq<Aggregate>, rows: seq<Row>): Row {
    seq(|aggs|, a requires 0 <= a < |aggs| => Final(Fold(aggs[a].init, ArgValues(aggs[a], rows))))
  }

  /** Column by column: what each kind of aggregate returns for the rows of a group. */
  lemma {:induction false} FinalsMean(aggs: seq<Aggregate>, rows: seq<Row>, a: nat)
    requires a < |aggs|
    ensures var v, vs, init := Finals(aggs, rows)[a], ArgValues(aggs[a], rows), aggs[a].init;
      && |vs| == |rows| && (forall i | 0 <= i < |rows| :: vs[i] == aggs[a].arg(rows[i]))
      && (init == Count(0, false, {}) ==> v == Integer(NonNulls(vs)))
      && (init == Count(0, true, {}) ==> v == Integer(|NonNullMembers(vs)|))
      && (init == Sum(0.0, false, {}) ==> Returns(v, Total(vs)))
      && (init == Sum(0.0, true, {}) ==> Returns(v, Total(Distinct(vs))))
      && (init == Avg(0.0, 0, false, {}) ==> IsAverage(v, vs))
      && (init == Avg(0.0, 0, true, {}) ==> IsAverage(v, Distinct(vs)))
      && (init == Min(None) ==> IsExtreme(v, vs, Below()))
      && (init == Max(None) ==> IsExtreme(v, vs, Above()))
  {
    var vs := ArgValues(aggs[a], rows);
    CountMeans(vs);
    SumValue(vs);
    AvgValue(vs);
    MinMaxValue(vs);
  }

  lemma {:induction false} FinalRowIs(g: Group, aggs: seq<Aggregate>, rows: seq<Row>)
    requires g.states == StatesOf(aggs, rows)
    ensures FinalRow(g) == g.values + Finals(aggs, rows)
  {
  }

  /** The row of a group: the grouping values of its first row, then the aggregates
      over all its rows. */
  ghost function ResultRow(rows: seq<Row>, key: Row -> string, values: Row -> Row, aggs: seq<Aggregate>, k: string): Row
    requires RowsOfKey(rows, key, k, |rows|) != []
  {
    var mine := RowsOfKey(rows, key, k, |rows|);
    values(mine[0]) + Finals(aggs, mine)
  }

  /** `order` lists the members of `keys`, each once. */
  ghost predicate Lists(order: seq<string>, keys: set<string>) {
    && (forall k :: k in order <==> k in keys)
    && (forall i, j | 0 <= i < j < |order| :: order[i] != order[j])
  }

  lemma {:induction false} ListsOneMore(order: seq<string>, keys: set<string>, k: string)
    requires Lists(order, keys) && k !in keys
    ensures Lists(order + [k], keys + {k})
  {
  }

  ghost predicate AllPresent(rows: seq<Row>, key: Row -> string, order: seq<string>) {
    forall k | k in order :: RowsOfKey(rows, key, k, |rows|) != []
  }

  /** The rows of all groups, in group order. */
  ghost function GroupRows(rows: seq<Row>, key: Row -> string, values: Row -> Row, aggs: seq<Aggregate>, order: seq<string>): (out: seq<Row>)
    requires AllPresent(rows, key, order)
    ensures |out| == |order|
  {
    seq(|order|, i requires 0 <= i < |order| =>
      assert order[i] in order; ResultRow(rows, key, values, aggs, order[i]))
  }

  /** The keys in whatever order the hash map yields them. */
  method ListKeys(keys: set<string>) returns (order: seq<string>)
    ensures Lists(order, keys)
  {
    order := [];
    var left := keys;
    while left != {}
      invariant left <= keys && Lists(order, keys - left)
    {
      var k :| k in left;
      ListsOneMore(order, keys - left, k);
      assert keys - (left - {k}) == (keys - left) + {k};
      left := left - {k};
      order := order + [k];
    }
    assert keys - {} == keys;
  }

  lemma {:induction false} GroupGivesRow(groups: map<string, Group>, rows: seq<Row>, key: Row -> string, values: Row -> Row, aggs: seq<Aggregate>,
      order: seq<string>, i: nat)
    requires Grouped(groups, rows, key, values, aggs, |rows|) && AllPresent(rows, key, order)
    requires i < |order| && order[i] in groups
    ensures FinalRow(groups[order[i]]) == GroupRows(rows, key, values, aggs, order)[i]
  {
    assert IsGroup(groups[order[i]], rows, key, values, aggs, order[i], |rows|);
    FinalRowIs(groups[order[i]], aggs, RowsOfKey(rows, key, order[i], |rows|));
  }

  /** Finalises the groups one by one; `all` lists what they give. */
  method EmitGroups(groups: map<string, Group>, having: Row -> bool, order: seq<string>, ghost all: seq<Row>) returns (out: seq<Row>)
    requires |all| == |order| && forall i | 0 <= i < |order| :: order[i] in groups && FinalRow(groups[order[i]]) == all[i]
    ensures out == Filter(all, having)
  {
    out := [];
    for i := 0 to |order|
      invariant out == Keep(all, having, i)
    {
      var row := FinalRow(groups[order[i]]);
      if having(row) { out := out + [row]; }
    }
  }

  // ----- conservation -----

  ghost function GroupSizes(rows: seq<Row>, key: Row -> string, order: seq<string>, n: nat): nat
    requires n <= |rows|
  {
    if order == [] then 0
    else GroupSizes(rows, key, order[..|order| - 1], n) + |RowsOfKey(rows, key, order[|order| - 1], n)|
  }

  lemma {:induction false} GroupSizesStep(rows: seq<Row>, key: Row -> string, order: seq<string>, n: nat)
    requires 0 < n <= |rows| && forall i, j | 0 <= i < j < |order| :: order[i] != order[j]
    ensures GroupSizes(rows, key, order, n) ==
            GroupSizes(rows, key, order, n - 1) + if key(rows[n - 1]) in order then 1 else 0
  {
    if order != [] {
      var rest, last := order[..|order| - 1], order[|order| - 1];
      GroupSizesStep(rows, key, rest, n);
      assert order == rest + [last] && last !in rest;
    }
  }

  lemma {:induction false} GroupSizesTotal(rows: seq<Row>, key: Row -> string, order: seq<string>, n: nat)
    requires n <= |rows| && (forall i, j | 0 <= i < j < |order| :: order[i] != order[j])
    requires forall i | 0 <= i < |rows| :: key(rows[i]) in order
    ensures GroupSizes(rows, key, order, n) == n
  {
    if n == 0 {
      GroupSizesZero(rows, key, order);
    } else {
      GroupSizesTotal(rows, key, order, n - 1);
      GroupSizesStep(rows, key, order, n);
    }
  }

  lemma {:induction false} GroupSizesZero(rows: seq<Row>, key: Row -> string, order: seq<string>)
    ensures GroupSizes(rows, key, order, 0) == 0
  {
    if order != [] { GroupSizesZero(rows, key, order[..|order| - 1]); }
  }

  /** COUNT(*) feeds a constant to a plain count, so it is the size of the group. */
  lemma {:induction false} CountStarIsSize(vs: seq<Value>)
    requires forall v | v in vs :: v == Integer(1)
    ensures Final(Fold(Count(0, false, {}), vs)) == Integer(|vs|)
  {
    CountMeans(vs);
    AllCounted(vs);
  }

  lemma {:induction false} AllCounted(vs: seq<Value>)
    requires forall v | v in vs :: !v.Null?
    ensures NonNulls(vs) == |vs|
  {
    if vs != [] { AllCounted(vs[..|vs| - 1]); }
  }

  /** Without HAVING, the COUNT(*) values of all groups add up to the number of
      input rows: no row is lost and none is counted twice. */
  lemma {:induction false} CountStarConserved(rows: seq<Row>, key: Row -> string, order: seq<string>)
    requires (forall i, j | 0 <= i < j < |order| :: order[i] != order[j]) && forall i | 0 <= i < |rows| :: key(rows[i]) in order
    ensures CountStarTotal(rows, key, order) == |rows|
  {
    GroupSizesTotal(rows, key, order, |rows|);
    CountStarSizes(rows, key, order);
  }

  function CountStar(): Aggregate {
    Aggregate(Count(0, false, {}), _ => Integer(1))
  }

  ghost function CountStarTotal(rows: seq<Row>, key: Row -> string, order: seq<string>): int {
    if order == [] then 0
    else
      var mine := RowsOfKey(rows, key, order[|order| - 1], |rows|);
      var v := Final(Fold(CountStar().init, ArgValues(CountStar(), mine)));
      CountStarTotal(rows, key, order[..|order| - 1]) + if v.Integer? then v.i else 0
  }

  lemma {:induction false} CountStarSizes(rows: seq<Row>, key: Row -> string, order: seq<string>)
    ensures CountStarTotal(rows, key, order) == GroupSizes(rows, key, order, |rows|)
  {
    if order != [] {
      CountStarSizes(rows, key, order[..|order| - 1]);
      CountStarIsSize(ArgValues(CountStar(), RowsOfKey(rows, key, order[|order| - 1], |rows|)));
    }
  }
}
