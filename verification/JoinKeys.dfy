/** Equality conditions on key columns, and which of the pairs that satisfy them
    the hash join and the merge join can find. The evaluator compares an integer
    with a float numerically; the two joins tell them apart. */
module JoinKeys {
  import opened Values
  import opened Joins
  import opened MergeKeys
  import opened MergeJoin

  /** The machine epsilon of 64-bit floats. */
  const EPSILON: real := 1.0 / 4503599627370496.0

  predicate Near(x: real, y: real) {
    -EPSILON < x - y < EPSILON
  }

  /** `=` in a condition. Everything not listed, NULL included, is not true. */
  predicate EvaluateEquals(a: Value, b: Value) {
    match (a, b)
    case (Integer(x), Integer(y)) => x == y
    case (Float(x), Float(y)) => x == y
    case (Str(x), Str(y)) => x == y
    case (Boolean(x), Boolean(y)) => x == y
    case (Integer(x), Float(y)) => Near(x as real, y)
    case (Float(x), Integer(y)) => Near(x, y as real)
    case _ => false
  }

  /** Values of one kind are equal when they are the same, an integer and a float
      when they differ by less than epsilon; NULL, timestamps and lists equal nothing. */
  lemma {:induction false} EvaluateEqualsMeans(a: Value, b: Value)
    ensures EvaluateEquals(a, a) <==> a.Integer? || a.Float? || a.Str? || a.Boolean?
    ensures EvaluateEquals(a, b) <==> (a == b && EvaluateEquals(a, a)) || NearlyEqual(a, b) || NearlyEqual(b, a)
  {
  }

  ghost predicate NearlyEqual(a: Value, b: Value) {
    a.Integer? && b.Float? && 4503599627370496.0 * (if a.i as real > b.f then a.i as real - b.f else b.f - a.i as real) < 1.0
  }

  predicate Mixed(a: Value, b: Value) {
    (a.Integer? && b.Float?) || (a.Float? && b.Integer?)
  }

  function Cell(row: Row, cols: seq<string>, name: string): Option<Value> {
    var at := Position(cols, name);
    if at.Some? && at.value < |row| then Some(row[at.value]) else None
  }

  predicate CellsEqual(x: Option<Value>, y: Option<Value>) {
    x.Some? && y.Some? && EvaluateEquals(x.value, y.value)
  }

  predicate CellsMixed(x: Option<Value>, y: Option<Value>) {
    x.Some? && y.Some? && Mixed(x.value, y.value)
  }

  /** The condition that the two rows are equal in every key column. */
  function KeyCondition(lCols: seq<string>, rCols: seq<string>, keys: seq<string>): Condition {
    (l: Row, r: Row) => forall k | k in keys :: CellsEqual(Cell(l, lCols, k), Cell(r, rCols, k))
  }

  /** The condition holds of two rows exactly when both have every key column and the
      two values are equal, or nearly so, there. */
  lemma {:induction false} KeyConditionMeans(l: Row, lCols: seq<string>, r: Row, rCols: seq<string>, keys: seq<string>)
    ensures KeyCondition(lCols, rCols, keys)(l, r) <==>
      HasKey(l, lCols, keys) && HasKey(r, rCols, keys) &&
      forall k | k in keys ::
        var a, b := l[Position(lCols, k).value], r[Position(rCols, k).value];
        (a == b && !a.Null? && !a.Timestamp? && !a.List?) || NearlyEqual(a, b) || NearlyEqual(b, a)
  {
    forall k | k in keys && CellsEqual(Cell(l, lCols, k), Cell(r, rCols, k))
      ensures Position(lCols, k).Some? && Position(rCols, k).Some?
    {
      EvaluateEqualsMeans(Cell(l, lCols, k).value, Cell(r, rCols, k).value);
    }
    if HasKey(l, lCols, keys) && HasKey(r, rCols, keys) {
      forall k | k in keys
        ensures var a, b := l[Position(lCols, k).value], r[Position(rCols, k).value];
          CellsEqual(Cell(l, lCols, k), Cell(r, rCols, k)) <==>
          (a == b && !a.Null? && !a.Timestamp? && !a.List?) || NearlyEqual(a, b) || NearlyEqual(b, a)
      {
        EvaluateEqualsMeans(l[Position(lCols, k).value], r[Position(rCols, k).value]);
      }
    }
  }

  /** Some key column holds an integer in one row and a float in the other. */
  predicate MixedKey(l: Row, lCols: seq<string>, r: Row, rCols: seq<string>, keys: seq<string>) {
    exists k | k in keys :: CellsMixed(Cell(l, lCols, k), Cell(r, rCols, k))
  }

  lemma {:induction false} EqualUnlessMixed(a: Value, b: Value)
    requires EvaluateEquals(a, b)
    ensures a == b <==> !Mixed(a, b)
    ensures CompareValues(a, b, NullsDefault) == Equal <==> !Mixed(a, b)
  {
    if a == b { CompareValuesReflexive(a, NullsDefault); }
  }

  // ----- hash keys -----

  function KeyParts(row: Row, cols: seq<string>, keys: seq<string>, render: Value -> string): seq<string> {
    if keys == [] then []
    else
      var cell := Cell(row, cols, keys[0]);
      (if cell.Some? then [render(cell.value)] else []) + KeyParts(row, cols, keys[1..], render)
  }

  function JoinBar(parts: seq<string>): string {
    if parts == [] then "" else if |parts| == 1 then parts[0] else parts[0] + "|" + JoinBar(parts[1..])
  }

  /** The hash key: the rendered values of the key columns that the row has,
      separated by bars. */
  function HashKey(cols: seq<string>, keys: seq<string>, render: Value -> string): Row -> string {
    (row: Row) => JoinBar(KeyParts(row, cols, keys, render))
  }

  ghost function CellsOf(row: Row): set<Value> {
    set v | v in row
  }

  ghost function CellsIn(rows: seq<Row>): set<Value> {
    set i, v | 0 <= i < |rows| && v in rows[i] :: v
  }

  /** Of the values that occur, different ones render differently, and numbers
      without a bar. */
  ghost predicate Faithful(render: Value -> string, values: set<Value>) {
    && (forall a, b | a in values && b in values :: render(a) == render(b) ==> a == b)
    && (forall v | v in values && (v.Integer? || v.Float?) :: '|' !in render(v))
  }

  lemma {:induction false} UpToBar(x: string, u: string, y: string, v: string)
    requires '|' !in x && '|' !in y && x + "|" + u == y + "|" + v
    ensures x == y && u == v
  {
    var s, t := x + "|" + u, y + "|" + v;
    assert s[|x|] == '|' && t[|y|] == '|';
    assert s[..|x|] == x && t[..|y|] == y && s[|x| + 1..] == u && t[|y| + 1..] == v;
  }

  lemma {:induction false} AfterHead(x: string, u: string, v: string)
    requires x + "|" + u == x + "|" + v
    ensures u == v
  {
    assert (x + "|" + u)[|x| + 1..] == u && (x + "|" + v)[|x| + 1..] == v;
  }

  /** Parts that are equal or free of bars can be read back from the joined key. */
  lemma {:induction false} JoinBarInjective(a: seq<string>, b: seq<string>)
    requires |a| == |b| && JoinBar(a) == JoinBar(b)
    requires forall k | 0 <= k < |a| :: a[k] == b[k] || ('|' !in a[k] && '|' !in b[k])
    ensures a == b
  {
    if |a| >= 2 {
      if a[0] == b[0] { AfterHead(a[0], JoinBar(a[1..]), JoinBar(b[1..])); }
      else { UpToBar(a[0], JoinBar(a[1..]), b[0], JoinBar(b[1..])); }
      JoinBarInjective(a[1..], b[1..]);
      assert a == [a[0]] + a[1..] && b == [b[0]] + b[1..];
    }
  }

  lemma {:induction false} PartsAt(row: Row, cols: seq<string>, keys: seq<string>, render: Value -> string, k: nat)
    requires HasKey(row, cols, keys) && k < |keys|
    ensures |KeyParts(row, cols, keys, render)| == |keys| && Cell(row, cols, keys[k]).Some?
    ensures KeyParts(row, cols, keys, render)[k] == render(Cell(row, cols, keys[k]).value)
  {
    assert keys[0] in keys && keys[k] in keys;
    if |keys| > 1 { PartsAt(row, cols, keys[1..], render, if k == 0 then 0 else k - 1); }
  }

  /** Two rows that are equal in every key column have different hash keys exactly
      when an integer meets a float. */
  lemma {:induction false} HashMissesIff(
    l: Row, lCols: seq<string>, r: Row, rCols: seq<string>, keys: seq<string>, render: Value -> string)
    requires Faithful(render, CellsOf(l) + CellsOf(r)) && HasKey(l, lCols, keys) && HasKey(r, rCols, keys)
    requires KeyCondition(lCols, rCols, keys)(l, r)
    ensures HashKey(lCols, keys, render)(l) != HashKey(rCols, keys, render)(r) <==> MixedKey(l, lCols, r, rCols, keys)
  {
    var a, b := KeyParts(l, lCols, keys, render), KeyParts(r, rCols, keys, render);
    if keys != [] {
      PartsAt(l, lCols, keys, render, 0);
      PartsAt(r, rCols, keys, render, 0);
    }
    forall k: nat | k < |keys|
      ensures a[k] == b[k] <==> !CellsMixed(Cell(l, lCols, keys[k]), Cell(r, rCols, keys[k]))
      ensures a[k] == b[k] || ('|' !in a[k] && '|' !in b[k])
    {
      PartsAt(l, lCols, keys, render, k);
      PartsAt(r, rCols, keys, render, k);
      assert CellsEqual(Cell(l, lCols, keys[k]), Cell(r, rCols, keys[k]));
      EqualUnlessMixed(Cell(l, lCols, keys[k]).value, Cell(r, rCols, keys[k]).value);
    }
    if JoinBar(a) == JoinBar(b) { JoinBarInjective(a, b); }
    if !MixedKey(l, lCols, r, rCols, keys) {
      assert forall k | 0 <= k < |keys| :: keys[k] in keys;
      assert a == b;
    }
  }

  lemma {:induction false} FaithfulOnPair(render: Value -> string, L: seq<Row>, R: seq<Row>, i: int, j: int)
    requires Faithful(render, CellsIn(L) + CellsIn(R)) && 0 <= i < |L| && 0 <= j < |R|
    ensures Faithful(render, CellsOf(L[i]) + CellsOf(R[j]))
  {
    assert CellsOf(L[i]) <= CellsIn(L) && CellsOf(R[j]) <= CellsIn(R);
  }

  /** On an equality condition over the key columns, the hash join is the
      nested-loop join exactly when no satisfying pair mixes integer and float. */
  lemma {:induction false} HashJoinLosesMixedPairs(
    L: seq<Row>, lCols: seq<string>, R: seq<Row>, rCols: seq<string>, keys: seq<string>, render: Value -> string)
    requires Faithful(render, CellsIn(L) + CellsIn(R)) && Keyed(L, lCols, keys) && Keyed(R, rCols, keys)
    ensures var on := KeyCondition(lCols, rCols, keys);
      InnerJoin(L, R, SameKey(HashKey(lCols, keys, render), HashKey(rCols, keys, render), on)) == InnerJoin(L, R, on) <==>
      forall i, j | 0 <= i < |L| && 0 <= j < |R| && on(L[i], R[j]) :: !MixedKey(L[i], lCols, R[j], rCols, keys)
  {
    var on := KeyCondition(lCols, rCols, keys);
    var lk, rk := HashKey(lCols, keys, render), HashKey(rCols, keys, render);
    HashJoinRefinesNestedLoop(L, R, lk, rk, on);
    forall i, j | 0 <= i < |L| && 0 <= j < |R| && on(L[i], R[j])
      ensures lk(L[i]) == rk(R[j]) <==> !MixedKey(L[i], lCols, R[j], rCols, keys)
    {
      assert L[i] in L && R[j] in R;
      FaithfulOnPair(render, L, R, i, j);
      HashMissesIff(L[i], lCols, R[j], rCols, keys, render);
    }
  }

  // ----- sort keys -----

  /** The same for the comparison of the merge join. */
  lemma {:induction false} MergeMissesIff(l: Row, lCols: seq<string>, r: Row, rCols: seq<string>, keys: seq<string>)
    requires HasKey(l, lCols, keys) && HasKey(r, rCols, keys) && KeyCondition(lCols, rCols, keys)(l, r)
    ensures CompareKeyed(l, lCols, r, rCols, keys) != Equal <==> MixedKey(l, lCols, r, rCols, keys)
  {
    if keys != [] {
      var rest := keys[1..];
      assert keys[0] in keys && keys == [keys[0]] + rest;
      assert forall k | k in rest :: k in keys;
      var x, y := Cell(l, lCols, keys[0]), Cell(r, rCols, keys[0]);
      assert CellsEqual(x, y);
      EqualUnlessMixed(x.value, y.value);
      MergeMissesIff(l, lCols, r, rCols, rest);
    }
  }

  lemma {:induction false} MergeJoinLosesMixedPairs(L: seq<Row>, lCols: seq<string>, R: seq<Row>, rCols: seq<string>, keys: seq<string>)
    requires Keyed(L, lCols, keys) && Keyed(R, rCols, keys)
    ensures var on := KeyCondition(lCols, rCols, keys);
      InnerJoin(L, R, EqualKeys(lCols, rCols, keys, on)) == InnerJoin(L, R, on) <==>
      forall i, j | 0 <= i < |L| && 0 <= j < |R| && on(L[i], R[j]) :: !MixedKey(L[i], lCols, R[j], rCols, keys)
  {
    var on := KeyCondition(lCols, rCols, keys);
    JoinRowsNarrowed(L, R, EqualKeys(lCols, rCols, keys, on), on, |L|);
    forall i, j | 0 <= i < |L| && 0 <= j < |R| && on(L[i], R[j])
      ensures CompareKeyed(L[i], lCols, R[j], rCols, keys) == Equal <==> !MixedKey(L[i], lCols, R[j], rCols, keys)
    {
      assert L[i] in L && R[j] in R;
      MergeMissesIff(L[i], lCols, R[j], rCols, keys);
    }
  }

  // ----- the merge join against what the join type asks for -----

  /** `a` can be equal to something. */
  predicate Comparable(a: Option<Value>) {
    CellsEqual(a, a)
  }

  lemma {:induction false} TiedCells(a: Row, b: Row, cols: seq<string>, keys: seq<string>, k: string)
    requires HasKey(a, cols, keys) && HasKey(b, cols, keys) && CompareKeyed(a, cols, b, cols, keys) == Equal
    requires k in keys && Comparable(Cell(b, cols, k))
    ensures Cell(a, cols, k) == Cell(b, cols, k)
  {
    assert keys[0] in keys && keys == [keys[0]] + keys[1..];
    if k == keys[0] {
      var x, y := Cell(a, cols, k).value, Cell(b, cols, k).value;
      assert CompareValues(x, y, NullsDefault) == Equal;
      CompareValuesMeans(x, y, NullsDefault);
    } else {
      TiedCells(a, b, cols, keys[1..], k);
    }
  }

  /** Rows with the same key cells match alike, for the condition and the merge. */
  lemma {:induction false} StandsIn(
    l: Row, l': Row, lCols: seq<string>, r: Row, r': Row, rCols: seq<string>, keys: seq<string>)
    requires HasKey(l, lCols, keys) && HasKey(l', lCols, keys) && HasKey(r, rCols, keys) && HasKey(r', rCols, keys)
    requires CompareKeyed(l', lCols, l, lCols, keys) == Equal && CompareKeyed(r', rCols, r, rCols, keys) == Equal
    requires EqualKeys(lCols, rCols, keys, KeyCondition(lCols, rCols, keys))(l, r)
    ensures EqualKeys(lCols, rCols, keys, KeyCondition(lCols, rCols, keys))(l', r')
  {
    forall k | k in keys
      ensures Cell(l', lCols, k) == Cell(l, lCols, k) && Cell(r', rCols, k) == Cell(r, rCols, k)
      ensures CellsEqual(Cell(l', lCols, k), Cell(r', rCols, k))
    {
      assert CellsEqual(Cell(l, lCols, k), Cell(r, rCols, k));
      TiedCells(l', l, lCols, keys, k);
      TiedCells(r', r, rCols, keys, k);
    }
    MergeMissesIff(l, lCols, r, rCols, keys);
    MergeMissesIff(l', lCols, r', rCols, keys);
  }

  /** A key-equal match makes the first rows of its key match. */
  lemma {:induction false} HeadsMatch(L: seq<Row>, lCols: seq<string>, R: seq<Row>, rCols: seq<string>, keys: seq<string>, i: int, j: int)
    returns (x: int, y: int)
    requires Keyed(L, lCols, keys) && Keyed(R, rCols, keys) && 0 <= i < |L| && 0 <= j < |R|
    requires EqualKeys(lCols, rCols, keys, KeyCondition(lCols, rCols, keys))(L[i], R[j])
    ensures 0 <= x < |L| && 0 <= y < |R| && HeadsOfRuns(L, R, lCols, rCols, keys, x, y)
    ensures EqualKeys(lCols, rCols, keys, KeyCondition(lCols, rCols, keys))(L[x], R[y])
    decreases i + j
  {
    assert L[i] in L && R[j] in R;
    KeyTiesItself(L[i], lCols, keys);
    KeyTiesItself(R[j], rCols, keys);
    if z :| 0 <= z < i && CompareKeyed(L[z], lCols, L[i], lCols, keys) == Equal {
      assert L[z] in L;
      StandsIn(L[i], L[z], lCols, R[j], R[j], rCols, keys);
      x, y := HeadsMatch(L, lCols, R, rCols, keys, z, j);
    } else if z :| 0 <= z < j && CompareKeyed(R[z], rCols, R[j], rCols, keys) == Equal {
      assert R[z] in R;
      StandsIn(L[i], L[i], lCols, R[j], R[z], rCols, keys);
      x, y := HeadsMatch(L, lCols, R, rCols, keys, i, z);
    } else {
      x, y := i, j;
    }
  }

  lemma {:induction false} KeyTiesItself(a: Row, cols: seq<string>, keys: seq<string>)
    ensures CompareKeyed(a, cols, a, cols, keys) == Equal
  {
    if keys != [] {
      var at := Position(cols, keys[0]);
      if at.Some? && at.value < |a| { CompareValuesReflexive(a[at.value], NullsDefault); }
      KeyTiesItself(a, cols, keys[1..]);
    }
  }

  /** What the merge join emits on an equality condition over its sort columns. */
  ghost function MergeBag(L: seq<Row>, lCols: seq<string>, R: seq<Row>, rCols: seq<string>, keys: seq<string>): multiset<Row> {
    var on := KeyCondition(lCols, rCols, keys);
    multiset(InnerJoin(L, R, EqualKeys(lCols, rCols, keys, on))) + multiset(RowsOf(L, R, HeadPairs(L, R, lCols, rCols, keys, on)))
  }

  lemma {:induction false} SplitsOneWay(l: Row, r: Row, l': Row, r': Row)
    requires |l| == |l'| && l + r == l' + r'
    ensures l == l' && r == r'
  {
    assert l == (l + r)[..|l|] && l' == (l' + r')[..|l|];
    assert r == (l + r)[|l|..] && r' == (l' + r')[|l|..];
  }

  /** Every pair that gives the row of a key-equal pair is key-equal. */
  lemma {:induction false} EqualKeysLoseNone(L: seq<Row>, R: seq<Row>, lCols: seq<string>, rCols: seq<string>, keys: seq<string>, on: Condition,
      lw: nat, x: int, y: int)
    requires FixedWidth(L, lw) && 0 <= x < |L| && 0 <= y < |R| && EqualKeys(lCols, rCols, keys, on)(L[x], R[y])
    ensures multiset(InnerJoin(L, R, EqualKeys(lCols, rCols, keys, on)))[L[x] + R[y]] == multiset(InnerJoin(L, R, on))[L[x] + R[y]]
  {
    forall i, j | 0 <= i < |L| && 0 <= j < |R| && L[i] + R[j] == L[x] + R[y] ensures L[i] == L[x] && R[j] == R[y] {
      assert L[i] in L && L[x] in L;
      SplitsOneWay(L[i], R[j], L[x], R[y]);
    }
    JoinRowsSameCount(L, R, EqualKeys(lCols, rCols, keys, on), on, |L|, L[x] + R[y]);
  }

  lemma {:induction false} HeadRowEmitted(L: seq<Row>, R: seq<Row>, lCols: seq<string>, rCols: seq<string>, keys: seq<string>, on: Condition, x: int, y: int)
    requires 0 <= x < |L| && 0 <= y < |R| && HeadsOfRuns(L, R, lCols, rCols, keys, x, y)
    requires EqualKeys(lCols, rCols, keys, on)(L[x], R[y])
    ensures L[x] + R[y] in RowsOf(L, R, HeadPairs(L, R, lCols, rCols, keys, on))
  {
    var heads := HeadPairs(L, R, lCols, rCols, keys, on);
    HeadPairsCount(L, R, lCols, rCols, keys, on, (x, y));
    assert (x, y) in multiset(heads);
    var k :| 0 <= k < |heads| && heads[k] == (x, y);
    assert RowsOf(L, R, heads)[k] == L[x] + R[y];
  }

  /** The row of a matching head pair comes out more often than any join that
      emits rows of both sides asks for. */
  lemma {:induction false} HeadRowTooOften(
    t: JoinType, L: seq<Row>, lCols: seq<string>, R: seq<Row>, rCols: seq<string>, keys: seq<string>, lw: nat, rw: nat, x: int, y: int)
    requires FixedWidth(L, lw) && FixedWidth(R, rw) && 0 <= x < |L| && 0 <= y < |R|
    requires HeadsOfRuns(L, R, lCols, rCols, keys, x, y)
    requires EqualKeys(lCols, rCols, keys, KeyCondition(lCols, rCols, keys))(L[x], R[y])
    ensures MergeBag(L, lCols, R, rCols, keys)[L[x] + R[y]] >
            multiset(OuterJoin(t, L, R, lw, rw, KeyCondition(lCols, rCols, keys)))[L[x] + R[y]]
  {
    var on := KeyCondition(lCols, rCols, keys);
    EqualKeysLoseNone(L, R, lCols, rCols, keys, on, lw, x, y);
    HeadRowEmitted(L, R, lCols, rCols, keys, on, x, y);
    JoinedIsNotPadded(t, L, R, lw, rw, on, x, y);
    OuterCount(InnerJoin(L, R, on), LeftOuter(t, L, R, rw, on), RightOuter(t, L, R, lw, on), L[x] + R[y]);
  }

  lemma {:induction false} OuterCount(inner: seq<Row>, left: seq<Row>, right: seq<Row>, row: Row)
    requires row !in left && row !in right
    ensures multiset(inner + left + right)[row] == multiset(inner)[row]
  {
  }

  lemma {:induction false} MergeBagEmptyIff(L: seq<Row>, lCols: seq<string>, R: seq<Row>, rCols: seq<string>, keys: seq<string>)
    ensures MergeBag(L, lCols, R, rCols, keys) == multiset{} <==>
            NoPair(L, R, EqualKeys(lCols, rCols, keys, KeyCondition(lCols, rCols, keys)))
  {
    var on := KeyCondition(lCols, rCols, keys);
    var both := EqualKeys(lCols, rCols, keys, on);
    JoinRowsMembers(L, R, both, |L|);
    NoHeadsIff(L, R, lCols, rCols, keys, on);
    assert |MergeBag(L, lCols, R, rCols, keys)| == |InnerJoin(L, R, both)| + |RowsOf(L, R, HeadPairs(L, R, lCols, rCols, keys, on))|;
  }

  predicate OneSided(t: JoinType) {
    t.LeftSemi? || t.RightSemi? || t.LeftAnti? || t.RightAnti?
  }

  /** A join of one side emits shorter rows than the merge join. */
  lemma {:induction false} WidthsDiffer(
    t: JoinType, L: seq<Row>, R: seq<Row>, lw: nat, rw: nat, on: Condition, x: int, y: int)
    requires FixedWidth(L, lw) && FixedWidth(R, rw) && 0 <= x < |L| && 0 <= y < |R| && OneSided(t)
    requires if t.LeftSemi? || t.LeftAnti? then rw > 0 else lw > 0
    ensures L[x] + R[y] !in Reference(t, L, R, lw, rw, on)
  {
    assert L[x] in L && R[y] in R;
    match t
    case LeftSemi => KeepHolds(L, PartnerTest(R, on, true), |L|);
    case RightSemi => KeepHolds(R, PartnerTest(L, Flip(on), true), |R|);
    case LeftAnti => KeepHolds(L, PartnerTest(R, on, false), |L|);
    case RightAnti => KeepHolds(R, PartnerTest(L, Flip(on), false), |R|);
  }

  lemma {:induction false} FoundIsWrong(
    t: JoinType, L: seq<Row>, lCols: seq<string>, R: seq<Row>, rCols: seq<string>, keys: seq<string>, lw: nat, rw: nat, i: int, j: int)
    requires Keyed(L, lCols, keys) && Keyed(R, rCols, keys) && FixedWidth(L, lw) && FixedWidth(R, rw)
    requires OneSided(t) ==> if t.LeftSemi? || t.LeftAnti? then rw > 0 else lw > 0
    requires 0 <= i < |L| && 0 <= j < |R| && EqualKeys(lCols, rCols, keys, KeyCondition(lCols, rCols, keys))(L[i], R[j])
    ensures MergeBag(L, lCols, R, rCols, keys) != multiset(Reference(t, L, R, lw, rw, KeyCondition(lCols, rCols, keys)))
  {
    var on := KeyCondition(lCols, rCols, keys);
    var x, y := HeadsMatch(L, lCols, R, rCols, keys, i, j);
    HeadRowTooOften(t, L, lCols, R, rCols, keys, lw, rw, x, y);
    if OneSided(t) { WidthsDiffer(t, L, R, lw, rw, on, x, y); }
  }

  /** The merge join ignores the join type too. On an equality condition over its
      sort columns it gives what any of the nine types asks for, even as a bag of
      rows, only where that is nothing: wherever it finds a match, it emits the
      first one twice. For an anti join, in addition, every match must mix integer
      and float, so that none is found. */
  lemma {:induction false} MergeJoinIsReferenceIff(
    t: JoinType, L: seq<Row>, lCols: seq<string>, R: seq<Row>, rCols: seq<string>, keys: seq<string>, lw: nat, rw: nat)
    requires Keyed(L, lCols, keys) && Keyed(R, rCols, keys) && FixedWidth(L, lw) && FixedWidth(R, rw)
    requires OneSided(t) ==> if t.LeftSemi? || t.LeftAnti? then rw > 0 else lw > 0
    ensures var on := KeyCondition(lCols, rCols, keys);
      MergeBag(L, lCols, R, rCols, keys) == multiset(Reference(t, L, R, lw, rw, on)) <==>
      && NothingAsked(t, L, R, on)
      && forall i, j | 0 <= i < |L| && 0 <= j < |R| && on(L[i], R[j]) :: MixedKey(L[i], lCols, R[j], rCols, keys)
  {
    var on := KeyCondition(lCols, rCols, keys);
    var both, asked := EqualKeys(lCols, rCols, keys, on), Reference(t, L, R, lw, rw, on);
    forall i, j | 0 <= i < |L| && 0 <= j < |R| && on(L[i], R[j])
      ensures both(L[i], R[j]) <==> !MixedKey(L[i], lCols, R[j], rCols, keys)
    {
      assert L[i] in L && R[j] in R;
      MergeMissesIff(L[i], lCols, R[j], rCols, keys);
    }
    MergeBagEmptyIff(L, lCols, R, rCols, keys);
    NothingAskedIff(t, L, R, lw, rw, on);
    if !NoPair(L, R, both) {
      var i, j :| 0 <= i < |L| && 0 <= j < |R| && both(L[i], R[j]);
      FoundIsWrong(t, L, lCols, R, rCols, keys, lw, rw, i, j);
    }
    assert |multiset(asked)| == |asked|;
  }

  /** The merge join on such a condition, asked for a join of type `t`. */
  method ExecuteMergeJoin(
    t: JoinType, L: seq<Row>, lCols: seq<string>, R: seq<Row>, rCols: seq<string>, keys: seq<string>, ghost lw: nat, ghost rw: nat)
    returns (out: seq<Row>)
    requires FixedWidth(L, lw) && FixedWidth(R, rw)
    requires OneSided(t) ==> if t.LeftSemi? || t.LeftAnti? then rw > 0 else lw > 0
    ensures var on := KeyCondition(lCols, rCols, keys);
      Keyed(L, lCols, keys) && Keyed(R, rCols, keys) ==>
      (multiset(out) == multiset(Reference(t, L, R, lw, rw, on)) <==>
       && NothingAsked(t, L, R, on)
       && forall i, j | 0 <= i < |L| && 0 <= j < |R| && on(L[i], R[j]) :: MixedKey(L[i], lCols, R[j], rCols, keys))
  {
    out := SortMergeJoin(L, R, lCols, rCols, keys, KeyCondition(lCols, rCols, keys));
    if Keyed(L, lCols, keys) && Keyed(R, rCols, keys) {
      MergeJoinIsReferenceIff(t, L, lCols, R, rCols, keys, lw, rw);
      assert multiset(out) == MergeBag(L, lCols, R, rCols, keys);
    }
  }
}
