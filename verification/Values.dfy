/** SQL values, rows, and the two comparisons every operator is built on: the
    three-way `CompareValues` used for ordering, and the boolean `ValuesEqual`
    used for duplicate elimination. A float is a `real`, so there is no NaN. */
module Values {

  datatype Option<+T> = None | Some(value: T)

  datatype Value =
    | Null
    | Integer(i: int)
    | Str(s: string)
    | Boolean(b: bool)
    | Float(f: real)
    | Timestamp(t: int)
    | List(vs: seq<Value>)

  type Row = seq<Value>

  datatype Ordering = Less | Equal | Greater {
    function Reverse(): Ordering {
      match this
      case Less => Greater
      case Equal => Equal
      case Greater => Less
    }
  }

  datatype NullsPosition = NullsFirst | NullsLast | NullsDefault

  // ----- three-way comparison -----

  function CompareInts(a: int, b: int): Ordering {
    if a < b then Less else if a > b then Greater else Equal
  }

  function CompareReals(a: real, b: real): Ordering {
    if a < b then Less else if a > b then Greater else Equal
  }

  function CompareBools(a: bool, b: bool): Ordering {
    if a == b then Equal else if b then Less else Greater
  }

  function CompareStrings(a: string, b: string): Ordering {
    if a == [] then (if b == [] then Equal else Less)
    else if b == [] then Greater
    else if a[0] < b[0] then Less
    else if b[0] < a[0] then Greater
    else CompareStrings(a[1..], b[1..])
  }

  function CompareValues(a: Value, b: Value, nulls: NullsPosition): Ordering {
    match (a, b)
    case (Null, Null) => Equal
    case (Null, _) => if nulls.NullsLast? then Greater else Less
    case (_, Null) => if nulls.NullsLast? then Less else Greater
    case (Integer(x), Integer(y)) => CompareInts(x, y)
    case (Float(x), Float(y)) => CompareReals(x, y)
    case (Str(x), Str(y)) => CompareStrings(x, y)
    case (Boolean(x), Boolean(y)) => CompareBools(x, y)
    case (Timestamp(x), Timestamp(y)) => CompareInts(x, y)
    case (Boolean(_), _) => Less
    case (_, Boolean(_)) => Greater
    case (Integer(_), Float(_)) => Less
    case (Float(_), Integer(_)) => Greater
    case (Integer(_), Str(_)) => Less
    case (Str(_), Integer(_)) => Greater
    case (Float(_), Str(_)) => Less
    case (Str(_), Float(_)) => Greater
    case (List(_), List(_)) => Equal
    case (List(_), _) => Less
    case (_, List(_)) => Greater
    case (Timestamp(_), _) => Less
    case (_, Timestamp(_)) => Greater
  }

  lemma {:induction false} CompareStringsReflexive(a: string)
    ensures CompareStrings(a, a) == Equal
  {
    if a != [] { CompareStringsReflexive(a[1..]); }
  }

  lemma {:induction false} CompareStringsReverse(a: string, b: string)
    ensures CompareStrings(b, a) == CompareStrings(a, b).Reverse()
  {
    if a != [] && b != [] { CompareStringsReverse(a[1..], b[1..]); }
  }

  lemma {:induction false} CompareStringsTransitive(a: string, b: string, c: string)
    requires CompareStrings(a, b) != Greater && CompareStrings(b, c) != Greater
    ensures CompareStrings(a, c) != Greater
  {
    if a != [] && b != [] && c != [] && a[0] == b[0] == c[0] {
      CompareStringsTransitive(a[1..], b[1..], c[1..]);
    }
  }

  lemma {:induction false} CompareValuesReflexive(a: Value, nulls: NullsPosition)
    ensures CompareValues(a, a, nulls) == Equal
  {
    if a.Str? { CompareStringsReflexive(a.s); }
  }

  lemma {:induction false} CompareValuesReverse(a: Value, b: Value, nulls: NullsPosition)
    ensures CompareValues(b, a, nulls) == CompareValues(a, b, nulls).Reverse()
  {
    if a.Str? && b.Str? { CompareStringsReverse(a.s, b.s); }
  }

  /** The priority table between different types is consistent: with any
      placement of NULL, comparison is transitive across all seven kinds. */
  lemma {:induction false} CompareValuesTransitive(a: Value, b: Value, c: Value, nulls: NullsPosition)
    requires CompareValues(a, b, nulls) != Greater && CompareValues(b, c, nulls) != Greater
    ensures CompareValues(a, c, nulls) != Greater
  {
    if a.Str? && b.Str? && c.Str? { CompareStringsTransitive(a.s, b.s, c.s); }
  }

  /** Whether two values tie does not depend on where NULLs are placed. */
  lemma {:induction false} TiesIgnoreNullPlacement(a: Value, b: Value, n1: NullsPosition, n2: NullsPosition)
    ensures CompareValues(a, b, n1) == Equal <==> CompareValues(a, b, n2) == Equal
  {
  }

  // ----- what the comparison says about the values -----

  /** The strings agree up to `k`, where `a` ends or has the smaller character. */
  ghost predicate SmallerAt(a: string, b: string, k: nat) {
    && k <= |a| && k < |b| && a[..k] == b[..k]
    && (k == |a| || a[k] < b[k])
  }

  ghost predicate Precedes(a: string, b: string) {
    exists k: nat :: SmallerAt(a, b, k)
  }

  lemma {:induction false} SmallerAtTail(a: string, b: string, k: nat)
    requires a != [] && b != [] && a[0] == b[0]
    ensures SmallerAt(a[1..], b[1..], k) <==> SmallerAt(a, b, k + 1)
  {
    if k < |a| && k < |b| {
      assert a[..k + 1] == [a[0]] + a[1..][..k] && b[..k + 1] == [b[0]] + b[1..][..k];
      assert a[1..][..k] == a[..k + 1][1..] && b[1..][..k] == b[..k + 1][1..];
    }
  }

  /** Strings are ordered as in a dictionary, and tie only with themselves. */
  lemma {:induction false} CompareStringsMeans(a: string, b: string)
    ensures CompareStrings(a, b) == Less <==> Precedes(a, b)
    ensures CompareStrings(a, b) == Equal <==> a == b
  {
    if a != [] && b != [] && a[0] == b[0] {
      CompareStringsMeans(a[1..], b[1..]);
      assert a == [a[0]] + a[1..] && b == [b[0]] + b[1..];
      if k: nat :| SmallerAt(a[1..], b[1..], k) {
        SmallerAtTail(a, b, k);
        assert SmallerAt(a, b, k + 1);
      }
      if k: nat :| SmallerAt(a, b, k) {
        assert k > 0;
        SmallerAtTail(a, b, k - 1);
        assert SmallerAt(a[1..], b[1..], k - 1);
      }
    } else if a != [] && b != [] {
      assert a[..0] == b[..0];
      if a[0] < b[0] { assert SmallerAt(a, b, 0); }
      assert forall k: nat | 0 < k <= |a| && k <= |b| :: a[..k][0] == a[0] && b[..k][0] == b[0];
    } else if b != [] {
      assert SmallerAt(a, b, 0);
    }
  }

  /** The kinds from the smallest to the largest, NULL apart. */
  ghost function KindRank(v: Value): nat {
    match v
    case Boolean(_) => 0
    case List(_) => 1
    case Timestamp(_) => 2
    case Integer(_) => 3
    case Float(_) => 4
    case Str(_) => 5
    case Null => 6
  }

  /** `a` comes before `b`, for values other than NULL. */
  ghost predicate Smaller(a: Value, b: Value) {
    || KindRank(a) < KindRank(b)
    || (a.Integer? && b.Integer? && a.i < b.i)
    || (a.Float? && b.Float? && a.f < b.f)
    || (a.Timestamp? && b.Timestamp? && a.t < b.t)
    || (a.Boolean? && b.Boolean? && !a.b && b.b)
    || (a.Str? && b.Str? && Precedes(a.s, b.s))
  }

  /** Numbers and times by size, false before true, strings as in a dictionary,
      different kinds by rank, lists all tied, and NULL where it is placed. */
  lemma {:induction false} CompareValuesMeans(a: Value, b: Value, nulls: NullsPosition)
    ensures !a.Null? && !b.Null? ==>
      && (CompareValues(a, b, nulls) == Less <==> Smaller(a, b))
      && (CompareValues(a, b, nulls) == Greater <==> Smaller(b, a))
    ensures a.Null? && !b.Null? ==> CompareValues(a, b, nulls) == if nulls.NullsLast? then Greater else Less
    ensures !a.Null? && b.Null? ==> CompareValues(a, b, nulls) == if nulls.NullsLast? then Less else Greater
    ensures a.Null? && b.Null? ==> CompareValues(a, b, nulls) == Equal
    ensures CompareValues(a, b, nulls) == Equal <==> a == b || (a.List? && b.List?)
  {
    if a.Str? && b.Str? {
      CompareStringsMeans(a.s, b.s);
      CompareStringsMeans(b.s, a.s);
      CompareStringsReverse(a.s, b.s);
    }
  }

  // ----- boolean equality used for duplicate elimination -----

  predicate ValuesEqual(a: Value, b: Value) {
    match (a, b)
    case (Null, Null) => true
    case (Integer(x), Integer(y)) => x == y
    case (Float(x), Float(y)) => x == y
    case (Str(x), Str(y)) => x == y
    case (Boolean(x), Boolean(y)) => x == y
    case _ => false
  }

  predicate RowsEqual(a: Row, b: Row) {
    |a| == |b| && forall k | 0 <= k < |a| :: ValuesEqual(a[k], b[k])
  }

  /** Timestamps and lists never equal anything, not even themselves. */
  predicate Comparable(r: Row) {
    forall k | 0 <= k < |r| :: !r[k].Timestamp? && !r[k].List?
  }

  /** `RowsEqual` is identity of rows, except on rows that hold a timestamp or
      a list, which equal nothing. */
  lemma {:induction false} RowsEqualIsIdentityOnComparable(a: Row, b: Row)
    ensures RowsEqual(a, b) <==> a == b && Comparable(a)
  {
    if RowsEqual(a, b) {
      forall k | 0 <= k < |a| ensures a[k] == b[k] && !a[k].Timestamp? && !a[k].List? {
        assert ValuesEqual(a[k], b[k]);
      }
    }
  }

  predicate RowsContain(rows: seq<Row>, target: Row) {
    exists k | 0 <= k < |rows| :: RowsEqual(rows[k], target)
  }

  lemma {:induction false} RowsContainMeans(rows: seq<Row>, target: Row)
    ensures RowsContain(rows, target) <==> target in rows && Comparable(target)
  {
    if RowsContain(rows, target) {
      var k :| 0 <= k < |rows| && RowsEqual(rows[k], target);
      RowsEqualIsIdentityOnComparable(rows[k], target);
    }
    if target in rows && Comparable(target) {
      var k :| 0 <= k < |rows| && rows[k] == target;
      RowsEqualIsIdentityOnComparable(rows[k], target);
    }
  }
}
