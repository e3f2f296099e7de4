/** UNION, INTERSECT and EXCEPT, with and without ALL. For every row, and for
    every pair of inputs, the number of copies in the output is given as a
    function of the number of copies in the two inputs. */
module SetOperations {
  import opened Values

  datatype SetOperator = Union | Intersect | Except

  // ----- multiplicities -----

  /** Copies of a row in the output, from its copies `l` and `r` in the inputs.
      Rows that hold a timestamp or a list are not even equal to themselves, so
      duplicate elimination never sees them and counting never finds them. */
  function Copies(op: SetOperator, all: bool, comparable: bool, l: nat, r: nat): nat {
    match op
    case Union =>
      if all || !comparable then l + r else if l > 0 then l else if r > 0 then 1 else 0
    case Intersect =>
      if !comparable then 0 else if all then Min(l, r) else Min(1, Min(l, r))
    case Except =>
      if !comparable then (if all then 0 else l)
      else if all then (if l > r then l - r else 0)
      else if l > 0 && r == 0 then 1 else 0
  }

  function Min(a: nat, b: nat): nat {
    if a < b then a else b
  }

  /** Section 7.13 of ISO/IEC 9075-2. */
  function StandardCopies(op: SetOperator, all: bool, l: nat, r: nat): nat {
    match op
    case Union => if all then l + r else Min(1, l + r)
    case Intersect => if all then Min(l, r) else Min(1, Min(l, r))
    case Except => if all then (if l > r then l - r else 0) else if l > 0 && r == 0 then 1 else 0
  }

  /** The operator follows the standard on a row except in these cases: UNION
      keeps duplicates that are already in the left input, and rows that hold a
      timestamp or a list are never recognised. */
  lemma {:induction false} FollowsStandardIff(op: SetOperator, all: bool, comparable: bool, l: nat, r: nat)
    ensures Copies(op, all, comparable, l, r) == StandardCopies(op, all, l, r) <==>
      if comparable then op.Union? && !all ==> l <= 1
      else match op
        case Union => all || l + r <= 1
        case Intersect => l == 0 || r == 0
        case Except => if all then l <= r else l == 0 || (l == 1 && r == 0)
  {
  }

  // ----- counting and retaining -----

  function CountRows(rows: seq<Row>, target: Row): nat {
    if rows == [] then 0
    else (if RowsEqual(rows[0], target) then 1 else 0) + CountRows(rows[1..], target)
  }

  lemma {:induction false} CountRowsMeans(rows: seq<Row>, target: Row)
    ensures CountRows(rows, target) == if Comparable(target) then multiset(rows)[target] else 0
  {
    if rows != [] {
      CountRowsMeans(rows[1..], target);
      RowsEqualIsIdentityOnComparable(rows[0], target);
      assert rows == [rows[0]] + rows[1..];
    }
  }

  function Without(rows: seq<Row>, target: Row): seq<Row> {
    if rows == [] then []
    else if RowsEqual(rows[0], target) then Without(rows[1..], target)
    else [rows[0]] + Without(rows[1..], target)
  }

  lemma {:induction false} WithoutCount(rows: seq<Row>, target: Row, x: Row)
    ensures multiset(Without(rows, target))[x] == if x == target && Comparable(x) then 0 else multiset(rows)[x]
  {
    if rows != [] {
      WithoutCount(rows[1..], target, x);
      RowsEqualIsIdentityOnComparable(rows[0], target);
      assert rows == [rows[0]] + rows[1..];
    }
  }

  lemma {:induction false} MultisetPrefix(rows: seq<Row>, i: nat)
    requires i < |rows|
    ensures multiset(rows[..i + 1]) == multiset(rows[..i]) + multiset{rows[i]}
  {
    assert rows[..i + 1] == rows[..i] + [rows[i]];
  }

  // ----- the operators -----

  method PerformUnion(all: bool, left: seq<Row>, right: seq<Row>) returns (out: seq<Row>)
    ensures forall x :: multiset(out)[x] == Copies(Union, all, Comparable(x), multiset(left)[x], multiset(right)[x])
  {
    out := left;
    if all {
      out := out + right;
    } else {
      for i := 0 to |right|
        invariant forall x ::
          multiset(out)[x] == Copies(Union, false, Comparable(x), multiset(left)[x], multiset(right[..i])[x])
      {
        RowsContainMeans(out, right[i]);
        MultisetPrefix(right, i);
        if !RowsContain(out, right[i]) {
          out := out + [right[i]];
        }
      }
      assert right[..|right|] == right;
    }
  }

  /** Drops the copies of `row` that can be found and appends `count` new ones. */
  method ReplaceCopies(rows: seq<Row>, row: Row, count: nat) returns (out: seq<Row>)
    requires !Comparable(row) ==> count == 0
    ensures forall x :: multiset(out)[x] == if x == row && Comparable(x) then count else multiset(rows)[x]
  {
    forall x ensures multiset(Without(rows, row))[x] == if x == row && Comparable(x) then 0 else multiset(rows)[x] {
      WithoutCount(rows, row, x);
    }
    out := Without(rows, row);
    ghost var kept := multiset(out);
    for c := 0 to count
      invariant forall x :: multiset(out)[x] == kept[x] + if x == row then c else 0
    {
      out := out + [row];
    }
  }

  /** Copies of `x` after the first `i` left rows: its final number as soon as it
      has been met. */
  ghost function IntersectSoFar(all: bool, left: seq<Row>, right: seq<Row>, i: nat, x: Row): nat
    requires i <= |left|
  {
    if multiset(left[..i])[x] == 0 then 0
    else Copies(Intersect, all, Comparable(x), multiset(left)[x], multiset(right)[x])
  }

  method PerformIntersect(all: bool, left: seq<Row>, right: seq<Row>) returns (out: seq<Row>)
    ensures forall x :: multiset(out)[x] == Copies(Intersect, all, Comparable(x), multiset(left)[x], multiset(right)[x])
  {
    out := [];
    for i := 0 to |left|
      invariant forall x :: multiset(out)[x] == IntersectSoFar(all, left, right, i, x)
    {
      var row := left[i];
      MultisetPrefix(left, i);
      assert row in multiset(left);
      if all {
        CountRowsMeans(left, row);
        CountRowsMeans(right, row);
        out := ReplaceCopies(out, row, Min(CountRows(left, row), CountRows(right, row)));
      } else {
        RowsContainMeans(right, row);
        RowsContainMeans(out, row);
        if RowsContain(right, row) && !RowsContain(out, row) {
          out := out + [row];
        }
      }
    }
    assert left[..|left|] == left;
  }

  method PerformExcept(all: bool, left: seq<Row>, right: seq<Row>) returns (out: seq<Row>)
    ensures forall x :: multiset(out)[x] == Copies(Except, all, Comparable(x), multiset(left)[x], multiset(right)[x])
  {
    out := [];
    for i := 0 to |left|
      invariant forall x :: multiset(out)[x] == ExceptSoFar(all, left, right, i, x)
    {
      var row := left[i];
      var add := ExceptAdds(all, left, right, out, row);
      MultisetPrefix(left, i);
      if add { out := out + [row]; }
    }
    assert left[..|left|] == left;
  }

  method ExceptAdds(all: bool, left: seq<Row>, right: seq<Row>, out: seq<Row>, row: Row) returns (add: bool)
    ensures all ==> add == (multiset(out)[row] < Copies(Except, true, Comparable(row), multiset(left)[row], multiset(right)[row]))
    ensures !all ==> add == (!Comparable(row) || (multiset(right)[row] == 0 && multiset(out)[row] == 0))
  {
    if all {
      CountRowsMeans(left, row);
      CountRowsMeans(right, row);
      CountRowsMeans(out, row);
      var l, r := CountRows(left, row), CountRows(right, row);
      add := l > r && CountRows(out, row) < l - r;
    } else {
      RowsContainMeans(right, row);
      RowsContainMeans(out, row);
      add := !RowsContain(right, row) && !RowsContain(out, row);
    }
  }

  /** Copies of `x` after the first `i` left rows: EXCEPT ALL keeps the earliest
      copies up to the final number. */
  ghost function ExceptSoFar(all: bool, left: seq<Row>, right: seq<Row>, i: nat, x: Row): nat
    requires i <= |left|
  {
    if all then Min(multiset(left[..i])[x], Copies(Except, true, Comparable(x), multiset(left)[x], multiset(right)[x]))
    else Copies(Except, false, Comparable(x), multiset(left[..i])[x], multiset(right)[x])
  }

  datatype Outcome = Rows(rows: seq<Row>) | IncompatibleColumnCounts

  method ExecuteSetOperation(op: SetOperator, all: bool, left: seq<Row>, right: seq<Row>, leftWidth: nat, rightWidth: nat)
    returns (out: Outcome)
    ensures out.Rows? <==> leftWidth == rightWidth
    ensures out.Rows? ==>
      forall x :: multiset(out.rows)[x] == Copies(op, all, Comparable(x), multiset(left)[x], multiset(right)[x])
  {
    if leftWidth != rightWidth { return IncompatibleColumnCounts; }
    var rows;
    match op {
      case Union => rows := PerformUnion(all, left, right);
      case Intersect => rows := PerformIntersect(all, left, right);
      case Except => rows := PerformExcept(all, left, right);
    }
    return Rows(rows);
  }
}
