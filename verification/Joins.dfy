/** The nested-loop join operator in all nine join types, and the hash join that
    is put in its place. Join conditions are arbitrary predicates on a pair
    of rows. Two views of an inner join are kept side by side: the rows it
    emits, and the pairs of input positions those rows come from. */
module Joins {
  import opened Values

  datatype JoinType = Inner | Left | Right | Full | Cross | LeftAnti | LeftSemi | RightAnti | RightSemi

  type Condition = (Row, Row) -> bool

  // ----- reference definitions -----

  /** `l` joined to those of the first `n` rows of `R` that satisfy the condition. */
  function MatchRows(l: Row, R: seq<Row>, on: Condition, n: nat): seq<Row>
    requires n <= |R|
  {
    if n == 0 then []
    else if on(l, R[n - 1]) then MatchRows(l, R, on, n - 1) + [l + R[n - 1]]
    else MatchRows(l, R, on, n - 1)
  }

  function JoinRows(L: seq<Row>, R: seq<Row>, on: Condition, m: nat): seq<Row>
    requires m <= |L|
  {
    if m == 0 then [] else JoinRows(L, R, on, m - 1) + MatchRows(L[m - 1], R, on, |R|)
  }

  function InnerJoin(L: seq<Row>, R: seq<Row>, on: Condition): seq<Row> {
    JoinRows(L, R, on, |L|)
  }

  function Keep(rows: seq<Row>, keep: Row -> bool, n: nat): seq<Row>
    requires n <= |rows|
  {
    if n == 0 then []
    else if keep(rows[n - 1]) then Keep(rows, keep, n - 1) + [rows[n - 1]]
    else Keep(rows, keep, n - 1)
  }

  function Filter(rows: seq<Row>, keep: Row -> bool): seq<Row> {
    Keep(rows, keep, |rows|)
  }

  /** Does `l` have a partner in `R`? */
  predicate Partnered(l: Row, R: seq<Row>, on: Condition) {
    exists j | 0 <= j < |R| :: on(l, R[j])
  }

  function Flip(on: Condition): Condition {
    (a: Row, b: Row) => on(b, a)
  }

  function PartnerTest(R: seq<Row>, on: Condition, present: bool): Row -> bool {
    (l: Row) => Partnered(l, R, on) == present
  }

  /** The rows of `L` without a partner in `R`. */
  function Unpartnered(L: seq<Row>, R: seq<Row>, on: Condition): seq<Row> {
    Filter(L, PartnerTest(R, on, false))
  }

  function Nulls(width: nat): Row {
    seq(width, _ => Null)
  }

  function PadRight(rows: seq<Row>, width: nat): (out: seq<Row>)
    ensures |out| == |rows|
  {
    seq(|rows|, k requires 0 <= k < |rows| => rows[k] + Nulls(width))
  }

  function PadLeft(rows: seq<Row>, width: nat): (out: seq<Row>)
    ensures |out| == |rows|
  {
    seq(|rows|, k requires 0 <= k < |rows| => Nulls(width) + rows[k])
  }

  /** The padded rows that a join preserves from its left and its right side. */
  function LeftOuter(t: JoinType, L: seq<Row>, R: seq<Row>, rw: nat, on: Condition): seq<Row> {
    if t.Left? || t.Full? then PadRight(Unpartnered(L, R, on), rw) else []
  }

  function RightOuter(t: JoinType, L: seq<Row>, R: seq<Row>, lw: nat, on: Condition): seq<Row> {
    if t.Right? || t.Full? then PadLeft(Unpartnered(R, L, Flip(on)), lw) else []
  }

  /** Section 7.7 of ISO/IEC 9075-2: an outer join is the inner join followed by
      the partnerless rows of the preserved sides, padded with NULLs. */
  function OuterJoin(t: JoinType, L: seq<Row>, R: seq<Row>, lw: nat, rw: nat, on: Condition): seq<Row> {
    InnerJoin(L, R, on) + LeftOuter(t, L, R, rw, on) + RightOuter(t, L, R, lw, on)
  }

  /** What each of the nine join types asks for. A semi or anti join keeps rows of
      one side only. */
  function Reference(t: JoinType, L: seq<Row>, R: seq<Row>, lw: nat, rw: nat, on: Condition): seq<Row> {
    match t
    case LeftSemi => Filter(L, PartnerTest(R, on, true))
    case RightSemi => Filter(R, PartnerTest(L, Flip(on), true))
    case LeftAnti => Filter(L, PartnerTest(R, on, false))
    case RightAnti => Filter(R, PartnerTest(L, Flip(on), false))
    case _ => OuterJoin(t, L, R, lw, rw, on)
  }

  /** The join operator: dispatch on the join type. */
  method ExecuteJoin(t: JoinType, L: seq<Row>, R: seq<Row>, lw: nat, rw: nat, on: Condition) returns (out: seq<Row>)
    ensures out == Reference(t, L, R, lw, rw, on)
  {
    match t
    case LeftSemi => out := SemiOrAntiJoin(false, L, R, on);
    case RightSemi => out := SemiOrAntiJoin(false, R, L, Flip(on));
    case LeftAnti => out := SemiOrAntiJoin(true, L, R, on);
    case RightAnti => out := SemiOrAntiJoin(true, R, L, Flip(on));
    case _ => out := NestedLoopJoin(t, L, R, lw, rw, on);
  }

  // ----- nested loop with match flags -----

  /** INNER, LEFT, RIGHT, FULL and CROSS. */
  method NestedLoopJoin(t: JoinType, L: seq<Row>, R: seq<Row>, lw: nat, rw: nat, on: Condition) returns (out: seq<Row>)
    ensures out == OuterJoin(t, L, R, lw, rw, on)
    ensures exists left, right :: Padded(t, L, R, lw, rw, on, out, left, right)
  {
    var leftMatched := new bool[|L|](_ => false);
    var rightMatched := new bool[|R|](_ => false);
    out := MatchAll(L, R, on, leftMatched, rightMatched);
    assert out + [] == out;
    if t.Left? || t.Full? { out := AppendUnmatchedLeft(out, L, R, rw, on, leftMatched); }
    assert out == InnerJoin(L, R, on) + LeftOuter(t, L, R, rw, on) && out + [] == out;
    if t.Right? || t.Full? { out := AppendUnmatchedRight(out, L, R, lw, on, rightMatched); }
    ghost var left, right := OuterJoinPads(t, L, R, lw, rw, on, out);
  }

  method AppendUnmatchedLeft(rows: seq<Row>, L: seq<Row>, R: seq<Row>, rw: nat, on: Condition, matched: array<bool>)
    returns (out: seq<Row>)
    requires matched.Length == |L| && forall k | 0 <= k < |L| :: matched[k] == Partnered(L[k], R, on)
    ensures out == rows + PadRight(Unpartnered(L, R, on), rw)
  {
    out := rows;
    for i := 0 to |L|
      invariant out == rows + PadRight(Keep(L, PartnerTest(R, on, false), i), rw)
    {
      if !matched[i] { out := out + [L[i] + Nulls(rw)]; }
    }
  }

  method AppendUnmatchedRight(rows: seq<Row>, L: seq<Row>, R: seq<Row>, lw: nat, on: Condition, matched: array<bool>)
    returns (out: seq<Row>)
    requires matched.Length == |R| && forall k | 0 <= k < |R| :: matched[k] == Partnered(R[k], L, Flip(on))
    ensures out == rows + PadLeft(Unpartnered(R, L, Flip(on)), lw)
  {
    out := rows;
    for j := 0 to |R|
      invariant out == rows + PadLeft(Keep(R, PartnerTest(L, Flip(on), false), j), lw)
    {
      if !matched[j] { out := out + [Nulls(lw) + R[j]]; }
    }
  }

  /** The double loop: emits the satisfying pairs and flags the rows it met. */
  method MatchAll(L: seq<Row>, R: seq<Row>, on: Condition, leftMatched: array<bool>, rightMatched: array<bool>)
    returns (out: seq<Row>)
    requires leftMatched.Length == |L| && rightMatched.Length == |R| && leftMatched != rightMatched
    requires forall k | 0 <= k < |L| :: !leftMatched[k]
    requires forall k | 0 <= k < |R| :: !rightMatched[k]
    modifies leftMatched, rightMatched
    ensures out == InnerJoin(L, R, on)
    ensures forall k | 0 <= k < |L| :: leftMatched[k] == Partnered(L[k], R, on)
    ensures forall k | 0 <= k < |R| :: rightMatched[k] == Partnered(R[k], L, Flip(on))
  {
    out := [];
    assert RightFlags(rightMatched[..], L, R, on, 0);
    for i := 0 to |L|
      invariant out == JoinRows(L, R, on, i)
      invariant LeftFlags(leftMatched[..], L, R, on, i) && RightFlags(rightMatched[..], L, R, on, i)
    {
      ghost var left, right := leftMatched[..], rightMatched[..];
      var found := MatchOne(L[i], R, on, rightMatched);
      RightFlagsStep(right, rightMatched[..], L, R, on, i);
      LeftFlagsStep(left, L, R, on, i, found != []);
      out := out + found;
      leftMatched[i] := found != [];
      assert leftMatched[..] == left[i := found != []];
    }
    FlagsMean(leftMatched[..], rightMatched[..], L, R, on);
  }

  /** One of the first `i` rows is a partner of `r`. */
  ghost predicate Met(L: seq<Row>, on: Condition, r: Row, i: nat)
    requires i <= |L|
  {
    exists a | 0 <= a < i :: on(L[a], r)
  }

  /** The flags after the first `i` left rows. */
  ghost predicate LeftFlags(flags: seq<bool>, L: seq<Row>, R: seq<Row>, on: Condition, i: nat) {
    |flags| == |L| && forall k | 0 <= k < |L| :: flags[k] == (k < i && Partnered(L[k], R, on))
  }

  ghost predicate RightFlags(flags: seq<bool>, L: seq<Row>, R: seq<Row>, on: Condition, i: nat) {
    i <= |L| && |flags| == |R| && forall k | 0 <= k < |R| :: flags[k] == Met(L, on, R[k], i)
  }

  lemma {:induction false} LeftFlagsStep(flags: seq<bool>, L: seq<Row>, R: seq<Row>, on: Condition, i: nat, b: bool)
    requires LeftFlags(flags, L, R, on, i) && i < |L| && b == Partnered(L[i], R, on)
    ensures LeftFlags(flags[i := b], L, R, on, i + 1)
  {
  }

  lemma {:induction false} RightFlagsStep(before: seq<bool>, after: seq<bool>, L: seq<Row>, R: seq<Row>, on: Condition, i: nat)
    requires RightFlags(before, L, R, on, i) && i < |L| && |after| == |R|
    requires forall k | 0 <= k < |R| :: after[k] == (before[k] || on(L[i], R[k]))
    ensures RightFlags(after, L, R, on, i + 1)
  {
    forall k | 0 <= k < |R| ensures after[k] == Met(L, on, R[k], i + 1) {
      assert before[k] == Met(L, on, R[k], i);
    }
  }

  lemma {:induction false} FlagsMean(left: seq<bool>, right: seq<bool>, L: seq<Row>, R: seq<Row>, on: Condition)
    requires LeftFlags(left, L, R, on, |L|) && RightFlags(right, L, R, on, |L|)
    ensures forall k | 0 <= k < |L| :: left[k] == Partnered(L[k], R, on)
    ensures forall k | 0 <= k < |R| :: right[k] == Partnered(R[k], L, Flip(on))
  {
    forall k | 0 <= k < |R| ensures right[k] == Partnered(R[k], L, Flip(on)) {
      assert forall a | 0 <= a < |L| :: Flip(on)(R[k], L[a]) == on(L[a], R[k]);
    }
  }

  /** One pass of the inner loop, for the left row `l`. */
  method MatchOne(l: Row, R: seq<Row>, on: Condition, rightMatched: array<bool>) returns (found: seq<Row>)
    requires rightMatched.Length == |R|
    modifies rightMatched
    ensures found == MatchRows(l, R, on, |R|)
    ensures found != [] <==> Partnered(l, R, on)
    ensures forall k | 0 <= k < |R| :: rightMatched[k] == (old(rightMatched[k]) || on(l, R[k]))
  {
    found := [];
    for j := 0 to |R|
      invariant found == MatchRows(l, R, on, j)
      invariant found != [] <==> exists k | 0 <= k < j :: on(l, R[k])
      invariant forall k | 0 <= k < |R| :: rightMatched[k] == (old(rightMatched[k]) || (k < j && on(l, R[k])))
    {
      if on(l, R[j]) {
        found := found + [l + R[j]];
        rightMatched[j] := true;
      }
    }
  }

  // ----- semi and anti joins -----

  /** LEFT SEMI (`anti` false) and LEFT ANTI (`anti` true): scan the right side
      until a partner is found. The right-hand variants run the same loops with
      the inputs and the condition exchanged. */
  method SemiOrAntiJoin(anti: bool, L: seq<Row>, R: seq<Row>, on: Condition) returns (out: seq<Row>)
    ensures out == Filter(L, PartnerTest(R, on, !anti))
  {
    out := [];
    for i := 0 to |L|
      invariant out == Keep(L, PartnerTest(R, on, !anti), i)
    {
      var found := false;
      for j := 0 to |R|
        invariant !found && forall k | 0 <= k < j :: !on(L[i], R[k])
      {
        if on(L[i], R[j]) { found := true; break; }
      }
      if found == !anti { out := out + [L[i]]; }
    }
  }

  lemma {:induction false} KeepPartition(rows: seq<Row>, p: Row -> bool, q: Row -> bool, n: nat)
    requires n <= |rows| && forall k | 0 <= k < |rows| :: p(rows[k]) != q(rows[k])
    ensures multiset(Keep(rows, p, n)) + multiset(Keep(rows, q, n)) == multiset(rows[..n])
  {
    if n != 0 {
      KeepPartition(rows, p, q, n - 1);
      assert rows[..n] == rows[..n - 1] + [rows[n - 1]];
    }
  }

  /** A semi join and the anti join on the same condition split the left input:
      every row, duplicates included, goes to exactly one of them. And a LEFT
      join is the inner join followed by the padded anti join. */
  lemma {:induction false} SemiAndAntiPartition(L: seq<Row>, R: seq<Row>, lw: nat, rw: nat, on: Condition)
    ensures multiset(Filter(L, PartnerTest(R, on, true))) + multiset(Filter(L, PartnerTest(R, on, false))) == multiset(L)
    ensures OuterJoin(Left, L, R, lw, rw, on) ==
            InnerJoin(L, R, on) + PadRight(Filter(L, PartnerTest(R, on, false)), rw)
  {
    KeepPartition(L, PartnerTest(R, on, true), PartnerTest(R, on, false), |L|);
    assert L[..|L|] == L;
    var joined := InnerJoin(L, R, on) + LeftOuter(Left, L, R, rw, on);
    assert joined + [] == joined;
  }

  // ----- what is kept and what is padded -----

  /** `at` lists, in order, exactly the positions whose rows are kept. */
  ghost predicate ListsKept(rows: seq<Row>, keep: Row -> bool, at: seq<nat>) {
    && (forall k, l | 0 <= k < l < |at| :: at[k] < at[l])
    && (forall i: nat :: i in at <==> i < |rows| && keep(rows[i]))
  }

  ghost function KeptAt(rows: seq<Row>, keep: Row -> bool, n: nat): (at: seq<nat>)
    requires n <= |rows|
    ensures |at| == |Keep(rows, keep, n)| && forall k | 0 <= k < |at| :: at[k] < n
  {
    if n == 0 then []
    else if keep(rows[n - 1]) then KeptAt(rows, keep, n - 1) + [n - 1]
    else KeptAt(rows, keep, n - 1)
  }

  lemma {:induction false} KeptAtMember(rows: seq<Row>, keep: Row -> bool, n: nat, i: nat)
    requires n <= |rows|
    ensures i in KeptAt(rows, keep, n) <==> i < n && keep(rows[i])
  {
    if n != 0 { KeptAtMember(rows, keep, n - 1, i); }
  }

  lemma {:induction false} KeptAtRises(rows: seq<Row>, keep: Row -> bool, n: nat, k: nat, l: nat)
    requires n <= |rows| && k < l < |KeptAt(rows, keep, n)|
    ensures KeptAt(rows, keep, n)[k] < KeptAt(rows, keep, n)[l]
  {
    if l < |KeptAt(rows, keep, n - 1)| { KeptAtRises(rows, keep, n - 1, k, l); }
  }

  lemma {:induction false} KeptRow(rows: seq<Row>, keep: Row -> bool, n: nat, k: nat)
    requires n <= |rows| && k < |Keep(rows, keep, n)|
    ensures Keep(rows, keep, n)[k] == rows[KeptAt(rows, keep, n)[k]]
  {
    if k < |Keep(rows, keep, n - 1)| { KeptRow(rows, keep, n - 1, k); }
  }

  /** Filtering leaves exactly the rows that are to be kept, in their order. */
  lemma {:induction false} FilterIsSelection(rows: seq<Row>, keep: Row -> bool) returns (at: seq<nat>)
    ensures ListsKept(rows, keep, at) && |at| == |Filter(rows, keep)|
    ensures forall k | 0 <= k < |at| :: at[k] < |rows| && Filter(rows, keep)[k] == rows[at[k]]
  {
    at := KeptAt(rows, keep, |rows|);
    forall i: nat ensures i in at <==> i < |rows| && keep(rows[i]) { KeptAtMember(rows, keep, |rows|, i); }
    forall k, l | 0 <= k < l < |at| ensures at[k] < at[l] { KeptAtRises(rows, keep, |rows|, k, l); }
    forall k | 0 <= k < |at| ensures Filter(rows, keep)[k] == rows[at[k]] { KeptRow(rows, keep, |rows|, k); }
  }

  lemma {:induction false} KeepCount(rows: seq<Row>, keep: Row -> bool, n: nat, row: Row)
    requires n <= |rows|
    ensures multiset(Keep(rows, keep, n))[row] == if keep(row) then multiset(rows[..n])[row] else 0
  {
    if n != 0 {
      KeepCount(rows, keep, n - 1, row);
      assert rows[..n] == rows[..n - 1] + [rows[n - 1]];
    }
  }

  predicate AllNull(cells: Row) {
    forall c | 0 <= c < |cells| :: cells[c] == Null
  }

  lemma {:induction false} NullsAre(pad: Row, width: nat)
    requires AllNull(pad) && |pad| == width
    ensures Nulls(width) == pad
  {
  }

  lemma {:induction false} PaddedCount(rows: seq<Row>, pad: Row, row: Row)
    requires AllNull(pad)
    ensures multiset(PadRight(rows, |pad|))[row + pad] == multiset(rows)[row]
    ensures multiset(PadLeft(rows, |pad|))[pad + row] == multiset(rows)[row]
  {
    if rows != [] {
      var n := |rows| - 1;
      var rest, last := rows[..n], rows[n];
      NullsAre(pad, |pad|);
      PaddedCount(rest, pad, row);
      assert rows == rest + [last];
      assert PadRight(rows, |pad|) == PadRight(rest, |pad|) + [last + pad];
      assert PadLeft(rows, |pad|) == PadLeft(rest, |pad|) + [pad + last];
      assert (last + pad)[..|last + pad| - |pad|] == last && (row + pad)[..|row + pad| - |pad|] == row;
      assert (pad + last)[|pad|..] == last && (pad + row)[|pad|..] == row;
    }
  }

  /** The padded row `padded` carries `row` and nothing but NULLs beside it. */
  ghost predicate PaddedOnRight(padded: Row, row: Row, width: nat) {
    |padded| == |row| + width && padded[..|row|] == row && AllNull(padded[|row|..])
  }

  ghost predicate PaddedOnLeft(padded: Row, row: Row, width: nat) {
    |padded| == width + |row| && padded[width..] == row && AllNull(padded[..width])
  }

  /** `out` is the inner join followed by `left` and `right`, which hold the partnerless
      rows of the preserved sides, padded. */
  ghost predicate Padded(t: JoinType, L: seq<Row>, R: seq<Row>, lw: nat, rw: nat, on: Condition, out: seq<Row>, left: seq<Row>, right: seq<Row>) {
    && out == InnerJoin(L, R, on) + left + right
    && (!t.Left? && !t.Full? ==> left == []) && (!t.Right? && !t.Full? ==> right == [])
    && (forall padded | padded in left :: exists l | l in L :: !Partnered(l, R, on) && PaddedOnRight(padded, l, rw))
    && (forall padded | padded in right :: exists r | r in R :: !Partnered(r, L, Flip(on)) && PaddedOnLeft(padded, r, lw))
    && (forall l, pad | (t.Left? || t.Full?) && |pad| == rw && AllNull(pad) ::
          multiset(left)[l + pad] == if Partnered(l, R, on) then 0 else multiset(L)[l])
    && (forall r, pad | (t.Right? || t.Full?) && |pad| == lw && AllNull(pad) ::
          multiset(right)[pad + r] == if Partnered(r, L, Flip(on)) then 0 else multiset(R)[r])
  }

  /** A semi or anti join has each row of its side as often as the input, if it has a
      partner or has none, and no other row. */
  lemma {:induction false} OneSidedCounts(L: seq<Row>, R: seq<Row>, lw: nat, rw: nat, on: Condition, row: Row)
    ensures multiset(Reference(LeftSemi, L, R, lw, rw, on))[row] == if Partnered(row, R, on) then multiset(L)[row] else 0
    ensures multiset(Reference(LeftAnti, L, R, lw, rw, on))[row] == if Partnered(row, R, on) then 0 else multiset(L)[row]
    ensures multiset(Reference(RightSemi, L, R, lw, rw, on))[row] == if Partnered(row, L, Flip(on)) then multiset(R)[row] else 0
    ensures multiset(Reference(RightAnti, L, R, lw, rw, on))[row] == if Partnered(row, L, Flip(on)) then 0 else multiset(R)[row]
  {
    SelectedCount(L, R, on, true, row);
    SelectedCount(L, R, on, false, row);
    SelectedCount(R, L, Flip(on), true, row);
    SelectedCount(R, L, Flip(on), false, row);
  }

  /** An outer join has, behind the rows of the inner join, exactly the partnerless
      rows of the preserved sides, each as often as it occurs in its input, with a
      NULL in every column of the other side. */
  lemma {:induction false} OuterJoinPads(t: JoinType, L: seq<Row>, R: seq<Row>, lw: nat, rw: nat, on: Condition, out: seq<Row>)
    returns (left: seq<Row>, right: seq<Row>)
    requires out == OuterJoin(t, L, R, lw, rw, on)
    ensures Padded(t, L, R, lw, rw, on, out, left, right)
  {
    left, right := LeftOuter(t, L, R, rw, on), RightOuter(t, L, R, lw, on);
    PaddedLeftRows(L, R, rw, on);
    PaddedRightRows(R, L, lw, Flip(on));
    forall l, pad | (t.Left? || t.Full?) && |pad| == rw && AllNull(pad)
      ensures multiset(left)[l + pad] == if Partnered(l, R, on) then 0 else multiset(L)[l]
    {
      SelectedCount(L, R, on, false, l);
      PaddedCount(Unpartnered(L, R, on), pad, l);
    }
    forall r, pad | (t.Right? || t.Full?) && |pad| == lw && AllNull(pad)
      ensures multiset(right)[pad + r] == if Partnered(r, L, Flip(on)) then 0 else multiset(R)[r]
    {
      SelectedCount(R, L, Flip(on), false, r);
      PaddedCount(Unpartnered(R, L, Flip(on)), pad, r);
    }
  }

  lemma {:induction false} SelectedCount(L: seq<Row>, R: seq<Row>, on: Condition, present: bool, row: Row)
    ensures multiset(Filter(L, PartnerTest(R, on, present)))[row] == if Partnered(row, R, on) == present then multiset(L)[row] else 0
  {
    KeepCount(L, PartnerTest(R, on, present), |L|, row);
    assert L[..|L|] == L;
  }

  lemma {:induction false} PaddedLeftRows(L: seq<Row>, R: seq<Row>, width: nat, on: Condition)
    ensures forall padded | padded in PadRight(Unpartnered(L, R, on), width) ::
      exists l | l in L :: !Partnered(l, R, on) && PaddedOnRight(padded, l, width)
  {
    var lone := Unpartnered(L, R, on);
    KeepHolds(L, PartnerTest(R, on, false), |L|);
    forall k | 0 <= k < |lone| ensures PaddedOnRight(PadRight(lone, width)[k], lone[k], width) && lone[k] in lone {
      assert PadRight(lone, width)[k] == lone[k] + Nulls(width);
    }
  }

  lemma {:induction false} PaddedRightRows(L: seq<Row>, R: seq<Row>, width: nat, on: Condition)
    ensures forall padded | padded in PadLeft(Unpartnered(L, R, on), width) ::
      exists l | l in L :: !Partnered(l, R, on) && PaddedOnLeft(padded, l, width)
  {
    var lone := Unpartnered(L, R, on);
    KeepHolds(L, PartnerTest(R, on, false), |L|);
    forall k | 0 <= k < |lone| ensures PaddedOnLeft(PadLeft(lone, width)[k], lone[k], width) && lone[k] in lone {
      assert PadLeft(lone, width)[k] == Nulls(width) + lone[k];
    }
  }

  // ----- pairs of positions -----

  type Pair = (int, int)

  function RowPairs(L: seq<Row>, R: seq<Row>, on: Condition, i: nat, b: nat, n: nat): seq<Pair>
    requires i < |L| && b <= n <= |R|
  {
    if n == b then []
    else if on(L[i], R[n - 1]) then RowPairs(L, R, on, i, b, n - 1) + [(i, n - 1)]
    else RowPairs(L, R, on, i, b, n - 1)
  }

  /** The satisfying pairs with left position in `a..m` and right position in
      `b..n`, in the order a double loop meets them. */
  function BlockPairs(L: seq<Row>, R: seq<Row>, on: Condition, a: nat, m: nat, b: nat, n: nat): seq<Pair>
    requires a <= m <= |L| && b <= n <= |R|
  {
    if m == a then [] else BlockPairs(L, R, on, a, m - 1, b, n) + RowPairs(L, R, on, m - 1, b, n)
  }

  function JoinPairs(L: seq<Row>, R: seq<Row>, on: Condition): seq<Pair> {
    BlockPairs(L, R, on, 0, |L|, 0, |R|)
  }

  ghost predicate PairsInRange(L: seq<Row>, R: seq<Row>, pairs: seq<Pair>) {
    forall k | 0 <= k < |pairs| :: 0 <= pairs[k].0 < |L| && 0 <= pairs[k].1 < |R|
  }

  ghost function RowsOf(L: seq<Row>, R: seq<Row>, pairs: seq<Pair>): (out: seq<Row>)
    requires PairsInRange(L, R, pairs)
    ensures |out| == |pairs|
  {
    seq(|pairs|, k requires 0 <= k < |pairs| => L[pairs[k].0] + R[pairs[k].1])
  }

  lemma {:induction false} CountConcat(p: seq<Pair>, q: seq<Pair>, x: Pair)
    ensures multiset(p + q)[x] == multiset(p)[x] + multiset(q)[x]
  {
  }

  lemma {:induction false} RowPairsCount(L: seq<Row>, R: seq<Row>, on: Condition, i: nat, b: nat, n: nat, x: int, y: int)
    requires i < |L| && b <= n <= |R|
    ensures multiset(RowPairs(L, R, on, i, b, n))[(x, y)] == if x == i && b <= y < n && on(L[i], R[y]) then 1 else 0
  {
    if n != b {
      RowPairsCount(L, R, on, i, b, n - 1, x, y);
      CountConcat(RowPairs(L, R, on, i, b, n - 1), [(i, n - 1)], (x, y));
    }
  }

  /** The pair lies in the block and satisfies the condition. */
  predicate Hit(L: seq<Row>, R: seq<Row>, on: Condition, a: nat, m: nat, b: nat, n: nat, x: int, y: int)
    requires a <= m <= |L| && b <= n <= |R|
  {
    a <= x < m && b <= y < n && on(L[x], R[y])
  }

  lemma {:induction false} HitSplit(L: seq<Row>, R: seq<Row>, on: Condition, a: nat, m: nat, b: nat, n: nat, x: int, y: int,
      earlier: seq<Pair>, last: seq<Pair>)
    requires a < m <= |L| && b <= n <= |R|
    requires multiset(earlier)[(x, y)] == if Hit(L, R, on, a, m - 1, b, n, x, y) then 1 else 0
    requires multiset(last)[(x, y)] == if x == m - 1 && b <= y < n && on(L[m - 1], R[y]) then 1 else 0
    ensures multiset(earlier + last)[(x, y)] == if Hit(L, R, on, a, m, b, n, x, y) then 1 else 0
  {
    CountConcat(earlier, last, (x, y));
  }

  /** The double loop meets every satisfying pair of the block exactly once. */
  lemma {:induction false} BlockPairsCount(L: seq<Row>, R: seq<Row>, on: Condition, a: nat, m: nat, b: nat, n: nat, x: int, y: int)
    requires a <= m <= |L| && b <= n <= |R|
    ensures multiset(BlockPairs(L, R, on, a, m, b, n))[(x, y)] == if Hit(L, R, on, a, m, b, n, x, y) then 1 else 0
  {
    if m != a {
      BlockPairsCount(L, R, on, a, m - 1, b, n, x, y);
      RowPairsCount(L, R, on, m - 1, b, n, x, y);
      HitSplit(L, R, on, a, m, b, n, x, y, BlockPairs(L, R, on, a, m - 1, b, n), RowPairs(L, R, on, m - 1, b, n));
    }
  }

  lemma {:induction false} BlockPairsInRange(L: seq<Row>, R: seq<Row>, on: Condition, a: nat, m: nat, b: nat, n: nat)
    requires a <= m <= |L| && b <= n <= |R|
    ensures PairsInRange(L, R, BlockPairs(L, R, on, a, m, b, n))
  {
    if m != a {
      BlockPairsInRange(L, R, on, a, m - 1, b, n);
      RowPairsInRange(L, R, on, m - 1, b, n);
    }
  }

  lemma {:induction false} RowPairsInRange(L: seq<Row>, R: seq<Row>, on: Condition, i: nat, b: nat, n: nat)
    requires i < |L| && b <= n <= |R|
    ensures PairsInRange(L, R, RowPairs(L, R, on, i, b, n))
  {
    if n != b { RowPairsInRange(L, R, on, i, b, n - 1); }
  }

  lemma {:induction false} MatchRowsFromPairs(L: seq<Row>, R: seq<Row>, on: Condition, i: nat, n: nat)
    requires i < |L| && n <= |R|
    ensures PairsInRange(L, R, RowPairs(L, R, on, i, 0, n))
    ensures RowsOf(L, R, RowPairs(L, R, on, i, 0, n)) == MatchRows(L[i], R, on, n)
  {
    if n != 0 { MatchRowsFromPairs(L, R, on, i, n - 1); }
  }

  /** The rows of the inner join are those of its pairs, in order. */
  lemma {:induction false} JoinRowsFromPairs(L: seq<Row>, R: seq<Row>, on: Condition, m: nat)
    requires m <= |L|
    ensures PairsInRange(L, R, BlockPairs(L, R, on, 0, m, 0, |R|))
    ensures RowsOf(L, R, BlockPairs(L, R, on, 0, m, 0, |R|)) == JoinRows(L, R, on, m)
  {
    if m != 0 {
      JoinRowsFromPairs(L, R, on, m - 1);
      MatchRowsFromPairs(L, R, on, m - 1, |R|);
    }
  }

  function Swapped(pairs: seq<Pair>): (out: seq<Pair>)
    ensures |out| == |pairs|
  {
    seq(|pairs|, k requires 0 <= k < |pairs| => (pairs[k].1, pairs[k].0))
  }

  lemma {:induction false} SwappedCount(pairs: seq<Pair>, x: int, y: int)
    ensures multiset(Swapped(pairs))[(x, y)] == multiset(pairs)[(y, x)]
  {
    if pairs != [] {
      var n := |pairs| - 1;
      SwappedCount(pairs[..n], x, y);
      assert pairs == pairs[..n] + [pairs[n]];
      assert Swapped(pairs) == Swapped(pairs[..n]) + [(pairs[n].1, pairs[n].0)];
    }
  }

  lemma {:induction false} SymmetricAt(L: seq<Row>, R: seq<Row>, on: Condition, p: Pair)
    ensures multiset(Swapped(JoinPairs(L, R, on)))[p] == multiset(JoinPairs(R, L, Flip(on)))[p]
  {
    SwappedCount(JoinPairs(L, R, on), p.0, p.1);
    BlockPairsCount(L, R, on, 0, |L|, 0, |R|, p.1, p.0);
    BlockPairsCount(R, L, Flip(on), 0, |R|, 0, |L|, p.0, p.1);
  }

  lemma {:induction false} SameCounts(a: multiset<Pair>, b: multiset<Pair>)
    requires forall p :: a[p] == b[p]
    ensures a == b
  {
  }

  /** Joining with the inputs exchanged meets the same pairs, each once, so a
      RIGHT join is a LEFT join seen from the other side. */
  lemma {:induction false} JoinIsSymmetric(L: seq<Row>, R: seq<Row>, on: Condition)
    ensures multiset(Swapped(JoinPairs(L, R, on))) == multiset(JoinPairs(R, L, Flip(on)))
  {
    var a, b := multiset(Swapped(JoinPairs(L, R, on))), multiset(JoinPairs(R, L, Flip(on)));
    forall p ensures a[p] == b[p] { SymmetricAt(L, R, on, p); }
    SameCounts(a, b);
  }

  // ----- hash join -----

  function Position(columns: seq<string>, name: string): (at: Option<nat>)
    ensures at.Some? ==> at.value < |columns| && columns[at.value] == name && name !in columns[..at.value]
    ensures at.None? ==> name !in columns
  {
    if columns == [] then None
    else if columns[0] == name then Some(0)
    else match Position(columns[1..], name) case None => None case Some(k) => Some(k + 1)
  }

  function SameKey(lk: Row -> string, rk: Row -> string, on: Condition): Condition {
    (l: Row, r: Row) => lk(l) == rk(r) && on(l, r)
  }

  function WithKey(rk: Row -> string, key: string): Row -> bool {
    (r: Row) => rk(r) == key
  }

  method BuildHashTable(R: seq<Row>, rk: Row -> string) returns (table: map<string, seq<Row>>)
    ensures forall k | k in table :: table[k] != []
    ensures forall k :: (if k in table then table[k] else []) == Filter(R, WithKey(rk, k))
  {
    table := map[];
    for i := 0 to |R|
      invariant forall k | k in table :: table[k] != []
      invariant forall k :: (if k in table then table[k] else []) == Keep(R, WithKey(rk, k), i)
    {
      var key := rk(R[i]);
      table := table[key := (if key in table then table[key] else []) + [R[i]]];
    }
  }

  lemma {:induction false} MatchRowsSnoc(l: Row, R: seq<Row>, r: Row, on: Condition, n: nat)
    requires n <= |R|
    ensures MatchRows(l, R + [r], on, n) == MatchRows(l, R, on, n)
  {
    if n != 0 { MatchRowsSnoc(l, R, r, on, n - 1); }
  }

  lemma {:induction false} ProbeBucket(l: Row, R: seq<Row>, lk: Row -> string, rk: Row -> string, on: Condition, n: nat)
    requires n <= |R|
    ensures var b := Keep(R, WithKey(rk, lk(l)), n);
            MatchRows(l, b, on, |b|) == MatchRows(l, R, SameKey(lk, rk, on), n)
  {
    if n != 0 {
      ProbeBucket(l, R, lk, rk, on, n - 1);
      var b := Keep(R, WithKey(rk, lk(l)), n - 1);
      MatchRowsSnoc(l, b, R[n - 1], on, |b|);
    }
  }

  /** Whatever the join type asked for, the hash join emits, in this order, the
      nested-loop inner join restricted to pairs whose keys render alike. */
  method HashJoin(L: seq<Row>, R: seq<Row>, lk: Row -> string, rk: Row -> string, on: Condition) returns (out: seq<Row>)
    ensures out == InnerJoin(L, R, SameKey(lk, rk, on))
  {
    var table := BuildHashTable(R, rk);
    out := [];
    for i := 0 to |L|
      invariant out == JoinRows(L, R, SameKey(lk, rk, on), i)
    {
      var key := lk(L[i]);
      ProbeBucket(L[i], R, lk, rk, on, |R|);
      if key in table {
        var found := Probe(L[i], table[key], on);
        out := out + found;
      } else {
        assert Filter(R, WithKey(rk, key)) == [];
      }
    }
  }

  /** Checks the full condition against each row of a bucket. */
  method Probe(l: Row, bucket: seq<Row>, on: Condition) returns (found: seq<Row>)
    ensures found == MatchRows(l, bucket, on, |bucket|)
  {
    found := [];
    for j := 0 to |bucket|
      invariant found == MatchRows(l, bucket, on, j)
    {
      if on(l, bucket[j]) { found := found + [l + bucket[j]]; }
    }
  }

  /** On the given inputs, `p` holds only where `q` does. */
  ghost predicate Implies(L: seq<Row>, R: seq<Row>, p: Condition, q: Condition, m: nat, n: nat)
    requires m <= |L| && n <= |R|
  {
    forall i, j | 0 <= i < m && 0 <= j < n && p(L[i], R[j]) :: q(L[i], R[j])
  }

  lemma {:induction false} MatchRowsNarrowed(l: Row, R: seq<Row>, narrow: Condition, wide: Condition, n: nat)
    requires n <= |R| && forall j | 0 <= j < n :: narrow(l, R[j]) ==> wide(l, R[j])
    ensures |MatchRows(l, R, narrow, n)| <= |MatchRows(l, R, wide, n)|
    ensures if forall j | 0 <= j < n :: wide(l, R[j]) ==> narrow(l, R[j])
      then MatchRows(l, R, narrow, n) == MatchRows(l, R, wide, n)
      else |MatchRows(l, R, narrow, n)| < |MatchRows(l, R, wide, n)|
  {
    if n != 0 { MatchRowsNarrowed(l, R, narrow, wide, n - 1); }
  }

  lemma {:induction false} JoinRowsNarrowed(L: seq<Row>, R: seq<Row>, narrow: Condition, wide: Condition, m: nat)
    requires m <= |L| && Implies(L, R, narrow, wide, m, |R|)
    ensures |JoinRows(L, R, narrow, m)| <= |JoinRows(L, R, wide, m)|
    ensures if Implies(L, R, wide, narrow, m, |R|)
      then JoinRows(L, R, narrow, m) == JoinRows(L, R, wide, m)
      else |JoinRows(L, R, narrow, m)| < |JoinRows(L, R, wide, m)|
  {
    if m != 0 {
      JoinRowsNarrowed(L, R, narrow, wide, m - 1);
      MatchRowsNarrowed(L[m - 1], R, narrow, wide, |R|);
    }
  }

  /** The hash join reproduces the nested-loop inner join, row for row and in the
      same order, exactly when every satisfying pair has equal hash keys. */
  lemma {:induction false} HashJoinRefinesNestedLoop(L: seq<Row>, R: seq<Row>, lk: Row -> string, rk: Row -> string, on: Condition)
    ensures InnerJoin(L, R, SameKey(lk, rk, on)) == InnerJoin(L, R, on) <==>
            forall i, j | 0 <= i < |L| && 0 <= j < |R| && on(L[i], R[j]) :: lk(L[i]) == rk(R[j])
  {
    JoinRowsNarrowed(L, R, SameKey(lk, rk, on), on, |L|);
  }

  lemma {:induction false} KeepEmptyIff(rows: seq<Row>, keep: Row -> bool, n: nat)
    requires n <= |rows|
    ensures Keep(rows, keep, n) == [] <==> forall k | 0 <= k < n :: !keep(rows[k])
  {
    if n != 0 { KeepEmptyIff(rows, keep, n - 1); }
  }

  /** How many rows an outer join has beyond the inner join. */
  lemma {:induction false} OuterJoinSize(t: JoinType, L: seq<Row>, R: seq<Row>, lw: nat, rw: nat, on: Condition)
    ensures |OuterJoin(t, L, R, lw, rw, on)| == |InnerJoin(L, R, on)|
      + (if t.Left? || t.Full? then |Unpartnered(L, R, on)| else 0)
      + (if t.Right? || t.Full? then |Unpartnered(R, L, Flip(on))| else 0)
  {
  }

  ghost predicate EqualKeysWhereSatisfied(L: seq<Row>, R: seq<Row>, lk: Row -> string, rk: Row -> string, on: Condition) {
    forall i, j | 0 <= i < |L| && 0 <= j < |R| && on(L[i], R[j]) :: lk(L[i]) == rk(R[j])
  }

  ghost predicate AllPartnered(L: seq<Row>, R: seq<Row>, on: Condition) {
    forall i | 0 <= i < |L| :: Partnered(L[i], R, on)
  }

  ghost predicate NonePartnered(L: seq<Row>, R: seq<Row>, on: Condition) {
    forall i | 0 <= i < |L| :: !Partnered(L[i], R, on)
  }

  lemma {:induction false} OuterIsInnerIff(t: JoinType, L: seq<Row>, R: seq<Row>, lw: nat, rw: nat, on: Condition)
    ensures |OuterJoin(t, L, R, lw, rw, on)| >= |InnerJoin(L, R, on)|
    ensures OuterJoin(t, L, R, lw, rw, on) == InnerJoin(L, R, on) <==>
            && (t.Left? || t.Full? ==> AllPartnered(L, R, on))
            && (t.Right? || t.Full? ==> AllPartnered(R, L, Flip(on)))
  {
    KeepEmptyIff(L, PartnerTest(R, on, false), |L|);
    KeepEmptyIff(R, PartnerTest(L, Flip(on), false), |R|);
    OuterJoinSize(t, L, R, lw, rw, on);
  }

  /** The join types that emit rows of both sides. */
  lemma {:induction false} HashJoinIsOuterJoinIff(
    t: JoinType, L: seq<Row>, R: seq<Row>, lw: nat, rw: nat, lk: Row -> string, rk: Row -> string, on: Condition)
    ensures InnerJoin(L, R, SameKey(lk, rk, on)) == OuterJoin(t, L, R, lw, rw, on) <==>
            && EqualKeysWhereSatisfied(L, R, lk, rk, on)
            && (t.Left? || t.Full? ==> AllPartnered(L, R, on))
            && (t.Right? || t.Full? ==> AllPartnered(R, L, Flip(on)))
  {
    var narrow, inner, outer := InnerJoin(L, R, SameKey(lk, rk, on)), InnerJoin(L, R, on), OuterJoin(t, L, R, lw, rw, on);
    OuterIsInnerIff(t, L, R, lw, rw, on);
    HashJoinRefinesNestedLoop(L, R, lk, rk, on);
    HashJoinSize(L, R, lk, rk, on);
    assert narrow == outer <==> narrow == inner && outer == inner;
  }

  lemma {:induction false} HashJoinSize(L: seq<Row>, R: seq<Row>, lk: Row -> string, rk: Row -> string, on: Condition)
    ensures var narrow, inner := InnerJoin(L, R, SameKey(lk, rk, on)), InnerJoin(L, R, on);
      |narrow| <= |inner| && (|narrow| == |inner| ==> narrow == inner)
  {
    JoinRowsNarrowed(L, R, SameKey(lk, rk, on), on, |L|);
  }

  lemma {:induction false} MatchRowsMembers(l: Row, R: seq<Row>, on: Condition, n: nat)
    requires n <= |R|
    ensures forall row | row in MatchRows(l, R, on, n) :: exists j | 0 <= j < n :: on(l, R[j]) && row == l + R[j]
    ensures MatchRows(l, R, on, n) == [] <==> forall j | 0 <= j < n :: !on(l, R[j])
  {
    if n != 0 { MatchRowsMembers(l, R, on, n - 1); }
  }

  lemma {:induction false} JoinRowsMembers(L: seq<Row>, R: seq<Row>, on: Condition, m: nat)
    requires m <= |L|
    ensures forall row | row in JoinRows(L, R, on, m) ::
      exists i, j | 0 <= i < m && 0 <= j < |R| :: on(L[i], R[j]) && row == L[i] + R[j]
    ensures JoinRows(L, R, on, m) == [] <==> forall i, j | 0 <= i < m && 0 <= j < |R| :: !on(L[i], R[j])
  {
    if m != 0 {
      JoinRowsMembers(L, R, on, m - 1);
      MatchRowsMembers(L[m - 1], R, on, |R|);
    }
  }

  lemma {:induction false} KeepMembers(rows: seq<Row>, keep: Row -> bool, n: nat)
    requires n <= |rows|
    ensures forall row | row in Keep(rows, keep, n) :: row in rows
    ensures forall k | 0 <= k < n && keep(rows[k]) :: rows[k] in Keep(rows, keep, n)
  {
    if n != 0 { KeepMembers(rows, keep, n - 1); }
  }

  /** If a join were its own semi join, each of its rows would extend a shorter one. */
  lemma {:induction false} NoEndlessShortening(
    L: seq<Row>, R: seq<Row>, same: Condition, on: Condition, left: bool, rows: seq<Row>, row: Row)
    requires rows == InnerJoin(L, R, same) && row in rows
    requires forall l, r | same(l, r) :: on(l, r)
    requires if left then rows == Filter(L, PartnerTest(R, on, true)) && [] !in R
             else rows == Filter(R, PartnerTest(L, Flip(on), true)) && [] !in L
    ensures false
    decreases |row|
  {
    JoinRowsMembers(L, R, same, |L|);
    var i, j :| 0 <= i < |L| && 0 <= j < |R| && same(L[i], R[j]) && row == L[i] + R[j];
    if left {
      assert Partnered(L[i], R, on) && R[j] in R;
      KeepMembers(L, PartnerTest(R, on, true), |L|);
      NoEndlessShortening(L, R, same, on, left, rows, L[i]);
    } else {
      assert Flip(on)(R[j], L[i]) && L[i] in L;
      assert Partnered(R[j], L, Flip(on));
      KeepMembers(R, PartnerTest(L, Flip(on), true), |R|);
      NoEndlessShortening(L, R, same, on, left, rows, R[j]);
    }
  }

  lemma {:induction false} HashJoinIsSemiJoinIff(
    left: bool, L: seq<Row>, R: seq<Row>, lk: Row -> string, rk: Row -> string, on: Condition)
    requires if left then [] !in R else [] !in L
    ensures var same := SameKey(lk, rk, on);
      if left then InnerJoin(L, R, same) == Filter(L, PartnerTest(R, on, true)) <==> NonePartnered(L, R, on)
      else InnerJoin(L, R, same) == Filter(R, PartnerTest(L, Flip(on), true)) <==> NonePartnered(R, L, Flip(on))
  {
    var same := SameKey(lk, rk, on);
    var rows := InnerJoin(L, R, same);
    JoinRowsMembers(L, R, same, |L|);
    KeepEmptyIff(L, PartnerTest(R, on, true), |L|);
    KeepEmptyIff(R, PartnerTest(L, Flip(on), true), |R|);
    var selected := if left then Filter(L, PartnerTest(R, on, true)) else Filter(R, PartnerTest(L, Flip(on), true));
    if rows == selected && rows != [] { NoEndlessShortening(L, R, same, on, left, rows, rows[0]); }
    if !left && NonePartnered(R, L, Flip(on)) {
      forall i, j | 0 <= i < |L| && 0 <= j < |R| ensures !on(L[i], R[j]) { assert !Partnered(R[j], L, Flip(on)); }
    }
  }

  /** Conditions that agree on the pairs that give a row emit it equally often. */
  lemma {:induction false} MatchRowsSameCount(l: Row, R: seq<Row>, p: Condition, q: Condition, n: nat, row: Row)
    requires n <= |R| && forall j | 0 <= j < n && l + R[j] == row :: p(l, R[j]) == q(l, R[j])
    ensures multiset(MatchRows(l, R, p, n))[row] == multiset(MatchRows(l, R, q, n))[row]
  {
    if n != 0 { MatchRowsSameCount(l, R, p, q, n - 1, row); }
  }

  lemma {:induction false} CountsAgree(a: seq<Row>, b: seq<Row>, c: seq<Row>, d: seq<Row>, row: Row)
    requires multiset(a)[row] == multiset(c)[row] && multiset(b)[row] == multiset(d)[row]
    ensures multiset(a + b)[row] == multiset(c + d)[row]
  {
  }

  /** The conditions agree on the pairs that `l` can form to give the row. */
  ghost predicate AgreeOn(l: Row, R: seq<Row>, p: Condition, q: Condition, row: Row) {
    forall j | 0 <= j < |R| && l + R[j] == row :: p(l, R[j]) == q(l, R[j])
  }

  lemma {:induction false} JoinRowsSameCount(L: seq<Row>, R: seq<Row>, p: Condition, q: Condition, m: nat, row: Row)
    requires m <= |L| && forall i | 0 <= i < m :: AgreeOn(L[i], R, p, q, row)
    ensures multiset(JoinRows(L, R, p, m))[row] == multiset(JoinRows(L, R, q, m))[row]
  {
    if m != 0 {
      JoinRowsSameCount(L, R, p, q, m - 1, row);
      MatchRowsSameCount(L[m - 1], R, p, q, |R|, row);
      CountsAgree(JoinRows(L, R, p, m - 1), MatchRows(L[m - 1], R, p, |R|), JoinRows(L, R, q, m - 1), MatchRows(L[m - 1], R, q, |R|), row);
    }
  }

  ghost predicate FixedWidth(rows: seq<Row>, width: nat) {
    forall row | row in rows :: |row| == width
  }

  /** A joined row of two partners is never a padded row. */
  lemma {:induction false} JoinedIsNotPadded(t: JoinType, L: seq<Row>, R: seq<Row>, lw: nat, rw: nat, on: Condition, x: int, y: int)
    requires FixedWidth(L, lw) && FixedWidth(R, rw) && 0 <= x < |L| && 0 <= y < |R| && on(L[x], R[y])
    ensures L[x] + R[y] !in LeftOuter(t, L, R, rw, on) && L[x] + R[y] !in RightOuter(t, L, R, lw, on)
  {
    var row := L[x] + R[y];
    assert L[x] in L && R[y] in R && row[..lw] == L[x] && row[lw..] == R[y];
    var lone, lone' := Unpartnered(L, R, on), Unpartnered(R, L, Flip(on));
    KeepHolds(L, PartnerTest(R, on, false), |L|);
    KeepHolds(R, PartnerTest(L, Flip(on), false), |R|);
    forall k | 0 <= k < |lone| ensures PadRight(lone, rw)[k] != row {
      assert lone[k] in lone;
      var padded := lone[k] + Nulls(rw);
      assert PadRight(lone, rw)[k] == padded && padded[..lw] == lone[k];
    }
    assert Flip(on)(R[y], L[x]);
    forall k | 0 <= k < |lone'| ensures PadLeft(lone', lw)[k] != row {
      assert lone'[k] in lone';
      var padded := Nulls(lw) + lone'[k];
      assert PadLeft(lone', lw)[k] == padded && padded[lw..] == lone'[k];
    }
  }

  lemma {:induction false} KeepHolds(rows: seq<Row>, keep: Row -> bool, n: nat)
    requires n <= |rows|
    ensures forall row | row in Keep(rows, keep, n) :: row in rows && keep(row)
  {
    if n != 0 { KeepHolds(rows, keep, n - 1); }
  }

  ghost predicate NoPair(L: seq<Row>, R: seq<Row>, on: Condition) {
    forall i, j | 0 <= i < |L| && 0 <= j < |R| :: !on(L[i], R[j])
  }

  /** When each of the join types asks for no row at all. */
  ghost predicate NothingAsked(t: JoinType, L: seq<Row>, R: seq<Row>, on: Condition) {
    match t
    case Left => L == []
    case Right => R == []
    case Full => L == [] && R == []
    case LeftAnti => AllPartnered(L, R, on)
    case RightAnti => AllPartnered(R, L, Flip(on))
    case _ => NoPair(L, R, on)
  }

  lemma {:induction false} PartnersPaired(L: seq<Row>, R: seq<Row>, on: Condition)
    ensures NoPair(L, R, on) <==> NonePartnered(L, R, on)
    ensures NoPair(L, R, on) <==> NonePartnered(R, L, Flip(on))
  {
    forall i, j | 0 <= i < |L| && 0 <= j < |R| && on(L[i], R[j])
      ensures Partnered(L[i], R, on) && Partnered(R[j], L, Flip(on))
    {
      assert Flip(on)(R[j], L[i]);
    }
  }

  lemma {:induction false} NoOuterRowsIff(t: JoinType, L: seq<Row>, R: seq<Row>, lw: nat, rw: nat, on: Condition)
    ensures OuterJoin(t, L, R, lw, rw, on) == [] <==>
      NoPair(L, R, on) && (t.Left? || t.Full? ==> L == []) && (t.Right? || t.Full? ==> R == [])
  {
    JoinRowsMembers(L, R, on, |L|);
    PartnersPaired(L, R, on);
    KeepEmptyIff(L, PartnerTest(R, on, false), |L|);
    KeepEmptyIff(R, PartnerTest(L, Flip(on), false), |R|);
    OuterJoinSize(t, L, R, lw, rw, on);
  }

  lemma {:induction false} NothingAskedIff(t: JoinType, L: seq<Row>, R: seq<Row>, lw: nat, rw: nat, on: Condition)
    ensures Reference(t, L, R, lw, rw, on) == [] <==> NothingAsked(t, L, R, on)
    ensures NothingAsked(t, L, R, on) && !t.LeftAnti? && !t.RightAnti? ==> NoPair(L, R, on)
  {
    PartnersPaired(L, R, on);
    match t
    case LeftSemi => KeepEmptyIff(L, PartnerTest(R, on, true), |L|);
    case RightSemi => KeepEmptyIff(R, PartnerTest(L, Flip(on), true), |R|);
    case LeftAnti => KeepEmptyIff(L, PartnerTest(R, on, false), |L|);
    case RightAnti => KeepEmptyIff(R, PartnerTest(L, Flip(on), false), |R|);
    case _ => NoOuterRowsIff(t, L, R, lw, rw, on);
  }

  /** No joined row looks like a row of `kept`. */
  ghost predicate Apart(L: seq<Row>, R: seq<Row>, kept: seq<Row>) {
    forall l, r | l in L && r in R :: l + r !in kept
  }

  /** Inputs of fixed widths, the other side having at least one column. */
  lemma {:induction false} FixedWidthsAreApart(L: seq<Row>, R: seq<Row>, lw: nat, rw: nat)
    requires FixedWidth(L, lw) && FixedWidth(R, rw)
    ensures rw > 0 ==> Apart(L, R, L) && [] !in R
    ensures lw > 0 ==> Apart(L, R, R) && [] !in L
  {
  }

  /** A join that emits rows of both sides equals a selection of rows of one side
      only where neither has any. */
  lemma {:induction false} JoinIsSelectionIff(L: seq<Row>, R: seq<Row>, on: Condition, kept: seq<Row>, keep: Row -> bool)
    requires Apart(L, R, kept)
    ensures InnerJoin(L, R, on) == Filter(kept, keep) <==>
            && (forall i, j | 0 <= i < |L| && 0 <= j < |R| :: !on(L[i], R[j]))
            && (forall k | 0 <= k < |kept| :: !keep(kept[k]))
  {
    var joined, selected := InnerJoin(L, R, on), Filter(kept, keep);
    JoinRowsMembers(L, R, on, |L|);
    KeepMembers(kept, keep, |kept|);
    KeepEmptyIff(kept, keep, |kept|);
    if joined != [] {
      assert joined[0] in joined;
      var i, j :| 0 <= i < |L| && 0 <= j < |R| && on(L[i], R[j]) && joined[0] == L[i] + R[j];
      assert L[i] in L && R[j] in R;
    }
    if selected != [] { assert selected[0] in kept; }
  }

  /** No satisfying pair has equal keys. */
  ghost predicate NoneEmitted(L: seq<Row>, R: seq<Row>, lk: Row -> string, rk: Row -> string, on: Condition) {
    forall i, j | 0 <= i < |L| && 0 <= j < |R| && on(L[i], R[j]) :: lk(L[i]) != rk(R[j])
  }

  /** When the hash join, which ignores the join type, gives what was asked for. */
  ghost predicate JoinTypeDoesNotMatter(
    t: JoinType, L: seq<Row>, R: seq<Row>, lk: Row -> string, rk: Row -> string, on: Condition) {
    match t
    case LeftSemi => NonePartnered(L, R, on)
    case RightSemi => NonePartnered(R, L, Flip(on))
    case LeftAnti => NoneEmitted(L, R, lk, rk, on) && AllPartnered(L, R, on)
    case RightAnti => NoneEmitted(L, R, lk, rk, on) && AllPartnered(R, L, Flip(on))
    case _ =>
      && EqualKeysWhereSatisfied(L, R, lk, rk, on)
      && (t.Left? || t.Full? ==> AllPartnered(L, R, on))
      && (t.Right? || t.Full? ==> AllPartnered(R, L, Flip(on)))
  }

  /** For all nine join types, the hash join gives what was asked for, row for row,
      exactly under these conditions: for the types that emit both sides, every
      satisfying pair has equal keys and every preserved row has a partner; for a
      semi join, nothing has a partner; for an anti join, everything has a partner
      but never one with an equal key. */
  lemma {:induction false} HashJoinIsReferenceIff(
    t: JoinType, L: seq<Row>, R: seq<Row>, lw: nat, rw: nat, lk: Row -> string, rk: Row -> string, on: Condition)
    requires (t.LeftSemi? ==> [] !in R) && (t.RightSemi? ==> [] !in L)
    requires (t.LeftAnti? ==> Apart(L, R, L)) && (t.RightAnti? ==> Apart(L, R, R))
    ensures InnerJoin(L, R, SameKey(lk, rk, on)) == Reference(t, L, R, lw, rw, on) <==>
            JoinTypeDoesNotMatter(t, L, R, lk, rk, on)
  {
    var same := SameKey(lk, rk, on);
    match t
    case LeftSemi => HashJoinIsSemiJoinIff(true, L, R, lk, rk, on);
    case RightSemi => HashJoinIsSemiJoinIff(false, L, R, lk, rk, on);
    case LeftAnti => JoinIsSelectionIff(L, R, same, L, PartnerTest(R, on, false));
    case RightAnti => JoinIsSelectionIff(L, R, same, R, PartnerTest(L, Flip(on), false));
    case _ => HashJoinIsOuterJoinIff(t, L, R, lw, rw, lk, rk, on);
  }

  /** A LEFT SEMI join of two single rows that match: the hash join emits the
      joined row instead of the left one. */
  lemma {:induction false} SemiJoinLost(l: Row, r: Row, lk: Row -> string, rk: Row -> string, on: Condition)
    requires on(l, r) && lk(l) == rk(r) && r != []
    ensures Reference(LeftSemi, [l], [r], |l|, |r|, on) == [l]
    ensures InnerJoin([l], [r], SameKey(lk, rk, on)) == [l + r] != [l]
  {
    assert on(l, [r][0]);
    assert Keep([l], PartnerTest([r], on, true), 0) == [];
    assert MatchRows(l, [r], SameKey(lk, rk, on), 0) == [];
    assert JoinRows([l], [r], SameKey(lk, rk, on), 0) == [];
    assert |l + r| != |l|;
  }

  /** Why the anti case asks for more than a non-empty other side: here the row that
      is kept looks like the joined row, and the results coincide by accident. */
  lemma {:induction false} AntiJoinCoincidence(a: Row, r: Row, lk: Row -> string, rk: Row -> string, on: Condition)
    requires on(a, r) && !on(a + r, r) && lk(a) == rk(r)
    ensures InnerJoin([a, a + r], [r], SameKey(lk, rk, on)) == Reference(LeftAnti, [a, a + r], [r], |a|, |r|, on) == [a + r]
    ensures !JoinTypeDoesNotMatter(LeftAnti, [a, a + r], [r], lk, rk, on)
  {
    var L, R, same, alone := [a, a + r], [r], SameKey(lk, rk, on), PartnerTest([r], on, false);
    assert on(a, R[0]) && L[0] == a && L[1] == a + r;
    assert Keep(L, alone, 0) == [] && Keep(L, alone, 1) == [] && Keep(L, alone, 2) == [a + r];
    assert MatchRows(a, R, same, 0) == [] && MatchRows(a + r, R, same, 0) == [];
    assert MatchRows(a, R, same, 1) == [a + r] && MatchRows(a + r, R, same, 1) == [];
    assert JoinRows(L, R, same, 0) == [] && JoinRows(L, R, same, 1) == [a + r];
    assert JoinRows(L, R, same, 2) == [a + r] + [];
  }
}
