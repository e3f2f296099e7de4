/** The in-memory table store, the DELETE operator that removes rows by position,
    and the restoring of deleted rows on rollback. */
module TableStore {
  import opened Values
  import opened Sorting

  datatype Error = TableNotFound | RowNotFound

  datatype Result<T> = Ok(value: T) | Err(error: Error)

  /** A scanned row carries its position in the snapshot as its identifier. */
  datatype RowData = RowData(values: Row, rowId: nat)

  /** One entry of a transaction's log of deletions. */
  datatype Deletion = Deletion(table: string, row: RowData)

  // ----- edits of one table -----

  function RemoveAt(data: seq<Row>, i: nat): seq<Row>
    requires i < |data|
  {
    data[..i] + data[i + 1..]
  }

  function EmptyRows(n: nat): (rows: seq<Row>)
    ensures |rows| == n
  {
    seq(n, _ => [])
  }

  /** Padding makes the table longer than the position, so a restored last row
      is followed by an empty one. */
  function Restored(data: seq<Row>, i: nat, row: Row): seq<Row> {
    if i < |data| then data[..i] + [row] + data[i..]
    else data + EmptyRows(i - |data|) + [row] + [[]]
  }

  lemma {:induction false} PaddedInsert(table: seq<Row>, i: nat, row: Row, data: seq<Row>)
    requires |table| <= |data| && data == table + EmptyRows(|data| - |table|)
    requires i < |data| && |data| <= (if i < |table| then |table| else i + 1)
    ensures data[..i] + [row] + data[i..] == Restored(table, i, row)
  {
    if i < |table| {
      assert data == table;
    } else {
      assert data[..i] == table + EmptyRows(i - |table|) && data[i..] == [[]];
    }
  }

  class TableManager {
    var tables: map<string, seq<Row>>

    constructor ()
      ensures tables == map[]
    {
      tables := map[];
    }

    method Select(table: string) returns (r: Result<seq<Row>>)
      ensures r == if table in tables then Ok(tables[table]) else Err(TableNotFound)
    {
      if table in tables { return Ok(tables[table]); }
      return Err(TableNotFound);
    }

    method DeleteRow(table: string, i: nat) returns (r: Result<Row>)
      modifies this
      ensures r.Ok? <==> table in old(tables) && i < |old(tables)[table]|
      ensures r.Ok? ==> r.value == old(tables)[table][i] && tables == old(tables)[table := RemoveAt(old(tables)[table], i)]
      ensures r.Err? ==> tables == old(tables) && r.error == if table in tables then RowNotFound else TableNotFound
    {
      if table !in tables { return Err(TableNotFound); }
      var data := tables[table];
      if i >= |data| { return Err(RowNotFound); }
      tables := tables[table := RemoveAt(data, i)];
      return Ok(data[i]);
    }

    method RestoreRow(table: string, i: nat, row: Row) returns (r: Result<()>)
      modifies this
      ensures r.Ok? <==> table in old(tables)
      ensures r.Ok? ==> tables == old(tables)[table := Restored(old(tables)[table], i, row)]
      ensures r.Err? ==> tables == old(tables) && r.error == TableNotFound
    {
      if table !in tables { return Err(TableNotFound); }
      var data := tables[table];
      while i >= |data|
        invariant |data| <= (if i < |tables[table]| then |tables[table]| else i + 1)
        invariant |tables[table]| <= |data| && data == tables[table] + EmptyRows(|data| - |tables[table]|)
        decreases i + 1 - |data|
      {
        data := data + [[]];
      }
      PaddedInsert(tables[table], i, row, data);
      tables := tables[table := data[..i] + [row] + data[i..]];
      return Ok(());
    }

    /** Scans a snapshot: row identifiers are positions. */
    method ScanAll(table: string) returns (r: Result<seq<RowData>>)
      ensures r.Ok? <==> table in tables
      ensures r.Ok? ==> r.value == Numbered(tables[table])
      ensures r.Err? ==> r.error == TableNotFound
    {
      var rows := Select(table);
      if rows.Err? { return Err(rows.error); }
      return Ok(Numbered(rows.value));
    }

    /** DELETE: collects the matching rows of a snapshot, sorts them by descending
        position, and removes them one at a time. What is left are exactly the
        other rows in their order; `log` holds the removed rows. */
    method DeleteWhere(table: string, matches: Row -> bool) returns (r: Result<nat>, ghost log: seq<RowData>)
      modifies this
      ensures r.Ok? <==> table in old(tables)
      ensures r.Err? ==> tables == old(tables) && r.error == TableNotFound
      ensures r.Ok? ==>
        && tables == old(tables)[table := Kept(old(tables)[table], matches, 0)]
        && log == Matching(old(tables)[table], matches, |old(tables)[table]|) && r.value == |log|
    {
      var scan := ScanAll(table);
      if scan.Err? { return Err(TableNotFound), []; }
      ghost var data := tables[table];
      var victims := CollectMatching(scan.value, matches, data);
      log := victims;
      var descending := StableSort(victims, ByDescendingId());
      MatchingAscending(data, matches, |data|);
      DescendingIsReverse(victims);
      DeleteEach(table, descending, data, matches);
      return Ok(|victims|), log;
    }

    method DeleteEach(table: string, descending: seq<RowData>, ghost data: seq<Row>, ghost matches: Row -> bool)
      requires table in tables && tables[table] == data && |descending| == |Matching(data, matches, |data|)|
      requires forall n | 0 <= n < |descending| :: descending[n] == Matching(data, matches, |data|)[|descending| - 1 - n]
      modifies this
      ensures tables == old(tables)[table := Kept(data, matches, 0)]
    {
      ghost var k: nat, victims := |data|, Matching(data, matches, |data|);
      assert Remaining(data, matches, k) == data && victims[..|victims|] == victims;
      for n := 0 to |descending|
        invariant k <= |data| && Matching(data, matches, k) == victims[..|descending| - n]
        invariant tables == old(tables)[table := Remaining(data, matches, k)]
      {
        k := DeleteStep(data, matches, victims, k, |descending| - 1 - n);
        var removed := DeleteRow(table, descending[n].rowId);
      }
      NoneMatching(data, matches, k);
    }

    /** Rollback: feeds the logged rows back in the order the log yields them.
        Entries of a table that is gone are passed over. */
    method RestoreAll(log: seq<Deletion>)
      modifies this
      ensures tables.Keys == old(tables).Keys
      ensures forall t | t in tables :: tables[t] == RolledBack(old(tables)[t], log, |log|, t)
    {
      for n := 0 to |log|
        invariant tables == RestoredTables(old(tables), log, n)
      {
        var r := RestoreRow(log[n].table, log[n].row.rowId, log[n].row.values);
      }
      RestoredTablesMeans(old(tables), log, |log|);
    }
  }

  function Numbered(data: seq<Row>): (rows: seq<RowData>)
    ensures |rows| == |data| && forall i | 0 <= i < |data| :: rows[i] == RowData(data[i], i)
  {
    seq(|data|, i requires 0 <= i < |data| => RowData(data[i], i))
  }

  // ----- what DELETE leaves and takes -----

  /** The rows from position `k` on that do not match. */
  function Kept(data: seq<Row>, matches: Row -> bool, k: nat): seq<Row>
    requires k <= |data|
    decreases |data| - k
  {
    if k == |data| then []
    else if matches(data[k]) then Kept(data, matches, k + 1)
    else [data[k]] + Kept(data, matches, k + 1)
  }

  /** The matching rows before position `k`, ascending. */
  function Matching(data: seq<Row>, matches: Row -> bool, k: nat): seq<RowData>
    requires k <= |data|
  {
    if k == 0 then []
    else if matches(data[k - 1]) then Matching(data, matches, k - 1) + [RowData(data[k - 1], k - 1)]
    else Matching(data, matches, k - 1)
  }

  method CollectMatching(rows: seq<RowData>, matches: Row -> bool, ghost data: seq<Row>) returns (found: seq<RowData>)
    requires rows == Numbered(data)
    ensures found == Matching(data, matches, |data|)
  {
    found := [];
    for i := 0 to |rows|
      invariant found == Matching(data, matches, i)
    {
      if matches(rows[i].values) { found := found + [rows[i]]; }
    }
  }

  function ByDescendingId(): (RowData, RowData) -> Ordering {
    (a: RowData, b: RowData) => CompareInts(b.rowId, a.rowId)
  }

  lemma {:induction false} MatchingAscending(data: seq<Row>, matches: Row -> bool, k: nat)
    requires k <= |data|
    ensures forall i | 0 <= i < |Matching(data, matches, k)| :: Matching(data, matches, k)[i].rowId < k
    ensures forall i, j | 0 <= i < j < |Matching(data, matches, k)| ::
              Matching(data, matches, k)[i].rowId < Matching(data, matches, k)[j].rowId
  {
    if k != 0 { MatchingAscending(data, matches, k - 1); }
  }

  /** Sorting rows with ascending identifiers by descending ones reverses them. */
  lemma {:induction false} DescendingIsReverse(rows: seq<RowData>)
    requires forall i, j | 0 <= i < j < |rows| :: rows[i].rowId < rows[j].rowId
    ensures var d := StableSort(rows, ByDescendingId());
      |d| == |rows| && forall n | 0 <= n < |d| :: d[n] == rows[|rows| - 1 - n]
  {
    var cmp := ByDescendingId();
    var p: seq<nat> := seq(|rows|, n requires 0 <= n < |rows| => |rows| - 1 - n);
    forall m: nat ensures m in p <==> m < |rows| {
      if m < |rows| { assert p[|rows| - 1 - m] == m; }
    }
    DescendingIsPreorder(rows);
    assert Ascending(rows, cmp, p);
    StableOrderUnique(rows, cmp, p);
  }

  lemma {:induction false} DescendingIsPreorder(rows: seq<RowData>)
    ensures Preorder(rows, ByDescendingId())
  {
  }

  /** The largest matching position below `k`. */
  lemma {:induction false} LastMatching(data: seq<Row>, matches: Row -> bool, k: nat) returns (i: nat)
    requires k <= |data| && Matching(data, matches, k) != []
    ensures i < k && matches(data[i]) && forall j | i < j < k :: !matches(data[j])
    ensures Matching(data, matches, k) == Matching(data, matches, i) + [RowData(data[i], i)]
  {
    if matches(data[k - 1]) { i := k - 1; } else { i := LastMatching(data, matches, k - 1); }
  }

  lemma {:induction false} KeptSpan(data: seq<Row>, matches: Row -> bool, i: nat, k: nat)
    requires i <= k <= |data| && forall j | i <= j < k :: !matches(data[j])
    ensures Kept(data, matches, i) == data[i..k] + Kept(data, matches, k)
    decreases k - i
  {
    if i == k {
      assert data[i..k] == [];
    } else {
      KeptSpan(data, matches, i + 1, k);
      var span, rest := data[i + 1..k], Kept(data, matches, k);
      assert data[i..k] == [data[i]] + span;
      assert [data[i]] + (span + rest) == ([data[i]] + span) + rest;
    }
  }

  lemma {:induction false} RemoveMiddle(a: seq<Row>, x: Row, b: seq<Row>)
    ensures RemoveAt(a + [x] + b, |a|) == a + b
  {
  }

  lemma {:induction false} Regroup(a: seq<Row>, b: seq<Row>, c: seq<Row>)
    ensures (a + b) + c == a + (b + c)
  {
  }

  lemma {:induction false} RemoveMatching(data: seq<Row>, matches: Row -> bool, i: nat, k: nat)
    requires i < k <= |data| && matches(data[i]) && forall j | i < j < k :: !matches(data[j])
    ensures RemoveAt(data[..k] + Kept(data, matches, k), i) == data[..i] + Kept(data, matches, i)
  {
    var front, span, rest := data[..i], data[i + 1..k], Kept(data, matches, k);
    KeptSpan(data, matches, i + 1, k);
    assert Kept(data, matches, i) == span + rest;
    assert data[..k] == (front + [data[i]]) + span;
    Regroup(front + [data[i]], span, rest);
    RemoveMiddle(front, data[i], span + rest);
  }

  /** The table once the matching rows from `k` on are gone. */
  function Remaining(data: seq<Row>, matches: Row -> bool, k: nat): seq<Row>
    requires k <= |data|
  {
    data[..k] + Kept(data, matches, k)
  }

  lemma {:induction false} DeleteStep(data: seq<Row>, matches: Row -> bool, victims: seq<RowData>, k: nat, m: nat) returns (i: nat)
    requires k <= |data| && m < |victims| && Matching(data, matches, k) == victims[..m + 1]
    ensures i < k && victims[m] == RowData(data[i], i) && i < |Remaining(data, matches, k)|
    ensures RemoveAt(Remaining(data, matches, k), i) == Remaining(data, matches, i)
    ensures Matching(data, matches, i) == victims[..m]
  {
    i := LastMatching(data, matches, k);
    RemoveMatching(data, matches, i, k);
    assert victims[..m + 1] == victims[..m] + [victims[m]];
    var before := Matching(data, matches, i);
    assert (before + [RowData(data[i], i)])[..|before|] == before;
    assert (victims[..m] + [victims[m]])[..m] == victims[..m];
  }

  lemma {:induction false} NoneMatching(data: seq<Row>, matches: Row -> bool, k: nat)
    requires k <= |data| && Matching(data, matches, k) == []
    ensures data[..k] + Kept(data, matches, k) == Kept(data, matches, 0)
  {
    if k != 0 {
      NoneMatching(data, matches, k - 1);
      assert data[..k] == data[..k - 1] + [data[k - 1]];
    }
  }

  // ----- restoring -----

  function RestoredAll(data: seq<Row>, log: seq<RowData>, n: nat): seq<Row>
    requires n <= |log|
  {
    if n == 0 then data else Restored(RestoredAll(data, log, n - 1), log[n - 1].rowId, log[n - 1].values)
  }

  lemma {:induction false} RestoredAllConcat(data: seq<Row>, log: seq<RowData>, last: RowData, n: nat)
    requires n <= |log|
    ensures RestoredAll(data, log + [last], n) == RestoredAll(data, log, n)
  {
    if n != 0 { RestoredAllConcat(data, log, last, n - 1); }
  }

  lemma {:induction false} RestoredAllSnoc(data: seq<Row>, log: seq<RowData>, last: RowData)
    ensures RestoredAll(data, log + [last], |log| + 1) == Restored(RestoredAll(data, log, |log|), last.rowId, last.values)
  {
    RestoredAllConcat(data, log, last, |log|);
  }

  /** The first `n` logged rows that belong to the table. */
  function RowsFor(log: seq<Deletion>, n: nat, table: string): seq<RowData>
    requires n <= |log|
  {
    if n == 0 then []
    else if log[n - 1].table == table then RowsFor(log, n - 1, table) + [log[n - 1].row]
    else RowsFor(log, n - 1, table)
  }

  function RolledBack(data: seq<Row>, log: seq<Deletion>, n: nat, table: string): seq<Row>
    requires n <= |log|
  {
    var rows := RowsFor(log, n, table);
    RestoredAll(data, rows, |rows|)
  }

  lemma {:induction false} RolledBackStep(data: seq<Row>, log: seq<Deletion>, n: nat, table: string)
    requires n < |log|
    ensures RolledBack(data, log, n + 1, table) ==
      if log[n].table == table then Restored(RolledBack(data, log, n, table), log[n].row.rowId, log[n].row.values)
      else RolledBack(data, log, n, table)
  {
    RestoredAllSnoc(data, RowsFor(log, n, table), log[n].row);
  }

  /** All tables after the first `n` log entries; those of other tables are skipped. */
  function RestoredTables(tables: map<string, seq<Row>>, log: seq<Deletion>, n: nat): map<string, seq<Row>>
    requires n <= |log|
  {
    if n == 0 then tables
    else
      var before, d := RestoredTables(tables, log, n - 1), log[n - 1];
      if d.table in before then before[d.table := Restored(before[d.table], d.row.rowId, d.row.values)] else before
  }

  lemma {:induction false} RestoredTablesMeans(tables: map<string, seq<Row>>, log: seq<Deletion>, n: nat)
    requires n <= |log|
    ensures RestoredTables(tables, log, n).Keys == tables.Keys
    ensures forall t | t in tables :: RestoredTables(tables, log, n)[t] == RolledBack(tables[t], log, n, t)
  {
    if n != 0 {
      RestoredTablesMeans(tables, log, n - 1);
      forall t | t in tables ensures RestoredTables(tables, log, n)[t] == RolledBack(tables[t], log, n, t) {
        RolledBackStep(tables[t], log, n - 1, t);
      }
    }
  }

  /** The surplus empty row appears when the row restored last has nothing kept
      behind it. */
  function Surplus(data: seq<Row>, matches: Row -> bool, k: nat): seq<Row>
    requires k <= |data|
  {
    if k > 0 && Kept(data, matches, k - 1) == [] then [[]] else []
  }

  /** What stands behind position `k` once the matching rows below it are back. */
  function Tail(data: seq<Row>, matches: Row -> bool, k: nat): seq<Row>
    requires k <= |data|
  {
    Kept(data, matches, k) + Surplus(data, matches, k)
  }

  function PartlyRestored(data: seq<Row>, matches: Row -> bool, k: nat): seq<Row>
    requires k <= |data|
  {
    data[..k] + Tail(data, matches, k)
  }

  lemma {:induction false} TailStep(data: seq<Row>, matches: Row -> bool, k: nat)
    requires 0 < k <= |data|
    ensures matches(data[k - 1]) ==>
      Tail(data, matches, k) == if Tail(data, matches, k - 1) == [] then [[]] else Tail(data, matches, k - 1)
    ensures !matches(data[k - 1]) ==> Tail(data, matches, k - 1) == [data[k - 1]] + Tail(data, matches, k)
  {
    var kept, pad: seq<Row> := Kept(data, matches, k), [[]];
    var s, t := Surplus(data, matches, k - 1), Surplus(data, matches, k);
    assert kept + [] == kept && [] + pad == pad && [] + s == s;
    if !matches(data[k - 1]) {
      assert Kept(data, matches, k - 1) == [data[k - 1]] + kept;
      assert s == [] && t == [];
      assert ([data[k - 1]] + kept) + [] == [data[k - 1]] + kept;
    } else if kept == [] {
      assert Kept(data, matches, k - 1) == [] && t == pad;
      assert s == [] || s == pad;
    } else {
      assert Kept(data, matches, k - 1) == kept && s == [] && t == [];
    }
  }

  lemma {:induction false} RestoredBehind(a: seq<Row>, t: seq<Row>, x: Row)
    ensures Restored(a + t, |a|, x) == (a + [x]) + (if t == [] then [[]] else t)
  {
    if t == [] {
      assert a + t == a && EmptyRows(0) == [];
    } else {
      assert (a + t)[..|a|] == a && (a + t)[|a|..] == t;
    }
  }

  lemma {:induction false} RestoreOne(data: seq<Row>, matches: Row -> bool, k: nat)
    requires 0 < k <= |data| && matches(data[k - 1])
    ensures Restored(PartlyRestored(data, matches, k - 1), k - 1, data[k - 1]) == PartlyRestored(data, matches, k)
  {
    TailStep(data, matches, k);
    RestoredBehind(data[..k - 1], Tail(data, matches, k - 1), data[k - 1]);
    assert data[..k] == data[..k - 1] + [data[k - 1]];
  }

  lemma {:induction false} SkipKept(data: seq<Row>, matches: Row -> bool, k: nat)
    requires 0 < k <= |data| && !matches(data[k - 1])
    ensures PartlyRestored(data, matches, k - 1) == PartlyRestored(data, matches, k)
  {
    TailStep(data, matches, k);
    assert data[..k] == data[..k - 1] + [data[k - 1]];
    Regroup(data[..k - 1], [data[k - 1]], Tail(data, matches, k));
  }

  /** The state of the table after restoring the matching rows below `k`. */
  predicate RestoredTo(data: seq<Row>, matches: Row -> bool, k: nat, t: seq<Row>)
    requires k <= |data|
  {
    t == RestoredAll(Kept(data, matches, 0), Matching(data, matches, k), |Matching(data, matches, k)|)
  }

  lemma {:induction false} RestoredToNext(data: seq<Row>, matches: Row -> bool, k: nat, t: seq<Row>, next: seq<Row>)
    requires 0 < k <= |data| && matches(data[k - 1]) && RestoredTo(data, matches, k - 1, t)
    requires next == Restored(t, k - 1, data[k - 1])
    ensures RestoredTo(data, matches, k, next)
  {
    var kept, log, x := Kept(data, matches, 0), Matching(data, matches, k - 1), RowData(data[k - 1], k - 1);
    var longer := Matching(data, matches, k);
    assert longer == log + [x] && |longer| == |log| + 1;
    RestoredAllConcat(kept, log, x, |log|);
    assert RestoredAll(kept, longer, |log|) == t;
    assert longer[|log|] == x;
  }

  ghost predicate PartlyRight(data: seq<Row>, matches: Row -> bool, k: nat)
    requires k <= |data|
  {
    RestoredTo(data, matches, k, PartlyRestored(data, matches, k))
  }

  lemma {:induction false} RestoringMatched(data: seq<Row>, matches: Row -> bool, k: nat)
    requires 0 < k <= |data| && matches(data[k - 1]) && PartlyRight(data, matches, k - 1)
    ensures PartlyRight(data, matches, k)
  {
    RestoreOne(data, matches, k);
    RestoredToNext(data, matches, k, PartlyRestored(data, matches, k - 1), PartlyRestored(data, matches, k));
  }

  lemma {:induction false} RestoringSkipped(data: seq<Row>, matches: Row -> bool, k: nat)
    requires 0 < k <= |data| && !matches(data[k - 1]) && PartlyRight(data, matches, k - 1)
    ensures PartlyRight(data, matches, k)
  {
    SkipKept(data, matches, k);
    assert Matching(data, matches, k) == Matching(data, matches, k - 1);
  }

  lemma {:induction false} NothingRestored(data: seq<Row>, matches: Row -> bool)
    ensures PartlyRight(data, matches, 0)
  {
    var kept := Kept(data, matches, 0);
    assert Tail(data, matches, 0) == kept && data[..0] + kept == kept;
  }

  lemma {:induction false} RestoringStep(data: seq<Row>, matches: Row -> bool, k: nat)
    requires k <= |data|
    ensures PartlyRight(data, matches, k)
  {
    if k == 0 {
      NothingRestored(data, matches);
    } else {
      RestoringStep(data, matches, k - 1);
      if matches(data[k - 1]) { RestoringMatched(data, matches, k); } else { RestoringSkipped(data, matches, k); }
    }
  }

  /** The empty row that a restored last row leaves behind it. */
  function Leftover(data: seq<Row>, matches: Row -> bool): seq<Row> {
    if data != [] && matches(data[|data| - 1]) then [[]] else []
  }

  /** Deleting and then restoring in ascending order gives the table back, with
      one empty row behind it exactly when its last row had been deleted. */
  lemma {:induction false} DeleteThenRestore(data: seq<Row>, matches: Row -> bool)
    ensures var log := Matching(data, matches, |data|);
            RestoredAll(Kept(data, matches, 0), log, |log|) == data + Leftover(data, matches)
  {
    RestoringStep(data, matches, |data|);
    assert data[..|data|] == data;
    if data != [] { assert Kept(data, matches, |data|) == []; }
  }

  // ----- which orders restore the table -----

  predicate Rising(log: seq<RowData>) {
    forall i, j | 0 <= i < j < |log| :: log[i].rowId < log[j].rowId
  }

  /** Where the row restored in step `m` is after `n` steps. */
  function Track(log: seq<RowData>, m: nat, n: nat): nat
    requires m < n <= |log|
    decreases n
  {
    if n == m + 1 then log[m].rowId
    else
      var p := Track(log, m, n - 1);
      if log[n - 1].rowId <= p then p + 1 else p
  }

  lemma {:induction false} RestoredAt(data: seq<Row>, i: nat, row: Row, p: nat)
    ensures |Restored(data, i, row)| == if i < |data| then |data| + 1 else i + 2
    ensures Restored(data, i, row)[i] == row
    ensures p < |data| ==> Restored(data, i, row)[if i <= p then p + 1 else p] == data[p]
  {
  }

  lemma {:induction false} TrackedStep(before: seq<Row>, after: seq<Row>, log: seq<RowData>, m: nat, n: nat)
    requires m < n < |log| && after == Restored(before, log[n].rowId, log[n].values)
    requires Track(log, m, n) < |before| && before[Track(log, m, n)] == log[m].values
    ensures Track(log, m, n + 1) < |after| && after[Track(log, m, n + 1)] == log[m].values
  {
    RestoredAt(before, log[n].rowId, log[n].values, Track(log, m, n));
  }

  lemma {:induction false} Tracked(data: seq<Row>, log: seq<RowData>, m: nat, n: nat)
    requires m < n <= |log|
    ensures Track(log, m, n) < |RestoredAll(data, log, n)|
    ensures RestoredAll(data, log, n)[Track(log, m, n)] == log[m].values
    decreases n
  {
    var before, after := RestoredAll(data, log, n - 1), RestoredAll(data, log, n);
    if n == m + 1 {
      RestoredAt(before, log[m].rowId, log[m].values, 0);
    } else {
      Tracked(data, log, m, n - 1);
      TrackedStep(before, after, log, m, n - 1);
    }
  }

  /** A restored row starts at its old position and only ever moves up, by one for
      each later row with a smaller position. */
  lemma {:induction false} TrackRises(log: seq<RowData>, m: nat, n: nat)
    requires m < n <= |log|
    ensures Track(log, m, n) >= log[m].rowId
    ensures Track(log, m, n) == log[m].rowId ==> forall q | m < q < n :: log[q].rowId > log[m].rowId
    decreases n
  {
    if n != m + 1 { TrackRises(log, m, n - 1); }
  }

  lemma {:induction false} TracksDiffer(log: seq<RowData>, m: nat, k: nat, n: nat)
    requires m < k < n <= |log|
    ensures Track(log, m, n) != Track(log, k, n)
    decreases n
  {
    if n != k + 1 { TracksDiffer(log, m, k, n - 1); }
  }

  lemma {:induction false} MatchingMembers(data: seq<Row>, matches: Row -> bool, k: nat, x: RowData)
    requires k <= |data|
    ensures x in Matching(data, matches, k) <==> x.rowId < k && matches(data[x.rowId]) && x.values == data[x.rowId]
  {
    if k != 0 { MatchingMembers(data, matches, k - 1, x); }
  }

  /** `log` lists the deleted rows, each once, in some order. */
  ghost predicate LogOf(log: seq<RowData>, data: seq<Row>, matches: Row -> bool) {
    && |log| == |Matching(data, matches, |data|)|
    && (forall x :: x in log <==> x in Matching(data, matches, |data|))
    && (forall i, j | 0 <= i < j < |log| :: log[i].rowId != log[j].rowId)
  }

  /** If the table came back, every restored row is where it was: one that is too
      far up sits in the place of another, which is then too far up itself. */
  lemma {:induction false} EachInPlace(data: seq<Row>, matches: Row -> bool, log: seq<RowData>, extra: seq<Row>, m: nat)
    requires LogOf(log, data, matches) && m < |log| && forall e | e in extra :: !matches(e)
    requires RestoredAll(Kept(data, matches, 0), log, |log|) == data + extra
    ensures log[m].rowId < |data| && Track(log, m, |log|) == log[m].rowId
    decreases |data| - log[m].rowId
  {
    var n, p := |log|, Track(log, m, |log|);
    assert log[m] in log;
    MatchingMembers(data, matches, |data|, log[m]);
    Tracked(Kept(data, matches, 0), log, m, n);
    TrackRises(log, m, n);
    assert matches((data + extra)[p]);
    if p != log[m].rowId {
      assert p < |data|;
      MatchingMembers(data, matches, |data|, RowData(data[p], p));
      var k: nat :| k < n && log[k] == RowData(data[p], p);
      EachInPlace(data, matches, log, extra, k);
      if m < k { TracksDiffer(log, m, k, n); } else { TracksDiffer(log, k, m, n); }
    }
  }

  lemma {:induction false} RisingSame(a: seq<RowData>, b: seq<RowData>)
    requires Rising(a) && Rising(b) && forall x :: x in a <==> x in b
    ensures a == b
  {
    assert a != [] ==> a[0] in a;
    assert b != [] ==> b[0] in b;
    if a != [] && b != [] {
      assert a[0] in b && b[0] in a;
      forall x ensures x in a[1..] <==> x in b[1..] {
        assert x in a <==> x in b;
      }
      RisingSame(a[1..], b[1..]);
      assert a == [a[0]] + a[1..] && b == [b[0]] + b[1..];
    }
  }

  lemma {:induction false} ExactMeansRising(data: seq<Row>, matches: Row -> bool, log: seq<RowData>, extra: seq<Row>)
    requires LogOf(log, data, matches) && forall e | e in extra :: !matches(e)
    requires RestoredAll(Kept(data, matches, 0), log, |log|) == data + extra
    ensures log == Matching(data, matches, |data|)
  {
    forall i, j | 0 <= i < j < |log| ensures log[i].rowId < log[j].rowId {
      EachInPlace(data, matches, log, extra, i);
      TrackRises(log, i, |log|);
    }
    MatchingAscending(data, matches, |data|);
    RisingSame(log, Matching(data, matches, |data|));
  }

  lemma {:induction false} NeverShorter(data: seq<Row>, log: seq<RowData>, m: nat, n: nat)
    requires m <= n <= |log|
    ensures |RestoredAll(data, log, n)| >= |RestoredAll(data, log, m)| + (n - m)
    decreases n
  {
    if m != n {
      NeverShorter(data, log, m, n - 1);
      RestoredAt(RestoredAll(data, log, n - 1), log[n - 1].rowId, log[n - 1].values, 0);
    }
  }

  lemma {:induction false} RoomFor(data: seq<Row>, log: seq<RowData>, t: nat)
    requires t < |log|
    ensures |RestoredAll(data, log, t + 1)| >= log[t].rowId + 2
  {
    RestoredAt(RestoredAll(data, log, t), log[t].rowId, log[t].values, 0);
  }

  lemma {:induction false} KeptAndMatching(data: seq<Row>, matches: Row -> bool, k: nat)
    requires k <= |data|
    ensures |Kept(data, matches, k)| + |Matching(data, matches, |data|)| == |data| - k + |Matching(data, matches, k)|
    decreases |data| - k
  {
    if k != |data| { KeptAndMatching(data, matches, k + 1); }
  }

  /** Padding shows: two rows that look deleted at the end. */
  predicate DoubleTail(t: seq<Row>, matches: Row -> bool) {
    |t| >= 2 && matches(t[|t| - 1]) && matches(t[|t| - 2])
  }

  lemma {:induction false} DoubleTailStays(t: seq<Row>, matches: Row -> bool, i: nat, row: Row)
    requires matches([]) && matches(row) && (i < |t| ==> DoubleTail(t, matches))
    ensures DoubleTail(Restored(t, i, row), matches)
  {
    var after := Restored(t, i, row);
    RestoredAt(t, i, row, if |t| > 0 then |t| - 1 else 0);
    if i < |t| { RestoredAt(t, i, row, |t| - 2); } else { assert after[i + 1] == []; }
  }

  lemma {:induction false} PaddingShows(data: seq<Row>, log: seq<RowData>, matches: Row -> bool, n: nat)
    requires n <= |log| && matches([]) && forall x | x in log :: matches(x.values)
    ensures |RestoredAll(data, log, n)| == |data| + n || DoubleTail(RestoredAll(data, log, n), matches)
  {
    if n != 0 {
      PaddingShows(data, log, matches, n - 1);
      var before, x := RestoredAll(data, log, n - 1), log[n - 1];
      assert x in log;
      RestoredAt(before, x.rowId, x.values, 0);
      if x.rowId >= |before| || |before| != |data| + (n - 1) { DoubleTailStays(before, matches, x.rowId, x.values); }
    }
  }

  lemma {:induction false} KeptPrefix(data: seq<Row>, matches: Row -> bool, k: nat)
    requires k < |data| && matches(data[|data| - 1])
    ensures Kept(data, matches, k) == Kept(data[..|data| - 1], matches, k)
    decreases |data| - k
  {
    if k < |data| - 1 { KeptPrefix(data, matches, k + 1); }
  }

  lemma {:induction false} MatchingPrefix(data: seq<Row>, matches: Row -> bool, k: nat)
    requires k < |data|
    ensures Matching(data, matches, k) == Matching(data[..|data| - 1], matches, k)
  {
    if k != 0 { MatchingPrefix(data, matches, k - 1); }
  }

  /** If the table came back with one row more, its last row was restored last. */
  lemma {:induction false} LastComesLast(data: seq<Row>, matches: Row -> bool, log: seq<RowData>)
    requires LogOf(log, data, matches) && data != [] && matches(data[|data| - 1])
    requires |RestoredAll(Kept(data, matches, 0), log, |log|)| == |data| + 1
    ensures log != [] && log[|log| - 1] == RowData(data[|data| - 1], |data| - 1)
  {
    var kept, x := Kept(data, matches, 0), RowData(data[|data| - 1], |data| - 1);
    MatchingMembers(data, matches, |data|, x);
    var t: nat :| t < |log| && log[t] == x;
    RoomFor(kept, log, t);
    NeverShorter(kept, log, t + 1, |log|);
  }

  lemma {:induction false} LogPrefix(data: seq<Row>, matches: Row -> bool, log: seq<RowData>)
    requires LogOf(log, data, matches) && data != [] && matches(data[|data| - 1])
    requires log != [] && log[|log| - 1] == RowData(data[|data| - 1], |data| - 1)
    ensures LogOf(log[..|log| - 1], data[..|data| - 1], matches)
    ensures Matching(data, matches, |data|) == Matching(data[..|data| - 1], matches, |data| - 1) + [log[|log| - 1]]
  {
    var n := |log| - 1;
    MatchingPrefix(data, matches, |data| - 1);
    forall x ensures x in log[..n] <==> x in Matching(data[..|data| - 1], matches, |data| - 1) {
      MatchingMembers(data, matches, |data|, x);
      MatchingMembers(data[..|data| - 1], matches, |data| - 1, x);
      assert log == log[..n] + [log[n]];
      assert x in log <==> x in Matching(data, matches, |data|);
    }
  }

  /** The last row goes back behind a table that is complete, or complete but for
      the empty row at its end. */
  lemma {:induction false} BeforeTheLast(t: seq<Row>, data: seq<Row>)
    requires data != [] && |t| >= |data| - 1
    requires Restored(t, |data| - 1, data[|data| - 1]) == data + [[]]
    ensures t == data[..|data| - 1] || t == data[..|data| - 1] + [[]]
  {
    var n := |data| - 1;
    var after := Restored(t, n, data[n]);
    assert after[..n] == data[..n];
    if |t| == n {
      assert t == after[..n];
    } else {
      assert |t| == n + 1 && after[n + 1] == t[n];
      assert t == t[..n] + [t[n]];
      assert t[..n] == after[..n];
    }
  }

  lemma {:induction false} PaddingIsSeen(data: seq<Row>, matches: Row -> bool, log: seq<RowData>)
    requires LogOf(log, data, matches) && matches([])
    ensures var t := RestoredAll(Kept(data, matches, 0), log, |log|); |t| == |data| || DoubleTail(t, matches)
  {
    forall x | x in log ensures matches(x.values) { MatchingMembers(data, matches, |data|, x); }
    KeptAndMatching(data, matches, 0);
    PaddingShows(Kept(data, matches, 0), log, matches, |log|);
  }

  /** One row too many behind a table whose last row had been kept: impossible. */
  lemma {:induction false} NoRoomForPadding(data: seq<Row>, matches: Row -> bool, log: seq<RowData>)
    requires LogOf(log, data, matches) && (data != [] ==> !matches(data[|data| - 1]))
    ensures RestoredAll(Kept(data, matches, 0), log, |log|) != data + [[]]
  {
    var t := RestoredAll(Kept(data, matches, 0), log, |log|);
    if matches([]) {
      PaddingIsSeen(data, matches, log);
    } else if t == data + [[]] {
      ExactMeansRising(data, matches, log, [[]]);
      DeleteThenRestore(data, matches);
    }
  }

  lemma {:induction false} RestoringPrefix(data: seq<Row>, matches: Row -> bool, log: seq<RowData>)
    requires LogOf(log, data, matches) && data != [] && matches(data[|data| - 1])
    requires log != [] && LogOf(log[..|log| - 1], data[..|data| - 1], matches)
    ensures var t := RestoredAll(Kept(data[..|data| - 1], matches, 0), log[..|log| - 1], |log| - 1);
      && |t| >= |data| - 1
      && RestoredAll(Kept(data, matches, 0), log, |log|) == Restored(t, log[|log| - 1].rowId, log[|log| - 1].values)
  {
    var prefix, earlier, last := data[..|data| - 1], log[..|log| - 1], log[|log| - 1];
    KeptPrefix(data, matches, 0);
    RestoredAllSnoc(Kept(prefix, matches, 0), earlier, last);
    assert log == earlier + [last];
    KeptAndMatching(prefix, matches, 0);
    NeverShorter(Kept(prefix, matches, 0), earlier, 0, |earlier|);
  }

  /** Taking the last row and its restoring away. */
  lemma {:induction false} TakeLastAway(data: seq<Row>, matches: Row -> bool, log: seq<RowData>)
    returns (prefix: seq<Row>, earlier: seq<RowData>)
    requires LogOf(log, data, matches) && data != [] && matches(data[|data| - 1])
    requires RestoredAll(Kept(data, matches, 0), log, |log|) == data + [[]]
    ensures |prefix| == |data| - 1 && LogOf(earlier, prefix, matches)
    ensures earlier == Matching(prefix, matches, |prefix|) ==> log == Matching(data, matches, |data|)
    ensures var t := RestoredAll(Kept(prefix, matches, 0), earlier, |earlier|);
      t == prefix || t == prefix + [[]]
  {
    LastComesLast(data, matches, log);
    LogPrefix(data, matches, log);
    RestoringPrefix(data, matches, log);
    prefix, earlier := data[..|data| - 1], log[..|log| - 1];
    assert log == earlier + [log[|log| - 1]];
    BeforeTheLast(RestoredAll(Kept(prefix, matches, 0), earlier, |earlier|), data);
  }

  lemma {:induction false} RestoredMeansRising(data: seq<Row>, matches: Row -> bool, log: seq<RowData>)
    requires LogOf(log, data, matches)
    requires RestoredAll(Kept(data, matches, 0), log, |log|) == data + Leftover(data, matches)
    ensures log == Matching(data, matches, |data|)
    decreases |data|
  {
    if Leftover(data, matches) == [] {
      ExactMeansRising(data, matches, log, []);
    } else {
      var prefix, earlier := TakeLastAway(data, matches, log);
      if RestoredAll(Kept(prefix, matches, 0), earlier, |earlier|) == prefix {
        assert prefix + [] == prefix;
        ExactMeansRising(prefix, matches, earlier, []);
      } else if Leftover(prefix, matches) != [] {
        RestoredMeansRising(prefix, matches, earlier);
      } else {
        NoRoomForPadding(prefix, matches, earlier);
      }
    }
  }

  lemma {:induction false} TwiceCounts(s: seq<RowData>, i: nat, j: nat)
    requires i < j < |s| && s[i] == s[j]
    ensures multiset(s)[s[i]] >= 2
  {
    assert s == s[..j] + s[j..];
    assert s[i] in s[..j] && s[j] in s[j..];
  }

  lemma {:induction false} RisingCountsOnce(s: seq<RowData>, x: RowData)
    requires Rising(s)
    ensures multiset(s)[x] <= 1
  {
    if s != [] {
      var n := |s| - 1;
      RisingCountsOnce(s[..n], x);
      assert s == s[..n] + [s[n]];
    }
  }

  lemma {:induction false} ShuffleIsLog(data: seq<Row>, matches: Row -> bool, log: seq<RowData>)
    requires multiset(log) == multiset(Matching(data, matches, |data|))
    ensures LogOf(log, data, matches)
  {
    var rows := Matching(data, matches, |data|);
    assert |log| == |multiset(log)| && |rows| == |multiset(rows)|;
    forall x ensures x in log <==> x in rows { assert x in multiset(log) <==> x in multiset(rows); }
    MatchingAscending(data, matches, |data|);
    forall i, j | 0 <= i < j < |log| ensures log[i].rowId != log[j].rowId {
      assert log[i] in rows && log[j] in rows;
      MatchingMembers(data, matches, |data|, log[i]);
      MatchingMembers(data, matches, |data|, log[j]);
      RisingCountsOnce(rows, log[i]);
      if log[i] == log[j] { TwiceCounts(log, i, j); }
    }
  }

  /** Rollback takes the deleted rows from a hash map, in whatever order it yields
      them. For every table, every condition and every order, the table comes back
      (with the leftover row) exactly when the order is the ascending one. */
  lemma {:induction false} RestoreSucceedsIff(data: seq<Row>, matches: Row -> bool, log: seq<RowData>)
    requires multiset(log) == multiset(Matching(data, matches, |data|))
    ensures RestoredAll(Kept(data, matches, 0), log, |log|) == data + Leftover(data, matches) <==>
            log == Matching(data, matches, |data|)
  {
    ShuffleIsLog(data, matches, log);
    DeleteThenRestore(data, matches);
    if RestoredAll(Kept(data, matches, 0), log, |log|) == data + Leftover(data, matches) {
      RestoredMeansRising(data, matches, log);
    }
  }

  /** Two deleted rows restored in descending order. */
  lemma {:induction false} DescendingRestoreFails(a: Row, b: Row)
    ensures var log := [RowData(b, 1), RowData(a, 0)];
            RestoredAll([], log, 2) == [a, [], b, []]
  {
    var log := [RowData(b, 1), RowData(a, 0)];
    assert RestoredAll([], log, 0) == [];
    assert RestoredAll([], log, 1) == Restored([], 1, b) == [[], b, []];
    assert RestoredAll([], log, 2) == Restored([[], b, []], 0, a);
  }

  // ----- the log of a whole transaction -----

  /** The log is keyed by row position alone: a later deletion at the same
      position, of whatever table, replaces the earlier one. */
  function Logged(ds: seq<Deletion>, n: nat): map<nat, Deletion>
    requires n <= |ds|
  {
    if n == 0 then map[] else Logged(ds, n - 1)[ds[n - 1].row.rowId := ds[n - 1]]
  }

  ghost predicate OwnPositions(ds: seq<Deletion>, n: nat)
    requires n <= |ds|
  {
    forall i, j | 0 <= i < j < n :: ds[i].row.rowId != ds[j].row.rowId
  }

  /** Under each position the log holds the last deletion there. */
  lemma {:induction false} LoggedMeans(ds: seq<Deletion>, n: nat, i: nat)
    requires i < n <= |ds|
    ensures ds[i].row.rowId in Logged(ds, n)
    ensures (forall j | i < j < n :: ds[j].row.rowId != ds[i].row.rowId) ==> Logged(ds, n)[ds[i].row.rowId] == ds[i]
    decreases n
  {
    if i < n - 1 { LoggedMeans(ds, n - 1, i); }
  }

  lemma {:induction false} LoggedPosition(ds: seq<Deletion>, n: nat, p: nat) returns (i: nat)
    requires n <= |ds| && p in Logged(ds, n)
    ensures i < n && ds[i].row.rowId == p
  {
    if ds[n - 1].row.rowId == p { i := n - 1; } else { i := LoggedPosition(ds, n - 1, p); }
  }

  lemma {:induction false} SizeAfterLogging(m: map<nat, Deletion>, p: nat, d: Deletion)
    ensures |m[p := d]| == if p in m then |m| else |m| + 1
  {
    assert m[p := d].Keys == m.Keys + {p};
    assert |m.Keys| == |m| && |m[p := d].Keys| == |m[p := d]|;
  }

  /** No deletion is lost exactly when no two share a position. */
  lemma {:induction false} NoneLostIff(ds: seq<Deletion>, n: nat)
    requires n <= |ds|
    ensures |Logged(ds, n)| <= n
    ensures |Logged(ds, n)| == n <==> OwnPositions(ds, n)
  {
    if n != 0 {
      NoneLostIff(ds, n - 1);
      var before, d := Logged(ds, n - 1), ds[n - 1];
      SizeAfterLogging(before, d.row.rowId, d);
      if d.row.rowId in before {
        var i := LoggedPosition(ds, n - 1, d.row.rowId);
      } else {
        forall i | 0 <= i < n - 1 ensures ds[i].row.rowId != d.row.rowId { LoggedMeans(ds, n - 1, i); }
      }
    }
  }

  function Tagged(table: string, rows: seq<RowData>): (ds: seq<Deletion>)
    ensures |ds| == |rows| && forall i | 0 <= i < |rows| :: ds[i] == Deletion(table, rows[i])
  {
    seq(|rows|, i requires 0 <= i < |rows| => Deletion(table, rows[i]))
  }

  lemma {:induction false} RowsOfTagged(table: string, rows: seq<RowData>, n: nat)
    requires n <= |rows|
    ensures RowsFor(Tagged(table, rows), n, table) == rows[..n]
  {
    if n != 0 {
      RowsOfTagged(table, rows, n - 1);
      assert rows[..n] == rows[..n - 1] + [rows[n - 1]];
    }
  }

  /** A log of one table restores its rows as listed. */
  lemma {:induction false} OneTableRollback(data: seq<Row>, table: string, rows: seq<RowData>)
    ensures RolledBack(data, Tagged(table, rows), |rows|, table) == RestoredAll(data, rows, |rows|)
  {
    RowsOfTagged(table, rows, |rows|);
    assert rows[..|rows|] == rows;
  }

  ghost predicate Covers(rows: seq<RowData>, p: nat) {
    exists i | 0 <= i < |rows| :: rows[i].rowId == p
  }

  lemma {:induction false} DeletedAt(data: seq<Row>, matches: Row -> bool, log: seq<RowData>, p: nat)
    requires LogOf(log, data, matches)
    ensures Covers(log, p) <==> p < |data| && matches(data[p])
  {
    if i :| 0 <= i < |log| && log[i].rowId == p {
      assert log[i] in log;
      MatchingMembers(data, matches, |data|, log[i]);
    }
    if p < |data| && matches(data[p]) {
      MatchingMembers(data, matches, |data|, RowData(data[p], p));
      assert RowData(data[p], p) in log;
    }
  }

  lemma {:induction false} PositionsOfBoth(table: string, first: seq<RowData>, table': string, second: seq<RowData>)
    requires forall i, j | 0 <= i < j < |first| :: first[i].rowId != first[j].rowId
    requires forall i, j | 0 <= i < j < |second| :: second[i].rowId != second[j].rowId
    ensures OwnPositions(Tagged(table, first) + Tagged(table', second), |first| + |second|) <==>
      forall p :: !(Covers(first, p) && Covers(second, p))
  {
    var ds, n := Tagged(table, first) + Tagged(table', second), |first|;
    assert forall i | 0 <= i < n :: ds[i].row == first[i];
    forall j | 0 <= j < |second| ensures ds[n + j].row == second[j] {}
    if p :| Covers(first, p) && Covers(second, p) {
      var i, j :| 0 <= i < n && first[i].rowId == p && 0 <= j < |second| && second[j].rowId == p;
      assert ds[i].row.rowId == ds[n + j].row.rowId;
    } else {
      forall i, j | 0 <= i < j < |ds| ensures ds[i].row.rowId != ds[j].row.rowId {
        assert j >= n ==> ds[j].row == second[j - n] && Covers(second, second[j - n].rowId);
        assert i >= n ==> ds[i].row == second[i - n];
        assert i < n ==> Covers(first, first[i].rowId);
      }
    }
  }

  /** Two DELETEs in one transaction, of the same table or of two: the log still
      holds every deleted row exactly when no position was deleted by both. */
  lemma {:induction false} TwoDeletesLoggedIff(
    table: string, data: seq<Row>, matches: Row -> bool, first: seq<RowData>,
    table': string, data': seq<Row>, matches': Row -> bool, second: seq<RowData>)
    requires LogOf(first, data, matches) && LogOf(second, data', matches')
    ensures var ds := Tagged(table, first) + Tagged(table', second);
      |Logged(ds, |ds|)| == |first| + |second| <==>
      forall p | 0 <= p < |data| && p < |data'| :: !(matches(data[p]) && matches'(data'[p]))
  {
    NoneLostIff(Tagged(table, first) + Tagged(table', second), |first| + |second|);
    PositionsOfBoth(table, first, table', second);
    forall p: nat
      ensures Covers(first, p) <==> p < |data| && matches(data[p])
      ensures Covers(second, p) <==> p < |data'| && matches'(data'[p])
    {
      DeletedAt(data, matches, first, p);
      DeletedAt(data', matches', second, p);
    }
  }

  /** Deleting the first of two rows and then the other logs position 0 twice, so
      rollback brings back the second only. */
  lemma {:induction false} SecondDeleteOverwrites(table: string, a: Row, b: Row)
    ensures var ds := [Deletion(table, RowData(a, 0)), Deletion(table, RowData(b, 0))];
      Logged(ds, 2) == map[0 := ds[1]] && RolledBack([], [ds[1]], 1, table) == [b, []]
  {
    var ds := [Deletion(table, RowData(a, 0)), Deletion(table, RowData(b, 0))];
    assert Logged(ds, 1) == map[][0 := ds[0]];
    assert Logged(ds, 2) == Logged(ds, 1)[0 := ds[1]];
    RolledBackStep([], [ds[1]], 0, table);
    assert RowsFor([ds[1]], 0, table) == [];
  }
}
