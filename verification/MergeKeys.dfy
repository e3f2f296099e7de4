/** The keys of the sort-merge join: how rows with different column layouts are
    compared on the sort columns, and what sorted keys look like, run by run. */
module MergeKeys {
  import opened Values
  import opened Sorting
  import opened Joins

  // ----- keys -----

  /** The comparison of two rows on the sort columns both of them have. */
  function CompareKeyed(a: Row, aCols: seq<string>, b: Row, bCols: seq<string>, sort: seq<string>): Ordering {
    if sort == [] then Equal
    else
      var x, y := Position(aCols, sort[0]), Position(bCols, sort[0]);
      var c := if x.Some? && y.Some? && x.value < |a| && y.value < |b|
               then CompareValues(a[x.value], b[y.value], NullsDefault) else Equal;
      if c != Equal then c else CompareKeyed(a, aCols, b, bCols, sort[1..])
  }

  /** Every sort column is present in the row. */
  ghost predicate HasKey(row: Row, cols: seq<string>, sort: seq<string>) {
    forall s | s in sort :: Position(cols, s).Some? && Position(cols, s).value < |row|
  }

  ghost predicate Keyed(rows: seq<Row>, cols: seq<string>, sort: seq<string>) {
    forall r | r in rows :: HasKey(r, cols, sort)
  }

  ghost function KeyOf(row: Row, cols: seq<string>, sort: seq<string>): (key: Row)
    requires HasKey(row, cols, sort)
    ensures |key| == |sort|
  {
    if sort == [] then [] else [row[Position(cols, sort[0]).value]] + KeyOf(row, cols, sort[1..])
  }

  ghost function CompareKeys(a: Row, b: Row): Ordering
    requires |a| == |b|
  {
    if a == [] then Equal
    else
      var c := CompareValues(a[0], b[0], NullsDefault);
      if c != Equal then c else CompareKeys(a[1..], b[1..])
  }

  lemma {:induction false} ComparesKeys(a: Row, aCols: seq<string>, b: Row, bCols: seq<string>, sort: seq<string>)
    requires HasKey(a, aCols, sort) && HasKey(b, bCols, sort)
    ensures CompareKeyed(a, aCols, b, bCols, sort) == CompareKeys(KeyOf(a, aCols, sort), KeyOf(b, bCols, sort))
  {
    if sort != [] {
      assert sort[0] in sort;
      ComparesKeys(a, aCols, b, bCols, sort[1..]);
      assert KeyOf(a, aCols, sort)[1..] == KeyOf(a, aCols, sort[1..]);
      assert KeyOf(b, bCols, sort)[1..] == KeyOf(b, bCols, sort[1..]);
    }
  }

  lemma {:induction false} CompareKeysReverse(a: Row, b: Row)
    requires |a| == |b|
    ensures CompareKeys(b, a) == CompareKeys(a, b).Reverse()
  {
    if a != [] {
      CompareValuesReverse(a[0], b[0], NullsDefault);
      CompareKeysReverse(a[1..], b[1..]);
    }
  }

  lemma {:induction false} CompareKeysTransitive(a: Row, b: Row, c: Row)
    requires |a| == |b| == |c|
    requires CompareKeys(a, b) != Greater && CompareKeys(b, c) != Greater
    ensures CompareKeys(a, c) != Greater
    ensures CompareKeys(a, b) == Less || CompareKeys(b, c) == Less ==> CompareKeys(a, c) == Less
  {
    if a != [] {
      var n := NullsDefault;
      if CompareValues(a[0], b[0], n) == Less || CompareValues(b[0], c[0], n) == Less {
        TransitiveStrict(a[0], b[0], c[0], n);
      } else {
        CompareValuesReverse(a[0], b[0], n);
        CompareValuesReverse(b[0], c[0], n);
        CompareValuesReverse(a[0], c[0], n);
        CompareValuesTransitive(a[0], b[0], c[0], n);
        CompareValuesTransitive(c[0], b[0], a[0], n);
        CompareKeysTransitive(a[1..], b[1..], c[1..]);
      }
    }
  }

  /** Tied keys compare alike with any third key. */
  lemma {:induction false} TiedKeys(a: Row, b: Row, c: Row)
    requires |a| == |b| == |c| && CompareKeys(a, b) == Equal
    ensures CompareKeys(a, c) == CompareKeys(b, c)
  {
    CompareKeysReverse(a, b);
    CompareKeysReverse(a, c);
    CompareKeysReverse(b, c);
    if CompareKeys(b, c) != Greater { CompareKeysTransitive(a, b, c); } else { CompareKeysTransitive(c, b, a); }
    if CompareKeys(a, c) != Greater { CompareKeysTransitive(b, a, c); } else { CompareKeysTransitive(c, a, b); }
  }

  // ----- sorting the inputs -----

  function KeyOrder(cols: seq<string>, sort: seq<string>): (Row, Row) -> Ordering {
    (a: Row, b: Row) => CompareKeyed(a, cols, b, cols, sort)
  }

  lemma {:induction false} KeyOrderPreorder(rows: seq<Row>, cols: seq<string>, sort: seq<string>)
    requires Keyed(rows, cols, sort)
    ensures Preorder(rows, KeyOrder(cols, sort))
  {
    var cmp := KeyOrder(cols, sort);
    forall a, b | a in rows && b in rows
      ensures cmp(b, a) == cmp(a, b).Reverse() && (a == b ==> cmp(a, b) == Equal)
    {
      ComparesKeys(a, cols, b, cols, sort);
      ComparesKeys(b, cols, a, cols, sort);
      CompareKeysReverse(KeyOf(a, cols, sort), KeyOf(b, cols, sort));
    }
    forall a, b, c | a in rows && b in rows && c in rows && cmp(a, b) != Greater && cmp(b, c) != Greater
      ensures cmp(a, c) != Greater
    {
      ComparesKeys(a, cols, b, cols, sort);
      ComparesKeys(b, cols, c, cols, sort);
      ComparesKeys(a, cols, c, cols, sort);
      CompareKeysTransitive(KeyOf(a, cols, sort), KeyOf(b, cols, sort), KeyOf(c, cols, sort));
    }
  }

  // ----- merging two sorted inputs -----

  ghost function KeysOf(rows: seq<Row>, cols: seq<string>, sort: seq<string>): (keys: seq<Row>)
    requires Keyed(rows, cols, sort)
    ensures |keys| == |rows| && forall i | 0 <= i < |rows| :: keys[i] == KeyOf(rows[i], cols, sort)
  {
    seq(|rows|, i requires 0 <= i < |rows| => KeyOf(rows[i], cols, sort))
  }

  /** Key vectors of one length, in ascending order. */
  ghost predicate SortedKeys(K: seq<Row>, width: nat) {
    && (forall i | 0 <= i < |K| :: |K[i]| == width)
    && (forall i, j | 0 <= i < j < |K| :: CompareKeys(K[i], K[j]) != Greater)
  }

  ghost predicate Tied(K: seq<Row>, J: seq<Row>, width: nat, i: int, j: int)
    requires SortedKeys(K, width) && SortedKeys(J, width)
  {
    0 <= i < |K| && 0 <= j < |J| && CompareKeys(K[i], J[j]) == Equal
  }

  /** Position `i` starts a run of equal keys. */
  ghost predicate RunStart(K: seq<Row>, width: nat, i: int)
    requires SortedKeys(K, width)
  {
    0 <= i < |K| && (i == 0 || CompareKeys(K[i - 1], K[i]) != Equal)
  }

  /** `K[i..e]` is the run that starts at `i`. */
  ghost predicate IsRun(K: seq<Row>, width: nat, i: int, e: int)
    requires SortedKeys(K, width)
  {
    && 0 <= i < e <= |K|
    && (forall k | i <= k < e :: CompareKeys(K[k], K[i]) == Equal)
    && (e < |K| ==> CompareKeys(K[e], K[i]) != Equal)
  }

  lemma {:induction false} AfterRun(K: seq<Row>, width: nat, i: int, e: int, k: int)
    requires SortedKeys(K, width) && IsRun(K, width, i, e) && e <= k < |K|
    ensures CompareKeys(K[i], K[k]) == Less
  {
    CompareKeysReverse(K[e], K[i]);
    assert CompareKeys(K[i], K[e]) == Less;
    if e < k { CompareKeysTransitive(K[i], K[e], K[k]); }
  }

  /** A key below `J[j]` ties with nothing from `j` on. */
  lemma {:induction false} BelowAll(k: Row, J: seq<Row>, width: nat, j: int, y: int)
    requires SortedKeys(J, width) && |k| == width && 0 <= j <= y < |J| && CompareKeys(k, J[j]) == Less
    ensures CompareKeys(k, J[y]) == Less
  {
    if j < y { CompareKeysTransitive(k, J[j], J[y]); }
  }

  /** The two positions split the inputs: nothing before one ties with anything
      at or after the other. */
  ghost predicate Separated(K: seq<Row>, J: seq<Row>, width: nat, li: int, ri: int)
    requires SortedKeys(K, width) && SortedKeys(J, width)
  {
    && (forall i, j | li <= i < |K| && 0 <= j < ri :: !Tied(K, J, width, i, j))
    && (forall i, j | 0 <= i < li && ri <= j < |J| :: !Tied(K, J, width, i, j))
  }

  lemma {:induction false} SkipLeft(K: seq<Row>, J: seq<Row>, width: nat, li: int, ri: int)
    requires SortedKeys(K, width) && SortedKeys(J, width) && 0 <= li < |K| && 0 <= ri < |J|
    requires Separated(K, J, width, li, ri) && CompareKeys(K[li], J[ri]) == Less
    ensures Separated(K, J, width, li + 1, ri)
    ensures forall j :: !Tied(K, J, width, li, j)
  {
    forall j | ri <= j < |J| ensures !Tied(K, J, width, li, j) { BelowAll(K[li], J, width, ri, j); }
    assert forall j | 0 <= j < ri :: !Tied(K, J, width, li, j);
  }

  lemma {:induction false} SkipRight(K: seq<Row>, J: seq<Row>, width: nat, li: int, ri: int)
    requires SortedKeys(K, width) && SortedKeys(J, width) && 0 <= li < |K| && 0 <= ri < |J|
    requires Separated(K, J, width, li, ri) && CompareKeys(K[li], J[ri]) == Greater
    ensures Separated(K, J, width, li, ri + 1)
  {
    CompareKeysReverse(K[li], J[ri]);
    forall i | li <= i < |K| ensures !Tied(K, J, width, i, ri) {
      BelowAll(J[ri], K, width, li, i);
      CompareKeysReverse(J[ri], K[i]);
    }
  }

  lemma {:induction false} RunPairs(K: seq<Row>, J: seq<Row>, width: nat, li: int, le: int, ri: int, re: int, i: int, j: int)
    requires SortedKeys(K, width) && SortedKeys(J, width) && Tied(K, J, width, li, ri)
    requires IsRun(K, width, li, le) && IsRun(J, width, ri, re)
    ensures li <= i < le && ri <= j < |J| ==> (Tied(K, J, width, i, j) <==> j < re)
    ensures li <= i < |K| && ri <= j < re ==> (Tied(K, J, width, i, j) <==> i < le)
  {
    if li <= i < |K| && ri <= j < |J| {
      TiedKeys(K[li], J[ri], J[j]);
      CompareKeysReverse(J[j], J[ri]);
      if re <= j { AfterRun(J, width, ri, re, j); }
      if i < le { TiedKeys(K[i], K[li], J[j]); }
      if j < re {
        CompareKeysReverse(J[j], K[i]);
        CompareKeysReverse(K[li], K[i]);
        CompareKeysReverse(K[li], J[j]);
        TiedKeys(J[j], K[li], K[i]);
        if le <= i { AfterRun(K, width, li, le, i); }
      }
    }
  }

  lemma {:induction false} SkipRun(K: seq<Row>, J: seq<Row>, width: nat, li: int, le: int, ri: int, re: int)
    requires SortedKeys(K, width) && SortedKeys(J, width) && Tied(K, J, width, li, ri)
    requires Separated(K, J, width, li, ri) && IsRun(K, width, li, le) && IsRun(J, width, ri, re)
    ensures Separated(K, J, width, le, re)
  {
    forall i, j | le <= i < |K| && 0 <= j < re ensures !Tied(K, J, width, i, j) {
      if ri <= j { RunPairs(K, J, width, li, le, ri, re, i, j); }
    }
    forall i, j | 0 <= i < le && re <= j < |J| ensures !Tied(K, J, width, i, j) {
      if li <= i { RunPairs(K, J, width, li, le, ri, re, i, j); }
    }
  }

  lemma {:induction false} RunsStartHere(K: seq<Row>, J: seq<Row>, width: nat, li: int, le: int, ri: int, re: int, i: int, j: int)
    requires SortedKeys(K, width) && SortedKeys(J, width) && Tied(K, J, width, li, ri)
    requires Separated(K, J, width, li, ri) && IsRun(K, width, li, le) && IsRun(J, width, ri, re)
    ensures li <= i < le ==> (RunStart(K, width, i) <==> i == li)
    ensures ri <= j < re ==> (RunStart(J, width, j) <==> j == ri)
  {
    if li < i < le {
      CompareKeysReverse(K[i], K[li]);
      TiedKeys(K[i - 1], K[li], K[i]);
    }
    if ri < j < re {
      CompareKeysReverse(J[j], J[ri]);
      TiedKeys(J[j - 1], J[ri], J[j]);
    }
    if 0 < li {
      assert !Tied(K, J, width, li - 1, ri);
      if CompareKeys(K[li - 1], K[li]) == Equal { TiedKeys(K[li - 1], K[li], J[ri]); }
    }
    if 0 < ri {
      assert !Tied(K, J, width, li, ri - 1);
      CompareKeysReverse(J[ri - 1], K[li]);
      CompareKeysReverse(J[ri], K[li]);
      if CompareKeys(J[ri - 1], J[ri]) == Equal { TiedKeys(J[ri - 1], J[ri], K[li]); }
    }
  }
}
