/**
 * Feature engineering: sort the labelled table by (year, week, department)
 * in place, then add `casos_lag1`, the previous record's flag within the
 * same department, and `casos_diff`, the first difference of the flag over
 * the whole sorted table (across department boundaries, as written).
 */
module Features {
  import opened Wrappers
  import opened Schema
  import opened Target

  // ---------------------------------------------------------------------
  // sort_values(by=['ano', 'semana', 'departamento'], inplace=True)

  /** Key order with ties allowed. */
  predicate KeyLe(a: Key, b: Key) {
    a == b || KeyLess(a, b)
  }

  lemma KeyLeTransitive(a: Key, b: Key, c: Key)
    requires KeyLe(a, b) && KeyLe(b, c)
    ensures KeyLe(a, c)
  {
    if a != b && b != c {
      KeyLessTransitive(a, b, c);
    }
  }

  function RowKey(r: LabeledRow): Key {
    KeyOf(r.row)
  }

  /** Non-decreasing by key: the order `sort_values` leaves. */
  predicate SortedByKey(s: seq<LabeledRow>) {
    forall i, j :: 0 <= i < j < |s| ==> KeyLe(RowKey(s[i]), RowKey(s[j]))
  }

  /** `s[..i + 1]` is in key order, leaving out the record at `j`. */
  predicate SortedExcept(s: seq<LabeledRow>, i: nat, j: nat)
    requires i < |s|
  {
    forall p, q :: 0 <= p < q <= i && p != j && q != j ==> KeyLe(RowKey(s[p]), RowKey(s[q]))
  }

  /** The record at `j` is at most every record after it, up to `i`. */
  predicate BelowAfter(s: seq<LabeledRow>, i: nat, j: nat)
    requires j <= i < |s|
  {
    forall q :: j < q <= i ==> KeyLe(RowKey(s[j]), RowKey(s[q]))
  }

  /** Swapping the record at `j` below a greater neighbour moves the gap down by one. */
  lemma SwapDown(s: seq<LabeledRow>, i: nat, j: nat)
    requires 0 < j <= i < |s|
    requires SortedExcept(s, i, j) && BelowAfter(s, i, j)
    requires KeyLess(RowKey(s[j]), RowKey(s[j - 1]))
    ensures var t := s[j - 1 := s[j]][j := s[j - 1]];
      SortedExcept(t, i, j - 1) && BelowAfter(t, i, j - 1)
      && multiset(t) == multiset(s)
  {
    var t := s[j - 1 := s[j]][j := s[j - 1]];
    forall q | j - 1 < q <= i ensures KeyLe(RowKey(t[j - 1]), RowKey(t[q])) {
      if q > j { assert t[q] == s[q]; }
    }
    forall p, q | 0 <= p < q <= i && p != j - 1 && q != j - 1
      ensures KeyLe(RowKey(t[p]), RowKey(t[q]))
    {
      if q == j { assert t[q] == s[j - 1]; }
      else if p == j { assert t[p] == s[j - 1]; }
    }
    assert t == s[..j - 1] + [s[j], s[j - 1]] + s[j + 1..];
    assert s == s[..j - 1] + [s[j - 1], s[j]] + s[j + 1..];
  }

  /** Once the record at `j` is not below its left neighbour, the prefix is sorted. */
  lemma InsertDone(s: seq<LabeledRow>, i: nat, j: nat)
    requires j <= i < |s|
    requires SortedExcept(s, i, j) && BelowAfter(s, i, j)
    requires j == 0 || !KeyLess(RowKey(s[j]), RowKey(s[j - 1]))
    ensures SortedByKey(s[..i + 1])
  {
    if j > 0 {
      KeyLessTrichotomy(RowKey(s[j - 1]), RowKey(s[j]));
      forall p | 0 <= p < j ensures KeyLe(RowKey(s[p]), RowKey(s[j])) {
        if p < j - 1 {
          KeyLeTransitive(RowKey(s[p]), RowKey(s[j - 1]), RowKey(s[j]));
        }
      }
    }
    forall p, q | 0 <= p < q <= i ensures KeyLe(RowKey(s[p]), RowKey(s[q])) {
      if q == j && j > 0 {
      } else if p == j {
      }
    }
  }

  /**
   * Sorts the records by key in place. Records with equal keys may end up in
   * any order: only sortedness and the multiset of records are promised.
   */
  method SortByKey(a: array<LabeledRow>)
    modifies a
    ensures SortedByKey(a[..])
    ensures multiset(a[..]) == old(multiset(a[..]))
  {
    if a.Length == 0 {
      return;
    }
    for i := 1 to a.Length
      invariant SortedByKey(a[..i])
      invariant multiset(a[..]) == old(multiset(a[..]))
    {
      var j := i;
      assert SortedExcept(a[..], i, j);
      while j > 0 && KeyLess(RowKey(a[j]), RowKey(a[j - 1]))
        invariant 0 <= j <= i
        invariant SortedExcept(a[..], i, j) && BelowAfter(a[..], i, j)
        invariant multiset(a[..]) == old(multiset(a[..]))
      {
        SwapDown(a[..], i, j);
        a[j - 1], a[j] := a[j], a[j - 1];
        j := j - 1;
      }
      InsertDone(a[..], i, j);
      assert a[..][..i + 1] == a[..i + 1];
    }
    assert a[..] == a[..a.Length];
  }

  // ---------------------------------------------------------------------
  // groupby('departamento')['casos'].shift(1).fillna(0)

  function Dept(r: LabeledRow): string {
    r.row.departamento
  }

  /**
   * The per-department shift as a scan: each record gets the flag last seen
   * for its department (0 if none), then becomes the last one seen.
   */
  function LagScan(rows: seq<LabeledRow>): (res: (seq<int>, map<string, int>))
    ensures |res.0| == |rows|
  {
    if |rows| == 0 then ([], map[])
    else
      var n := |rows| - 1;
      var prev := LagScan(rows[..n]);
      var d := Dept(rows[n]);
      (prev.0 + [if d in prev.1 then prev.1[d] else 0], prev.1[d := rows[n].casos])
  }

  /** The `casos_lag1` column. */
  function LagColumn(rows: seq<LabeledRow>): (r: seq<int>)
    ensures |r| == |rows|
  {
    LagScan(rows).0
  }

  /** Reference: the flag of the last record of department `d`, if any. */
  function LastInDept(rows: seq<LabeledRow>, d: string): Option<int> {
    if |rows| == 0 then None
    else if Dept(rows[|rows| - 1]) == d then Some(rows[|rows| - 1].casos)
    else LastInDept(rows[..|rows| - 1], d)
  }

  lemma {:induction false} LagScanState(rows: seq<LabeledRow>)
    ensures forall d :: LastInDept(rows, d) == (if d in LagScan(rows).1 then Some(LagScan(rows).1[d]) else None)
  {
    if |rows| > 0 {
      LagScanState(rows[..|rows| - 1]);
    }
  }

  /** The scan agrees with the reference at every record. */
  lemma {:induction false} LagMatchesReference(rows: seq<LabeledRow>)
    ensures forall i :: 0 <= i < |rows| ==> LagColumn(rows)[i] == LastInDept(rows[..i], Dept(rows[i])).GetOr(0)
  {
    if |rows| > 0 {
      var n := |rows| - 1;
      LagMatchesReference(rows[..n]);
      LagScanState(rows[..n]);
      forall i | 0 <= i < |rows|
        ensures LagColumn(rows)[i] == LastInDept(rows[..i], Dept(rows[i])).GetOr(0)
      {
        if i < n {
          assert rows[..n][..i] == rows[..i];
          assert LagColumn(rows)[i] == LagColumn(rows[..n])[i];
        }
      }
    }
  }

  lemma {:induction false} LastInDeptNone(rows: seq<LabeledRow>, d: string)
    ensures LastInDept(rows, d).None? <==> forall j :: 0 <= j < |rows| ==> Dept(rows[j]) != d
  {
    if |rows| > 0 {
      var n := |rows| - 1;
      LastInDeptNone(rows[..n], d);
      assert forall j :: 0 <= j < n ==> rows[..n][j] == rows[j];
    }
  }

  /** Record `j` is the latest record before `i` of `i`'s department. */
  predicate PreviousOfDept(rows: seq<LabeledRow>, i: nat, j: nat)
    requires i < |rows|
  {
    j < i && Dept(rows[j]) == Dept(rows[i])
    && forall k :: j < k < i ==> Dept(rows[k]) != Dept(rows[i])
  }

  /** No earlier record has `i`'s department. */
  predicate FirstOfDept(rows: seq<LabeledRow>, i: nat)
    requires i < |rows|
  {
    forall j :: 0 <= j < i ==> Dept(rows[j]) != Dept(rows[i])
  }

  lemma {:induction false} LastInDeptSome(rows: seq<LabeledRow>, d: string)
    requires LastInDept(rows, d).Some?
    ensures exists j ::
              && 0 <= j < |rows| && Dept(rows[j]) == d && LastInDept(rows, d) == Some(rows[j].casos)
              && (forall k :: j < k < |rows| ==> Dept(rows[k]) != d)
  {
    var n := |rows| - 1;
    if Dept(rows[n]) != d {
      LastInDeptSome(rows[..n], d);
      var j :| 0 <= j < n && Dept(rows[..n][j]) == d && LastInDept(rows[..n], d) == Some(rows[..n][j].casos)
        && forall k :: j < k < n ==> Dept(rows[..n][k]) != d;
      assert forall k :: j < k < n ==> Dept(rows[k]) != d by {
        assert forall k :: j < k < n ==> rows[..n][k] == rows[k];
      }
    }
  }

  /**
   * `casos_lag1` of record `i` is 0 on the first record of its department,
   * and otherwise the flag of the latest earlier record of that department.
   */
  lemma LagSpec(rows: seq<LabeledRow>, i: nat)
    requires i < |rows|
    ensures FirstOfDept(rows, i) ==> LagColumn(rows)[i] == 0
    ensures !FirstOfDept(rows, i) ==>
      exists j :: 0 <= j < i && PreviousOfDept(rows, i, j) && LagColumn(rows)[i] == rows[j].casos
  {
    LagMatchesReference(rows);
    var pre := rows[..i];
    var d := Dept(rows[i]);
    LastInDeptNone(pre, d);
    assert forall j :: 0 <= j < i ==> pre[j] == rows[j];
    if !FirstOfDept(rows, i) {
      LastInDeptSome(pre, d);
      var j :| 0 <= j < i && Dept(pre[j]) == d && LastInDept(pre, d) == Some(pre[j].casos)
        && forall k :: j < k < i ==> Dept(pre[k]) != d;
      assert PreviousOfDept(rows, i, j);
    }
  }

  /** Flags are 0 or 1. */
  predicate FlagsBinary(rows: seq<LabeledRow>) {
    forall i :: 0 <= i < |rows| ==> rows[i].casos == 0 || rows[i].casos == 1
  }

  /** Over 0/1 flags the lag is 0 or 1 as well. */
  lemma LagBinary(rows: seq<LabeledRow>)
    requires FlagsBinary(rows)
    ensures forall i :: 0 <= i < |rows| ==> LagColumn(rows)[i] == 0 || LagColumn(rows)[i] == 1
  {
    forall i | 0 <= i < |rows| ensures LagColumn(rows)[i] == 0 || LagColumn(rows)[i] == 1 {
      LagSpec(rows, i);
    }
  }

  // ---------------------------------------------------------------------
  // df['casos'].diff().fillna(0)

  /** The `casos_diff` column, over the whole table in its current order. */
  function DiffColumn(rows: seq<LabeledRow>): (r: seq<int>)
    ensures |r| == |rows|
  {
    seq(|rows|, i requires 0 <= i < |rows| => if i == 0 then 0 else rows[i].casos - rows[i - 1].casos)
  }

  /** The differences telescope: a running sum of them gives each flag back. */
  lemma {:induction false} DiffTelescopes(rows: seq<LabeledRow>, i: nat)
    requires i < |rows|
    ensures rows[0].casos + Sum(DiffColumn(rows)[1..i + 1]) == rows[i].casos
  {
    if i > 0 {
      DiffTelescopes(rows, i - 1);
      var d := DiffColumn(rows);
      assert d[1..i + 1][..i - 1] == d[1..i];
    }
  }

  /** Over 0/1 flags the difference lies in {-1, 0, 1}. */
  lemma DiffRange(rows: seq<LabeledRow>)
    requires FlagsBinary(rows)
    ensures forall i :: 0 <= i < |rows| ==> -1 <= DiffColumn(rows)[i] <= 1
    ensures |rows| > 0 ==> DiffColumn(rows)[0] == 0
  {
  }

  // ---------------------------------------------------------------------
  // The stage

  /** The records of `rows` with both features, computed in the order given. */
  function AddFeatures(rows: seq<LabeledRow>): (r: seq<FeatureRow>)
    ensures |r| == |rows|
    ensures Base(r) == rows
  {
    var lag := LagColumn(rows);
    var diff := DiffColumn(rows);
    seq(|rows|, i requires 0 <= i < |rows| =>
      FeatureRow(rows[i].row, rows[i].casos, rows[i].brote, lag[i], diff[i]))
  }

  /** The labelled records underneath the feature records. */
  function Base(rows: seq<FeatureRow>): (r: seq<LabeledRow>)
    ensures |r| == |rows|
  {
    seq(|rows|, i requires 0 <= i < |rows| => LabeledRow(rows[i].row, rows[i].casos, rows[i].brote))
  }

  /**
   * `feature_engineering`: the records, rearranged into key order, each with
   * its lag and difference computed over that order.
   */
  method FeatureEngineering(t: Table<LabeledRow>) returns (f: Table<FeatureRow>)
    ensures f.columns == AddColumn(AddColumn(t.columns, "casos_lag1"), "casos_diff")
    ensures multiset(Base(f.rows)) == multiset(t.rows)
    ensures SortedByKey(Base(f.rows))
    ensures f.rows == AddFeatures(Base(f.rows))
  {
    var a := new LabeledRow[|t.rows|](i requires 0 <= i < |t.rows| => t.rows[i]);
    assert a[..] == t.rows;
    SortByKey(a);
    var sorted := a[..];
    f := Table(AddColumn(AddColumn(t.columns, "casos_lag1"), "casos_diff"), AddFeatures(sorted));
  }

  /** Sorting and adding features keeps the number of records. */
  lemma FeatureCount(t: Table<LabeledRow>, f: Table<FeatureRow>)
    requires multiset(Base(f.rows)) == multiset(t.rows)
    ensures |f.rows| == |t.rows|
  {
    assert |multiset(Base(f.rows))| == |multiset(t.rows)|;
  }
}
