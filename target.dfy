/**
 * The outbreak label: flag confirmed cases, total them per
 * (year, week, department), label each department-week whose total exceeds
 * 1.2 times the mean of that department's last (up to) four recorded weekly
 * totals, and join the label back onto every record.
 */
module Target {
  import opened Wrappers
  import opened Schema

  /** `(df['tipo_dx'] == 'C').astype(int)` for one record. */
  function CaseFlag(r: CleanRow): (c: int)
    ensures c == 0 || c == 1
    ensures c == 1 <==> r.tipoDx == Some(ConfirmedCode)
  {
    if r.tipoDx == Some(ConfirmedCode) then 1 else 0
  }

  /**
   * The `casos` column added to every record: each record is kept, in order,
   * with flag 1 exactly when it is a confirmed case and 0 otherwise.
   */
  function AddCasos(rows: seq<CleanRow>): (r: seq<CaseRow>)
    ensures |r| == |rows|
    ensures forall i :: 0 <= i < |rows| ==>
      && r[i].row == rows[i]
      && (r[i].casos == 0 || r[i].casos == 1)
      && (r[i].casos == 1 <==> rows[i].tipoDx == Some(ConfirmedCode))
  {
    seq(|rows|, i requires 0 <= i < |rows| => CaseRow(rows[i], CaseFlag(rows[i])))
  }

  // ---------------------------------------------------------------------
  // groupby(['ano', 'semana', 'departamento'])['casos'].sum()

  /** One row of the grouped table. */
  datatype WeeklyCount = WeeklyCount(key: Key, casos: int)

  /** Keys strictly increasing: sorted as groupby sorts, each key once. */
  predicate StrictlySorted(w: seq<WeeklyCount>) {
    forall i, j :: 0 <= i < j < |w| ==> KeyLess(w[i].key, w[j].key)
  }

  function Keys(w: seq<WeeklyCount>): set<Key> {
    set i | 0 <= i < |w| :: w[i].key
  }

  lemma KeysCons(w: seq<WeeklyCount>)
    requires |w| > 0
    ensures Keys(w) == {w[0].key} + Keys(w[1..])
  {
    assert forall i :: 0 < i < |w| ==> w[i].key == w[1..][i - 1].key;
    assert forall i :: 0 <= i < |w| - 1 ==> w[1..][i].key == w[i + 1].key;
  }

  /** A key below the first key of a grouped table is not one of its groups. */
  lemma KeyBelowAll(w: seq<WeeklyCount>, k: Key)
    requires StrictlySorted(w) && |w| > 0 && KeyLess(k, w[0].key)
    ensures k !in Keys(w)
  {
    forall i | 0 <= i < |w| ensures w[i].key != k {
      KeyLessIrreflexive(k);
      if i > 0 { KeyLessTransitive(k, w[0].key, w[i].key); }
    }
  }

  /** The total recorded for key `k`, if `k` is a group. */
  function Find(w: seq<WeeklyCount>, k: Key): (r: Option<int>)
    ensures r.Some? <==> k in Keys(w)
  {
    if |w| == 0 then None
    else if w[0].key == k then Some(w[0].casos)
    else
      KeysCons(w);
      Find(w[1..], k)
  }

  /** In a grouped table, looking a group's key up finds that group. */
  lemma {:induction false} FindAt(w: seq<WeeklyCount>, i: nat)
    requires StrictlySorted(w) && i < |w|
    ensures Find(w, w[i].key) == Some(w[i].casos)
  {
    if i > 0 {
      KeyLessIrreflexive(w[0].key);
      FindAt(w[1..], i - 1);
    }
  }

  /** Add `c` to group `k`, creating the group in its sorted place if new. */
  function AddToWeekly(w: seq<WeeklyCount>, k: Key, c: int): seq<WeeklyCount> {
    if |w| == 0 then [WeeklyCount(k, c)]
    else if w[0].key == k then [WeeklyCount(k, w[0].casos + c)] + w[1..]
    else if KeyLess(k, w[0].key) then [WeeklyCount(k, c)] + w
    else [w[0]] + AddToWeekly(w[1..], k, c)
  }

  /** Adding to group `k` leaves the groups as they were, plus `k`. */
  lemma {:induction false} AddToWeeklyKeys(w: seq<WeeklyCount>, k: Key, c: int)
    ensures Keys(AddToWeekly(w, k, c)) == Keys(w) + {k}
  {
    var r := AddToWeekly(w, k, c);
    if |w| == 0 {
      assert r == [WeeklyCount(k, c)];
      assert Keys(r) == {k} by {
        assert r[0].key == k;
      }
    } else if w[0].key == k {
      KeysCons(w);
      KeysCons(r);
      assert r[1..] == w[1..];
    } else if KeyLess(k, w[0].key) {
      KeysCons(r);
      assert r[1..] == w;
    } else {
      AddToWeeklyKeys(w[1..], k, c);
      KeysCons(w);
      KeysCons(r);
      assert r[1..] == AddToWeekly(w[1..], k, c);
    }
  }

  /** Adding to a group keeps the table grouped and sorted, and adds exactly `k`'s group. */
  lemma {:induction false} AddToWeeklySorted(w: seq<WeeklyCount>, k: Key, c: int)
    requires StrictlySorted(w)
    ensures StrictlySorted(AddToWeekly(w, k, c))
    ensures Keys(AddToWeekly(w, k, c)) == Keys(w) + {k}
  {
    AddToWeeklyKeys(w, k, c);
    var r := AddToWeekly(w, k, c);
    if |w| == 0 || w[0].key == k {
      assert |w| > 0 ==> r[1..] == w[1..];
    } else if KeyLess(k, w[0].key) {
      forall i, j | 0 <= i < j < |r| ensures KeyLess(r[i].key, r[j].key) {
        if i == 0 && j > 1 { KeyLessTransitive(k, w[0].key, w[j - 1].key); }
      }
    } else {
      KeyLessTrichotomy(k, w[0].key);
      var rest := AddToWeekly(w[1..], k, c);
      AddToWeeklySorted(w[1..], k, c);
      assert r[1..] == rest;
      forall j | 0 <= j < |rest| ensures KeyLess(w[0].key, rest[j].key) {
        assert rest[j].key in Keys(rest);
        if rest[j].key != k {
          var m :| 0 <= m < |w[1..]| && w[1..][m].key == rest[j].key;
          assert w[1..][m] == w[m + 1];
        }
      }
    }
  }

  /** Adding to group `k` adds `c` to its total and leaves every other total alone. */
  lemma {:induction false} AddToWeeklyFind(w: seq<WeeklyCount>, k: Key, c: int, k': Key)
    requires StrictlySorted(w)
    ensures Find(AddToWeekly(w, k, c), k') == if k' == k then Some(Find(w, k).GetOr(0) + c) else Find(w, k')
  {
    var r := AddToWeekly(w, k, c);
    if |w| == 0 {
    } else if w[0].key == k {
      assert r[1..] == w[1..];
    } else if KeyLess(k, w[0].key) {
      assert r[1..] == w;
      KeyBelowAll(w, k);
    } else {
      AddToWeeklyFind(w[1..], k, c, k');
      assert r[1..] == AddToWeekly(w[1..], k, c);
    }
  }

  /** The keys of the records. */
  function RowKeys(rows: seq<CaseRow>): set<Key> {
    set i | 0 <= i < |rows| :: KeyOf(rows[i].row)
  }

  /** The sum of `casos` over the records with key `k`. */
  function SumFor(rows: seq<CaseRow>, k: Key): int {
    if |rows| == 0 then 0
    else SumFor(rows[..|rows| - 1], k) + (if KeyOf(rows[|rows| - 1].row) == k then rows[|rows| - 1].casos else 0)
  }

  lemma {:induction false} SumForAbsent(rows: seq<CaseRow>, k: Key)
    requires k !in RowKeys(rows)
    ensures SumFor(rows, k) == 0
  {
    if |rows| > 0 {
      var n := |rows| - 1;
      assert forall i :: 0 <= i < n ==> rows[..n][i] == rows[i];
      SumForAbsent(rows[..n], k);
    }
  }

  /** `w` is the grouped sum of `rows`. */
  predicate GroupedSum(w: seq<WeeklyCount>, rows: seq<CaseRow>) {
    && StrictlySorted(w)
    && Keys(w) == RowKeys(rows)
    && forall k :: k in RowKeys(rows) ==> Find(w, k) == Some(SumFor(rows, k))
  }

  /** Adding the last record to the grouped sum of the others gives the grouped sum of all. */
  lemma AggregateStep(rows: seq<CaseRow>, w: seq<WeeklyCount>)
    requires |rows| > 0 && GroupedSum(w, rows[..|rows| - 1])
    ensures GroupedSum(AddToWeekly(w, KeyOf(rows[|rows| - 1].row), rows[|rows| - 1].casos), rows)
  {
    var n := |rows| - 1;
    var last := rows[n];
    var k0 := KeyOf(last.row);
    assert RowKeys(rows) == RowKeys(rows[..n]) + {k0} by {
      assert forall i :: 0 <= i < n ==> rows[..n][i] == rows[i];
    }
    var r := AddToWeekly(w, k0, last.casos);
    AddToWeeklySorted(w, k0, last.casos);
    forall k | k in RowKeys(rows) ensures Find(r, k) == Some(SumFor(rows, k)) {
      AddToWeeklyFind(w, k0, last.casos, k);
      assert rows[..n] == rows[..|rows| - 1];
      if k == k0 && k !in RowKeys(rows[..n]) {
        SumForAbsent(rows[..n], k);
      }
    }
  }

  /**
   * The grouped sum: one entry per distinct key of the records, in key order,
   * holding the sum of `casos` over that key's records.
   */
  function Aggregate(rows: seq<CaseRow>): (w: seq<WeeklyCount>)
    ensures StrictlySorted(w)
    ensures Keys(w) == RowKeys(rows)
    ensures forall k :: k in RowKeys(rows) ==> Find(w, k) == Some(SumFor(rows, k))
  {
    if |rows| == 0 then []
    else
      var n := |rows| - 1;
      var w := Aggregate(rows[..n]);
      AggregateStep(rows, w);
      AddToWeekly(w, KeyOf(rows[n].row), rows[n].casos)
  }

  /** The number of confirmed records with key `k`. */
  function ConfirmedCount(rows: seq<CleanRow>, k: Key): nat {
    if |rows| == 0 then 0
    else ConfirmedCount(rows[..|rows| - 1], k)
         + (if KeyOf(rows[|rows| - 1]) == k && rows[|rows| - 1].tipoDx == Some(ConfirmedCode) then 1 else 0)
  }

  /** Summing the flags counts the confirmed records. */
  lemma {:induction false} SumOfFlags(rows: seq<CleanRow>, k: Key)
    ensures SumFor(AddCasos(rows), k) == ConfirmedCount(rows, k)
  {
    if |rows| > 0 {
      var n := |rows| - 1;
      assert AddCasos(rows)[..n] == AddCasos(rows[..n]);
      SumOfFlags(rows[..n], k);
    }
  }

  /**
   * Every distinct key of the records has exactly one weekly entry, and its
   * total is the number of that key's confirmed records.
   */
  lemma WeeklyTotals(rows: seq<CleanRow>, k: Key)
    ensures var w := Aggregate(AddCasos(rows));
      && (k in Keys(w) <==> exists i :: 0 <= i < |rows| && KeyOf(rows[i]) == k)
      && (forall i, j :: 0 <= i < |w| && 0 <= j < |w| && w[i].key == w[j].key ==> i == j)
      && (k in Keys(w) ==> Find(w, k) == Some(ConfirmedCount(rows, k)))
  {
    var w := Aggregate(AddCasos(rows));
    SumOfFlags(rows, k);
    assert k in RowKeys(AddCasos(rows)) <==> exists i :: 0 <= i < |rows| && KeyOf(rows[i]) == k by {
      assert forall i :: 0 <= i < |rows| ==> AddCasos(rows)[i].row == rows[i];
    }
    forall i, j | 0 <= i < |w| && 0 <= j < |w| && w[i].key == w[j].key ensures i == j {
      if i < j || j < i { KeyLessIrreflexive(w[i].key); }
    }
  }

  // ---------------------------------------------------------------------
  // rolling(window=4, min_periods=1).mean() per department, and the rule

  function Sum(s: seq<int>): int {
    if |s| == 0 then 0 else Sum(s[..|s| - 1]) + s[|s| - 1]
  }

  /** The last `n` entries of `s`, or all of them if fewer. */
  function LastN(s: seq<int>, n: nat): (r: seq<int>)
    ensures |r| <= n && |r| <= |s|
    ensures |s| <= n ==> r == s
    ensures n <= |s| ==> |r| == n
  {
    if |s| <= n then s else s[|s| - n..]
  }

  /**
   * Reference definition of the rule for one week: given the department's
   * recorded weekly totals up to and including this week, 1 when this week's
   * total exceeds 1.2 times the mean of the last (up to) four, in exact
   * arithmetic: 10 * n * c > 12 * S for a window of n totals summing to S.
   */
  function WindowLabel(history: seq<int>): int
    requires |history| > 0
  {
    Rule(LastN(history, 4), history[|history| - 1])
  }

  /** The comparison itself: total `c` against 1.2 times the mean of `window`. */
  function Rule(window: seq<int>, c: int): int {
    if 10 * |window| * c > 12 * Sum(window) then 1 else 0
  }

  /** The totals of department `d`, in the order of the grouped table. */
  function DeptCounts(w: seq<WeeklyCount>, d: string): seq<int> {
    if |w| == 0 then []
    else DeptCounts(w[..|w| - 1], d) + (if w[|w| - 1].key.departamento == d then [w[|w| - 1].casos] else [])
  }

  /** The label of entry `i` of the grouped table. */
  function LabelAt(w: seq<WeeklyCount>, i: nat): int
    requires i < |w|
  {
    WindowLabel(DeptCounts(w[..i + 1], w[i].key.departamento))
  }

  /** The rolling state: the last (up to) three totals seen per department. */
  type Windows = map<string, seq<int>>

  function Previous(acc: Windows, d: string): seq<int> {
    if d in acc then acc[d] else []
  }

  /**
   * The labels as pandas computes them: one pass over the grouped table,
   * keeping per department a sliding window of its last totals; the window of
   * a week is the previous (up to) three totals plus this one.
   */
  function Rolling(w: seq<WeeklyCount>): (res: (seq<int>, Windows))
    ensures |res.0| == |w|
  {
    if |w| == 0 then ([], map[])
    else
      var (labels, acc) := Rolling(w[..|w| - 1]);
      var e := w[|w| - 1];
      var d := e.key.departamento;
      var window := Previous(acc, d) + [e.casos];
      (labels + [Rule(window, e.casos)], acc[d := LastN(window, 3)])
  }

  lemma LastNStep(s: seq<int>, c: int)
    ensures LastN(s + [c], 4) == LastN(s, 3) + [c]
  {
    if |s| > 3 {
      assert (s + [c])[|s| + 1 - 4..] == s[|s| - 3..] + [c];
    }
  }

  lemma LastNOfLastN(s: seq<int>, c: int)
    ensures LastN(LastN(s, 3) + [c], 3) == LastN(s + [c], 3)
  {
    if |s| > 3 {
      assert (s[|s| - 3..] + [c])[1..] == (s + [c])[|s| + 1 - 3..];
    } else if |s| == 3 {
      assert (s + [c])[1..] == (s + [c])[|s| + 1 - 3..];
    }
  }

  /** The sliding windows always hold the last three totals of each department. */
  lemma {:induction false} RollingWindows(w: seq<WeeklyCount>)
    ensures forall d :: Previous(Rolling(w).1, d) == LastN(DeptCounts(w, d), 3)
  {
    if |w| > 0 {
      var n := |w| - 1;
      RollingWindows(w[..n]);
      var acc := Rolling(w[..n]).1;
      var e := w[n];
      var d := e.key.departamento;
      var window := Previous(acc, d) + [e.casos];
      assert Rolling(w).1 == acc[d := LastN(window, 3)];
      forall d' ensures Previous(Rolling(w).1, d') == LastN(DeptCounts(w, d'), 3) {
        if d' == d {
          assert DeptCounts(w, d) == DeptCounts(w[..n], d) + [e.casos];
          LastNOfLastN(DeptCounts(w[..n], d), e.casos);
        } else {
          assert DeptCounts(w, d') == DeptCounts(w[..n], d');
        }
      }
    }
  }

  /** The pass's newest label compares the newest total with the department's window. */
  lemma RollingStep(w: seq<WeeklyCount>)
    requires |w| > 0
    ensures var n := |w| - 1;
      Rolling(w).0[n] == Rule(Previous(Rolling(w[..n]).1, w[n].key.departamento) + [w[n].casos], w[n].casos)
  {
  }

  /** The reference label of the newest week, in terms of the earlier weeks. */
  lemma LabelAtLast(w: seq<WeeklyCount>)
    requires |w| > 0
    ensures var n := |w| - 1;
      var d := w[n].key.departamento;
      LabelAt(w, n) == Rule(LastN(DeptCounts(w[..n], d), 3) + [w[n].casos], w[n].casos)
  {
    var n := |w| - 1;
    var d := w[n].key.departamento;
    assert w[..n + 1] == w;
    assert DeptCounts(w, d) == DeptCounts(w[..n], d) + [w[n].casos];
    LastNStep(DeptCounts(w[..n], d), w[n].casos);
  }

  /** The last step of the pass labels the newest week by the reference rule. */
  lemma RollingLast(w: seq<WeeklyCount>)
    requires |w| > 0
    ensures Rolling(w).0[|w| - 1] == LabelAt(w, |w| - 1)
  {
    RollingStep(w);
    RollingWindows(w[..|w| - 1]);
    LabelAtLast(w);
  }

  /** The earlier steps of the pass are those of the pass over the prefix. */
  lemma RollingPrefix(w: seq<WeeklyCount>, i: nat)
    requires i < |w| - 1
    ensures Rolling(w).0[i] == Rolling(w[..|w| - 1]).0[i]
    ensures LabelAt(w, i) == LabelAt(w[..|w| - 1], i)
  {
    var n := |w| - 1;
    assert w[..n][..i + 1] == w[..i + 1];
    assert w[..n][i] == w[i];
  }

  /** The single pass computes exactly the reference labels. */
  lemma {:induction false} RollingMatchesReference(w: seq<WeeklyCount>)
    ensures forall i :: 0 <= i < |w| ==> Rolling(w).0[i] == LabelAt(w, i)
  {
    if |w| > 0 {
      var n := |w| - 1;
      RollingMatchesReference(w[..n]);
      RollingLast(w);
      forall i | 0 <= i < n ensures Rolling(w).0[i] == LabelAt(w, i) {
        RollingPrefix(w, i);
      }
    }
  }

  /** One labelled week of the grouped table. */
  datatype WeeklyLabel = WeeklyLabel(key: Key, casos: int, brote: int)

  /** The grouped table with its `brote` column. */
  function LabelWeeks(w: seq<WeeklyCount>): (r: seq<WeeklyLabel>)
    ensures |r| == |w|
    ensures forall i :: 0 <= i < |w| ==> r[i].key == w[i].key && r[i].casos == w[i].casos
    ensures forall i :: 0 <= i < |w| ==> r[i].brote == LabelAt(w, i)
  {
    var labels := Rolling(w).0;
    RollingMatchesReference(w);
    seq(|w|, i requires 0 <= i < |w| => WeeklyLabel(w[i].key, w[i].casos, labels[i]))
  }

  // What the rule promises.

  lemma {:induction false} SumNonNegative(s: seq<int>)
    requires forall i :: 0 <= i < |s| ==> s[i] >= 0
    ensures Sum(s) >= 0
  {
    if |s| > 0 { SumNonNegative(s[..|s| - 1]); }
  }

  lemma {:induction false} DeptCountsNonNegative(w: seq<WeeklyCount>, d: string)
    requires forall i :: 0 <= i < |w| ==> w[i].casos >= 0
    ensures forall i :: 0 <= i < |DeptCounts(w, d)| ==> DeptCounts(w, d)[i] >= 0
  {
    if |w| > 0 { DeptCountsNonNegative(w[..|w| - 1], d); }
  }

  /** The integer rule is the source's `casos > rolling_avg * 1.2` in exact arithmetic. */
  lemma WindowLabelIsMeanRule(history: seq<int>)
    requires |history| > 0
    ensures var window := LastN(history, 4);
      WindowLabel(history) == 1
      <==> history[|history| - 1] as real > (Sum(window) as real / |window| as real) * 1.2
  {
    var window := LastN(history, 4);
    var n := |window| as real;
    var c := history[|history| - 1] as real;
    var s := Sum(window) as real;
    assert n > 0.0;
    assert (s / n) * 1.2 * n == s * 1.2;
    assert c > (s / n) * 1.2 <==> c * n > (s / n) * 1.2 * n;
    assert (10 * |window| * history[|history| - 1]) as real == 10.0 * n * c;
  }

  /** A department absent from the grouped table has no totals. */
  lemma {:induction false} DeptCountsAbsent(w: seq<WeeklyCount>, d: string)
    requires forall j :: 0 <= j < |w| ==> w[j].key.departamento != d
    ensures DeptCounts(w, d) == []
  {
    if |w| > 0 {
      DeptCountsAbsent(w[..|w| - 1], d);
    }
  }

  /**
   * A department's first recorded week is never an outbreak: its window is
   * that week alone, and a non-negative total does not exceed 1.2 times itself.
   */
  lemma FirstWeekNotOutbreak(w: seq<WeeklyCount>, i: nat)
    requires i < |w| && w[i].casos >= 0
    requires forall j :: 0 <= j < i ==> w[j].key.departamento != w[i].key.departamento
    ensures LabelAt(w, i) == 0
  {
    var d := w[i].key.departamento;
    assert w[..i + 1][..i] == w[..i];
    DeptCountsAbsent(w[..i], d);
    var history := DeptCounts(w[..i + 1], d);
    assert history == [w[i].casos];
    assert LastN(history, 4) == history;
    assert Sum(history) == history[0];
  }

  /** An outbreak week has at least one confirmed case. */
  lemma OutbreakHasCases(history: seq<int>)
    requires |history| > 0
    requires forall i :: 0 <= i < |history| ==> history[i] >= 0
    requires WindowLabel(history) == 1
    ensures history[|history| - 1] > 0
  {
    var window := LastN(history, 4);
    assert forall i :: 0 <= i < |window| ==> window[i] == history[|history| - |window| + i];
    SumNonNegative(window);
  }

  /**
   * The label the pass computes for a week depends only on its own
   * department's totals up to that week: two weeks of the same department
   * with the same history get the same label, whatever other departments and
   * later weeks hold.
   */
  lemma LabelUsesOwnHistoryOnly(w1: seq<WeeklyCount>, i1: nat, w2: seq<WeeklyCount>, i2: nat)
    requires i1 < |w1| && i2 < |w2|
    requires w1[i1].key.departamento == w2[i2].key.departamento
    requires DeptCounts(w1[..i1 + 1], w1[i1].key.departamento) == DeptCounts(w2[..i2 + 1], w2[i2].key.departamento)
    ensures Rolling(w1).0[i1] == Rolling(w2).0[i2]
  {
    RollingMatchesReference(w1);
    RollingMatchesReference(w2);
  }

  /** The worked example: weekly totals 2, 3, 2, 10, 3 are labelled 0, 0, 0, 1, 0. */
  lemma ExampleLima()
    ensures var w := [WeeklyCount(Key(2023, 1, "LIMA"), 2), WeeklyCount(Key(2023, 2, "LIMA"), 3),
                      WeeklyCount(Key(2023, 3, "LIMA"), 2), WeeklyCount(Key(2023, 4, "LIMA"), 10),
                      WeeklyCount(Key(2023, 5, "LIMA"), 3)];
      Rolling(w).0 == [0, 0, 0, 1, 0]
  {
    var e1, e2, e3 := WeeklyCount(Key(2023, 1, "LIMA"), 2), WeeklyCount(Key(2023, 2, "LIMA"), 3), WeeklyCount(Key(2023, 3, "LIMA"), 2);
    var e4, e5 := WeeklyCount(Key(2023, 4, "LIMA"), 10), WeeklyCount(Key(2023, 5, "LIMA"), 3);
    assert [e1][..0] == [];
    assert [2][..0] == [];
    assert Sum([2]) == 2;
    assert Previous(map[], "LIMA") == [];
    assert [] + [2] == [2];
    assert Rolling([e1]).0 == [0];
    assert Rolling([e1]).1 == map["LIMA" := [2]];
    assert [e1, e2][..1] == [e1];
    assert [2, 3][..1] == [2];
    assert Previous(map["LIMA" := [2]], "LIMA") == [2];
    assert [2] + [3] == [2, 3];
    assert Sum([2, 3]) == 5;
    assert Rolling([e1, e2]).0 == [0, 0];
    assert Rolling([e1, e2]).1 == map["LIMA" := [2, 3]];
    assert [e1, e2, e3][..2] == [e1, e2];
    assert [2, 3, 2][..2] == [2, 3];
    assert Previous(map["LIMA" := [2, 3]], "LIMA") == [2, 3];
    assert [2, 3] + [2] == [2, 3, 2];
    assert Sum([2, 3, 2]) == 7;
    assert Rolling([e1, e2, e3]).0 == [0, 0, 0];
    assert Rolling([e1, e2, e3]).1 == map["LIMA" := [2, 3, 2]];
    assert [e1, e2, e3, e4][..3] == [e1, e2, e3];
    assert [2, 3, 2, 10][..3] == [2, 3, 2];
    assert [2, 3, 2, 10][1..] == [3, 2, 10];
    assert Previous(map["LIMA" := [2, 3, 2]], "LIMA") == [2, 3, 2];
    assert [2, 3, 2] + [10] == [2, 3, 2, 10];
    assert Sum([2, 3, 2, 10]) == 17;
    assert LastN([2, 3, 2, 10], 3) == [3, 2, 10];
    assert Rolling([e1, e2, e3, e4]).0 == [0, 0, 0, 1];
    assert Rolling([e1, e2, e3, e4]).1 == map["LIMA" := [3, 2, 10]];
    assert Previous(map["LIMA" := [3, 2, 10]], "LIMA") == [3, 2, 10];
    assert [3, 2, 10] + [3] == [3, 2, 10, 3];
    assert Sum([3, 2, 10, 3]) == 18;
    assert [e1, e2, e3, e4, e5][..4] == [e1, e2, e3, e4];
    assert [3, 2, 10, 3][..3] == [3, 2, 10];
    assert [3, 2, 10][..2] == [3, 2];
    assert [3, 2][..1] == [3];
    assert [3][..0] == [];
  }

  // ---------------------------------------------------------------------
  // pd.merge(df, weekly[[keys, 'brote']], how='left') and fillna(0)

  /** The label of group `k`, if `k` is a group. */
  function LookupLabel(labels: seq<WeeklyLabel>, k: Key): Option<int> {
    if |labels| == 0 then None
    else if labels[0].key == k then Some(labels[0].brote)
    else LookupLabel(labels[1..], k)
  }

  /** The left join: every record, in order, with the label of its key or 0. */
  function Join(rows: seq<CaseRow>, labels: seq<WeeklyLabel>): (r: seq<LabeledRow>)
    ensures |r| == |rows|
  {
    seq(|rows|, i requires 0 <= i < |rows| =>
      LabeledRow(rows[i].row, rows[i].casos, LookupLabel(labels, KeyOf(rows[i].row)).GetOr(0)))
  }

  lemma {:induction false} LookupLabelAt(w: seq<WeeklyCount>, labels: seq<WeeklyLabel>, i: nat)
    requires StrictlySorted(w) && i < |w|
    requires |labels| == |w| && forall j :: 0 <= j < |w| ==> labels[j].key == w[j].key
    ensures LookupLabel(labels, w[i].key) == Some(labels[i].brote)
  {
    if i > 0 {
      KeyLessIrreflexive(w[0].key);
      LookupLabelAt(w[1..], labels[1..], i - 1);
    }
  }

  /**
   * `create_target_variable`: flag, group, label and join. Without `tipo_dx`
   * the flag cannot be computed (KeyError). With a `brote` column already
   * present, the merge keeps both as `brote_x` and `brote_y`, so reading
   * `brote` afterwards fails (KeyError) as well.
   */
  function CreateTargetVariable(t: Table<CleanRow>): Result<Table<LabeledRow>, Error> {
    if "tipo_dx" !in t.columns then Failure(MissingColumns(["tipo_dx"]))
    else if TargetVariable in t.columns then Failure(MissingColumns([TargetVariable]))
    else
      var rows := AddCasos(t.rows);
      var labels := LabelWeeks(Aggregate(rows));
      Success(Table(AddColumn(AddColumn(t.columns, "casos"), TargetVariable), Join(rows, labels)))
  }

  /** The stage fails exactly in its two error cases, `tipo_dx` first. */
  lemma CreateTargetVariableOutcome(t: Table<CleanRow>)
    ensures CreateTargetVariable(t).Success? <==> "tipo_dx" in t.columns && TargetVariable !in t.columns
    ensures "tipo_dx" !in t.columns ==> CreateTargetVariable(t) == Failure(MissingColumns(["tipo_dx"]))
    ensures "tipo_dx" in t.columns && TargetVariable in t.columns ==>
      CreateTargetVariable(t) == Failure(MissingColumns([TargetVariable]))
  {
  }

  /**
   * Record `o` is record `r` with its flag and the label of its own key's
   * weekly entry in `w`, which is 0 or 1.
   */
  predicate LabeledFrom(r: CleanRow, o: LabeledRow, w: seq<WeeklyCount>) {
    && o.row == r
    && o.casos == CaseFlag(r)
    && (o.brote == 0 || o.brote == 1)
    && exists j :: 0 <= j < |w| && w[j].key == KeyOf(r) && o.brote == LabelAt(w, j)
  }

  /** The join finds the weekly entry of a record whose key is a group. */
  lemma JoinedAt(cases: seq<CaseRow>, w: seq<WeeklyCount>, labels: seq<WeeklyLabel>, i: nat)
    requires i < |cases| && StrictlySorted(w) && KeyOf(cases[i].row) in Keys(w)
    requires |labels| == |w|
    requires forall j :: 0 <= j < |w| ==> labels[j].key == w[j].key && labels[j].brote == LabelAt(w, j)
    ensures var o := Join(cases, labels)[i];
      && o.row == cases[i].row && o.casos == cases[i].casos
      && exists j :: 0 <= j < |w| && w[j].key == KeyOf(cases[i].row) && o.brote == LabelAt(w, j)
  {
    var j :| 0 <= j < |w| && w[j].key == KeyOf(cases[i].row);
    LookupLabelAt(w, labels, j);
  }

  /** Each joined record carries the label of its own key's weekly entry. */
  lemma JoinedLabel(rows: seq<CleanRow>, i: nat)
    requires i < |rows|
    ensures var w := Aggregate(AddCasos(rows));
      LabeledFrom(rows[i], Join(AddCasos(rows), LabelWeeks(w))[i], w)
  {
    var cases := AddCasos(rows);
    var w := Aggregate(cases);
    var labels := LabelWeeks(w);
    assert cases[i].row == rows[i];
    assert KeyOf(rows[i]) in RowKeys(cases);
    JoinedAt(cases, w, labels, i);
  }

  /**
   * The stage keeps every record, in order and unchanged, adds its flag, and
   * gives it the label of its own key's weekly entry, which is 0 or 1; no
   * record falls back to the default 0 of an unmatched key.
   */
  lemma CreateTargetVariableSpec(t: Table<CleanRow>)
    requires "tipo_dx" in t.columns && TargetVariable !in t.columns
    ensures CreateTargetVariable(t).Success?
    ensures var out := CreateTargetVariable(t).value;
      && |out.rows| == |t.rows|
      && TargetVariable in out.columns && "casos" in out.columns
      && forall i :: 0 <= i < |t.rows| ==> LabeledFrom(t.rows[i], out.rows[i], Aggregate(AddCasos(t.rows)))
  {
    var cases := AddCasos(t.rows);
    var w := Aggregate(cases);
    var out := CreateTargetVariable(t).value;
    assert out.rows == Join(cases, LabelWeeks(w));
    forall i | 0 <= i < |t.rows|
      ensures LabeledFrom(t.rows[i], out.rows[i], w)
    {
      JoinedLabel(t.rows, i);
    }
  }
}
