/**
 * `preprocess_data`: cleaning, the outbreak label, the lag and difference
 * features and the label encoding, chained; the first stage that indexes a
 * missing column stops the chain with that error.
 */
module Pipeline {
  import opened Wrappers
  import opened Schema
  import opened Cleaning
  import opened Target
  import opened Features
  import opened Encoding

  /** The department code of an encoded record (-1 while still text). */
  function DeptCode(r: EncodedRow): int {
    match r.departamento
    case Code(n) => n
    case Raw(_) => -1
  }

  /** (year, week, department code) order, ties allowed. */
  predicate EncodedLe(a: EncodedRow, b: EncodedRow) {
    a.ano < b.ano
    || (a.ano == b.ano && a.semana < b.semana)
    || (a.ano == b.ano && a.semana == b.semana && DeptCode(a) <= DeptCode(b))
  }

  predicate SortedByEncodedKey(rows: seq<EncodedRow>) {
    forall i, j :: 0 <= i < j < |rows| ==> EncodedLe(rows[i], rows[j])
  }

  /** Flag and label are both 0 or 1. */
  predicate Binary(x: LabeledRow) {
    (x.casos == 0 || x.casos == 1) && (x.brote == 0 || x.brote == 1)
  }

  /** `x` is cleaned record `rows[j]` for some `j`, with that record's flag. */
  predicate FromClean(x: LabeledRow, rows: seq<CleanRow>) {
    exists j :: 0 <= j < |rows| && x.row == rows[j] && x.casos == CaseFlag(rows[j])
  }

  /** Every labelled record comes from a cleaned record, with 0/1 flag and label. */
  lemma LabeledFacts(c: Table<CleanRow>)
    requires "tipo_dx" in c.columns && TargetVariable !in c.columns
    ensures CreateTargetVariable(c).Success?
    ensures var l := CreateTargetVariable(c).value;
      && |l.rows| == |c.rows|
      && forall x :: x in l.rows ==> Binary(x) && FromClean(x, c.rows)
  {
    CreateTargetVariableSpec(c);
    var l := CreateTargetVariable(c).value;
    forall x | x in l.rows ensures Binary(x) && FromClean(x, c.rows) {
      var i :| 0 <= i < |l.rows| && l.rows[i] == x;
      assert LabeledFrom(c.rows[i], l.rows[i], Aggregate(AddCasos(c.rows)));
    }
  }

  /**
   * The feature records are the labelled records rearranged: each of them
   * is one of the input records, with lag and flag in {0, 1} and difference
   * in {-1, 0, 1}.
   */
  lemma FeatureFacts(l: seq<LabeledRow>, rows: seq<FeatureRow>)
    requires multiset(Base(rows)) == multiset(l)
    requires rows == AddFeatures(Base(rows))
    requires forall x :: x in l ==> Binary(x)
    ensures |rows| == |l|
    ensures forall i :: 0 <= i < |rows| ==> Base(rows)[i] in l
    ensures forall i :: 0 <= i < |rows| ==>
      && Binary(Base(rows)[i])
      && (rows[i].casosLag1 == 0 || rows[i].casosLag1 == 1)
      && -1 <= rows[i].casosDiff <= 1
  {
    var b := Base(rows);
    assert |multiset(b)| == |multiset(l)|;
    forall i | 0 <= i < |rows| ensures b[i] in l {
      assert b[i] in multiset(b);
    }
    LagBinary(b);
    DiffRange(b);
  }

  /** Each configured column the table has gets an encoder, and no other column does. */
  lemma EncoderKeys(f: Table<FeatureRow>)
    ensures var res := EncodeUpTo(Initial(f.rows), f.columns, |CategoricalFeatures|);
      forall c :: c in res.1 <==> c in CategoricalFeatures && c in f.columns
  {
    var res := EncodeUpTo(Initial(f.rows), f.columns, |CategoricalFeatures|);
    EncodeUpToData(Initial(f.rows), f.columns, |CategoricalFeatures|);
    forall c | c in CategoricalFeatures ensures c in res.1 <==> c in f.columns {
      if c in f.columns { EncodePresent(f, c); } else { EncodeAbsent(f, c); }
    }
  }

  /**
   * With the department column present, every encoded department is a code
   * that decodes to the record's department, and the key order of the
   * feature table carries over to (year, week, department code).
   */
  lemma EncodedDepartments(f: Table<FeatureRow>)
    requires "departamento" in f.columns
    requires SortedByKey(Base(f.rows))
    ensures var res := EncodeUpTo(Initial(f.rows), f.columns, |CategoricalFeatures|);
      && "departamento" in res.1
      && (forall i :: 0 <= i < |f.rows| ==>
            && res.0[i].departamento.Code?
            && res.1["departamento"].InverseTransform(res.0[i].departamento.code) == Some(f.rows[i].row.departamento))
      && SortedByEncodedKey(res.0)
  {
    var init := Initial(f.rows);
    var res := EncodeUpTo(init, f.columns, |CategoricalFeatures|);
    var values := ColumnText(init, "departamento");
    var fit := FitTransform(values);
    EncodePresent(f, "departamento");
    EncodeUpToData(init, f.columns, |CategoricalFeatures|);
    assert forall i :: 0 <= i < |f.rows| ==> values[i] == f.rows[i].row.departamento;
    forall i, j | 0 <= i < j < |res.0| ensures EncodedLe(res.0[i], res.0[j]) {
      FitTransformOrder(values, i, j);
      assert KeyLe(RowKey(Base(f.rows)[i]), RowKey(Base(f.rows)[j]));
      assert SameData(init[i], res.0[i]) && SameData(init[j], res.0[j]);
    }
  }

  /**
   * Output record `o` is cleaned record `r`: same year, week, age and
   * diagnosis, the flag of `r`, and a department code that decodes to `r`'s.
   */
  predicate Origin(r: CleanRow, o: EncodedRow, encoders: map<string, Encoder>) {
    && o.ano == r.ano && o.semana == r.semana && o.edad == r.edad && o.tipoDx == r.tipoDx
    && o.casos == CaseFlag(r)
    && "departamento" in encoders && o.departamento.Code?
    && encoders["departamento"].InverseTransform(o.departamento.code) == Some(r.departamento)
  }

  /** `o` is the encoded form of one of `rows`. */
  predicate HasOrigin(rows: seq<CleanRow>, o: EncodedRow, encoders: map<string, Encoder>) {
    exists j :: 0 <= j < |rows| && Origin(rows[j], o, encoders)
  }

  /** Each output record is the encoded form of a cleaned record. */
  lemma OutputOrigins(c: Table<CleanRow>, f: Table<FeatureRow>, e: Table<EncodedRow>, encoders: map<string, Encoder>)
    requires forall i :: 0 <= i < |f.rows| ==> FromClean(Base(f.rows)[i], c.rows)
    requires |e.rows| == |f.rows|
    requires forall i :: 0 <= i < |f.rows| ==> SameData(Unencoded(f.rows[i]), e.rows[i])
    requires "departamento" in encoders
    requires forall i :: 0 <= i < |f.rows| ==>
      && e.rows[i].departamento.Code?
      && encoders["departamento"].InverseTransform(e.rows[i].departamento.code) == Some(f.rows[i].row.departamento)
    ensures forall i :: 0 <= i < |e.rows| ==> HasOrigin(c.rows, e.rows[i], encoders)
  {
    forall i | 0 <= i < |e.rows|
      ensures HasOrigin(c.rows, e.rows[i], encoders)
    {
      var x := Base(f.rows)[i];
      assert FromClean(x, c.rows);
      var j :| 0 <= j < |c.rows| && x.row == c.rows[j] && x.casos == CaseFlag(c.rows[j]);
      assert f.rows[i].row == c.rows[j] && f.rows[i].casos == x.casos;
      assert SameData(Unencoded(f.rows[i]), e.rows[i]);
      assert Origin(c.rows[j], e.rows[i], encoders);
    }
  }

  /** The four added columns are none of the categorical ones. */
  lemma AddedNotCategorical(columns: seq<string>, added: seq<string>)
    requires added == AddColumn(AddColumn(AddColumn(AddColumn(columns, "casos"), TargetVariable), "casos_lag1"), "casos_diff")
    ensures forall k :: k in CategoricalFeatures ==> (k in added <==> k in columns)
  {
    forall k | k in CategoricalFeatures ensures k in added <==> k in columns {
      assert k != "casos" && k != TargetVariable && k != "casos_lag1" && k != "casos_diff";
    }
  }

  /**
   * Stage outputs chained as `preprocess_data` chains them: `f` is the
   * labelled table sorted, with features; `e` and `encoders` its encoding.
   */
  ghost predicate Stages(c: Table<CleanRow>, f: Table<FeatureRow>, e: Table<EncodedRow>, encoders: map<string, Encoder>) {
    && HasCleaningColumns(c.columns) && "tipo_dx" in c.columns && TargetVariable !in c.columns
    && CreateTargetVariable(c).Success?
    && f.columns == AddColumn(AddColumn(CreateTargetVariable(c).value.columns, "casos_lag1"), "casos_diff")
    && multiset(Base(f.rows)) == multiset(CreateTargetVariable(c).value.rows)
    && SortedByKey(Base(f.rows)) && f.rows == AddFeatures(Base(f.rows))
    && e.columns == f.columns
    && (e.rows, encoders) == EncodeUpTo(Initial(f.rows), f.columns, |CategoricalFeatures|)
  }

  lemma StagesShape(c: Table<CleanRow>, f: Table<FeatureRow>, e: Table<EncodedRow>, encoders: map<string, Encoder>)
    requires Stages(c, f, e, encoders)
    ensures |e.rows| == |c.rows|
    ensures e.columns == AddColumn(AddColumn(AddColumn(AddColumn(c.columns, "casos"), TargetVariable), "casos_lag1"), "casos_diff")
    ensures forall k :: k in encoders <==> k in CategoricalFeatures && k in c.columns
  {
    LabeledFacts(c);
    FeatureCount(CreateTargetVariable(c).value, f);
    EncoderKeys(f);
    AddedNotCategorical(c.columns, f.columns);
  }

  lemma StagesValues(c: Table<CleanRow>, f: Table<FeatureRow>, e: Table<EncodedRow>, encoders: map<string, Encoder>)
    requires Stages(c, f, e, encoders)
    ensures forall i :: 0 <= i < |e.rows| ==>
      && (e.rows[i].casos == 0 || e.rows[i].casos == 1)
      && (e.rows[i].brote == 0 || e.rows[i].brote == 1)
      && (e.rows[i].casosLag1 == 0 || e.rows[i].casosLag1 == 1)
      && -1 <= e.rows[i].casosDiff <= 1
  {
    LabeledFacts(c);
    FeatureFacts(CreateTargetVariable(c).value.rows, f.rows);
    EncodeKeepsData(f);
    forall i | 0 <= i < |e.rows|
      ensures && (e.rows[i].casos == 0 || e.rows[i].casos == 1)
              && (e.rows[i].brote == 0 || e.rows[i].brote == 1)
              && (e.rows[i].casosLag1 == 0 || e.rows[i].casosLag1 == 1)
              && -1 <= e.rows[i].casosDiff <= 1
    {
      assert SameData(Unencoded(f.rows[i]), e.rows[i]);
      assert Binary(Base(f.rows)[i]);
    }
  }

  lemma StagesSorted(c: Table<CleanRow>, f: Table<FeatureRow>, e: Table<EncodedRow>, encoders: map<string, Encoder>)
    requires Stages(c, f, e, encoders)
    ensures SortedByEncodedKey(e.rows)
  {
    assert "departamento" == KeyColumns[0];
    EncodedDepartments(f);
  }

  /** Each sorted feature record is a cleaned record with its flag. */
  lemma FeatureOrigins(c: Table<CleanRow>, f: Table<FeatureRow>)
    requires "tipo_dx" in c.columns && TargetVariable !in c.columns
    requires CreateTargetVariable(c).Success?
    requires multiset(Base(f.rows)) == multiset(CreateTargetVariable(c).value.rows)
    requires f.rows == AddFeatures(Base(f.rows))
    ensures forall i :: 0 <= i < |f.rows| ==> FromClean(Base(f.rows)[i], c.rows)
  {
    var l := CreateTargetVariable(c).value;
    LabeledFacts(c);
    FeatureFacts(l.rows, f.rows);
  }

  lemma StagesOrigins(c: Table<CleanRow>, f: Table<FeatureRow>, e: Table<EncodedRow>, encoders: map<string, Encoder>)
    requires Stages(c, f, e, encoders)
    ensures forall i :: 0 <= i < |e.rows| ==> HasOrigin(c.rows, e.rows[i], encoders)
  {
    FeatureOrigins(c, f);
    assert "departamento" == KeyColumns[0];
    EncodedDepartments(f);
    EncodeKeepsData(f);
    OutputOrigins(c, f, e, encoders);
  }

  /** The cleaned records underneath labelled records. */
  function Records(s: seq<LabeledRow>): seq<CleanRow> {
    seq(|s|, i requires 0 <= i < |s| => s[i].row)
  }

  /** Taking entry `k` out of `b` takes one copy of its record out. */
  lemma RecordsRemove(b: seq<LabeledRow>, k: nat)
    requires k < |b|
    ensures multiset(b[..k] + b[k + 1..]) == multiset(b) - multiset{b[k]}
    ensures multiset(Records(b)) == multiset(Records(b[..k] + b[k + 1..])) + multiset{b[k].row}
  {
    assert b == b[..k] + [b[k]] + b[k + 1..];
    assert Records(b) == Records(b[..k]) + [b[k].row] + Records(b[k + 1..]);
    assert Records(b[..k] + b[k + 1..]) == Records(b[..k]) + Records(b[k + 1..]);
  }

  /** Rearranging labelled records rearranges their cleaned records alike. */
  lemma {:induction false} RecordsPermuted(a: seq<LabeledRow>, b: seq<LabeledRow>)
    requires multiset(a) == multiset(b)
    ensures multiset(Records(a)) == multiset(Records(b))
  {
    if |a| > 0 {
      var n := |a| - 1;
      var x := a[n];
      RecordsRemove(a, n);
      assert a[..n] + a[n + 1..] == a[..n];
      assert x in multiset(b);
      var k :| 0 <= k < |b| && b[k] == x;
      RecordsRemove(b, k);
      RecordsPermuted(a[..n], b[..k] + b[k + 1..]);
    }
  }

  /**
   * The outcome of `preprocess_data` from a cleaned table `c`, through the
   * feature table `f` underneath the encoded table `e`:
   * - the header gains the four columns, and exactly the configured columns
   *   the table has get encoders;
   * - every cleaned record comes out exactly once (a rearrangement),
   *   sorted by (year, week, department), then by department code;
   * - each record carries its flag and the label of its own key's weekly
   *   entry, and its lag and difference are those computed over the sorted
   *   order;
   * - each encoded cell decodes to the record's text, and every other field
   *   is the feature record's.
   */
  ghost predicate Processed(c: Table<CleanRow>, f: Table<FeatureRow>, e: Table<EncodedRow>, encoders: map<string, Encoder>) {
    && ProcessedShape(c, f, e, encoders)
    && ProcessedOrder(c, f, e)
    && ProcessedRecords(c, f, e, encoders)
    && ProcessedCells(f, e, encoders)
  }

  ghost predicate ProcessedShape(c: Table<CleanRow>, f: Table<FeatureRow>, e: Table<EncodedRow>, encoders: map<string, Encoder>) {
    && |e.rows| == |c.rows| && |f.rows| == |e.rows|
    && e.columns == AddColumn(AddColumn(AddColumn(AddColumn(c.columns, "casos"), TargetVariable), "casos_lag1"), "casos_diff")
    && (forall k :: k in encoders <==> k in CategoricalFeatures && k in c.columns)
  }

  ghost predicate ProcessedOrder(c: Table<CleanRow>, f: Table<FeatureRow>, e: Table<EncodedRow>) {
    && multiset(Records(Base(f.rows))) == multiset(c.rows)
    && SortedByKey(Base(f.rows)) && f.rows == AddFeatures(Base(f.rows))
    && SortedByEncodedKey(e.rows)
  }

  ghost predicate ProcessedRecords(c: Table<CleanRow>, f: Table<FeatureRow>, e: Table<EncodedRow>, encoders: map<string, Encoder>)
    requires |f.rows| == |e.rows|
  {
    forall i :: 0 <= i < |e.rows| ==>
      && LabeledFrom(f.rows[i].row, Base(f.rows)[i], Aggregate(AddCasos(c.rows)))
      && SameData(Unencoded(f.rows[i]), e.rows[i])
      && Origin(f.rows[i].row, e.rows[i], encoders)
      && HasOrigin(c.rows, e.rows[i], encoders)
      && (e.rows[i].casosLag1 == 0 || e.rows[i].casosLag1 == 1)
      && -1 <= e.rows[i].casosDiff <= 1
  }

  ghost predicate ProcessedCells(f: Table<FeatureRow>, e: Table<EncodedRow>, encoders: map<string, Encoder>)
    requires |f.rows| == |e.rows|
  {
    forall i, m :: 0 <= i < |e.rows| && m in CategoricalFeatures ==> CellEncoded(f.rows[i], e.rows[i], e.columns, encoders, m)
  }

  /**
   * Configured cell `m` of output record `o`: a code that its column's
   * encoder decodes to the feature record's text when the table has the
   * column, and the feature record's own cell otherwise.
   */
  predicate CellEncoded(x: FeatureRow, o: EncodedRow, columns: seq<string>, encoders: map<string, Encoder>, m: string)
    requires m in CategoricalFeatures
  {
    if m in columns then
      && m in encoders
      && GetCell(o, m).Code?
      && encoders[m].InverseTransform(GetCell(o, m).code) == Some(CellText(GetCell(Unencoded(x), m)))
    else
      GetCell(o, m) == GetCell(Unencoded(x), m)
  }

  /**
   * Rearranged labelled records, each the labelling of the cleaned record
   * at its position, keep their cleaned records and labels.
   */
  lemma LabelsCarried(c: seq<CleanRow>, l: seq<LabeledRow>, rows: seq<FeatureRow>, w: seq<WeeklyCount>)
    requires |l| == |c|
    requires forall i :: 0 <= i < |c| ==> LabeledFrom(c[i], l[i], w)
    requires multiset(Base(rows)) == multiset(l)
    ensures multiset(Records(Base(rows))) == multiset(c)
    ensures forall i :: 0 <= i < |rows| ==> LabeledFrom(rows[i].row, Base(rows)[i], w)
  {
    assert Records(l) == c;
    RecordsPermuted(Base(rows), l);
    forall i | 0 <= i < |rows| ensures LabeledFrom(rows[i].row, Base(rows)[i], w) {
      var x := Base(rows)[i];
      assert x in multiset(l) by {
        assert x in multiset(Base(rows));
      }
      var j :| 0 <= j < |l| && l[j] == x;
      assert LabeledFrom(c[j], l[j], w);
    }
  }

  /** Each sorted feature record is its own cleaned record, labelled and flagged. */
  lemma StagesLabels(c: Table<CleanRow>, f: Table<FeatureRow>, e: Table<EncodedRow>, encoders: map<string, Encoder>)
    requires Stages(c, f, e, encoders)
    ensures multiset(Records(Base(f.rows))) == multiset(c.rows)
    ensures forall i :: 0 <= i < |f.rows| ==> LabeledFrom(f.rows[i].row, Base(f.rows)[i], Aggregate(AddCasos(c.rows)))
  {
    CreateTargetVariableSpec(c);
    LabelsCarried(c.rows, CreateTargetVariable(c).value.rows, f.rows, Aggregate(AddCasos(c.rows)));
  }

  /** Each output record is its feature record, with its department code decoding to its department. */
  lemma EncodedRecords(f: Table<FeatureRow>, e: Table<EncodedRow>, encoders: map<string, Encoder>)
    requires "departamento" in f.columns && SortedByKey(Base(f.rows))
    requires (e.rows, encoders) == EncodeUpTo(Initial(f.rows), f.columns, |CategoricalFeatures|)
    requires forall i :: 0 <= i < |f.rows| ==> f.rows[i].casos == CaseFlag(f.rows[i].row)
    ensures |f.rows| == |e.rows|
    ensures forall i :: 0 <= i < |e.rows| ==>
      SameData(Unencoded(f.rows[i]), e.rows[i]) && Origin(f.rows[i].row, e.rows[i], encoders)
  {
    EncodedDepartments(f);
    EncodeKeepsData(f);
  }

  /** A configured column the table has decodes, cell by cell, to the record's text. */
  lemma EncodedCellsPresent(f: Table<FeatureRow>, e: Table<EncodedRow>, encoders: map<string, Encoder>, m: string)
    requires m in CategoricalFeatures && m in f.columns
    requires (e.rows, encoders) == EncodeUpTo(Initial(f.rows), f.columns, |CategoricalFeatures|)
    ensures m in encoders
    ensures forall i :: 0 <= i < |e.rows| ==>
      && GetCell(e.rows[i], m).Code?
      && encoders[m].InverseTransform(GetCell(e.rows[i], m).code) == Some(CellText(GetCell(Unencoded(f.rows[i]), m)))
  {
    var init := Initial(f.rows);
    EncodePresent(f, m);
    var values := ColumnText(init, m);
    assert forall i :: 0 <= i < |f.rows| ==> values[i] == CellText(GetCell(Unencoded(f.rows[i]), m));
  }

  /** Every configured cell is encoded when the table has the column, and untouched otherwise. */
  lemma EncodedCells(f: Table<FeatureRow>, e: Table<EncodedRow>, encoders: map<string, Encoder>)
    requires e.columns == f.columns
    requires (e.rows, encoders) == EncodeUpTo(Initial(f.rows), f.columns, |CategoricalFeatures|)
    ensures |f.rows| == |e.rows| && ProcessedCells(f, e, encoders)
  {
    assert |e.rows| == |Initial(f.rows)| == |f.rows|;
    forall i, m | 0 <= i < |e.rows| && m in CategoricalFeatures
      ensures CellEncoded(f.rows[i], e.rows[i], e.columns, encoders, m)
    {
      if m in e.columns {
        EncodedCellsPresent(f, e, encoders, m);
      } else {
        EncodeAbsent(f, m);
      }
    }
  }

  lemma ShapeHolds(c: Table<CleanRow>, f: Table<FeatureRow>, e: Table<EncodedRow>, encoders: map<string, Encoder>)
    requires Stages(c, f, e, encoders)
    ensures ProcessedShape(c, f, e, encoders)
  {
    StagesShape(c, f, e, encoders);
    EncodeKeepsData(f);
  }

  lemma OrderHolds(c: Table<CleanRow>, f: Table<FeatureRow>, e: Table<EncodedRow>, encoders: map<string, Encoder>)
    requires Stages(c, f, e, encoders)
    ensures ProcessedOrder(c, f, e)
  {
    StagesSorted(c, f, e, encoders);
    StagesLabels(c, f, e, encoders);
  }

  lemma RecordsHold(c: Table<CleanRow>, f: Table<FeatureRow>, e: Table<EncodedRow>, encoders: map<string, Encoder>)
    requires Stages(c, f, e, encoders)
    ensures |f.rows| == |e.rows| && ProcessedRecords(c, f, e, encoders)
  {
    StagesValues(c, f, e, encoders);
    StagesOrigins(c, f, e, encoders);
    StagesLabels(c, f, e, encoders);
    assert "departamento" == KeyColumns[0];
    LabeledRecords(f, e, encoders, Aggregate(AddCasos(c.rows)));
  }

  /** Records carrying their labels keep them, and their flags, through the encoding. */
  lemma LabeledRecords(f: Table<FeatureRow>, e: Table<EncodedRow>, encoders: map<string, Encoder>, w: seq<WeeklyCount>)
    requires "departamento" in f.columns && SortedByKey(Base(f.rows))
    requires (e.rows, encoders) == EncodeUpTo(Initial(f.rows), f.columns, |CategoricalFeatures|)
    requires forall i :: 0 <= i < |f.rows| ==> LabeledFrom(f.rows[i].row, Base(f.rows)[i], w)
    ensures |f.rows| == |e.rows|
    ensures forall i :: 0 <= i < |e.rows| ==>
      SameData(Unencoded(f.rows[i]), e.rows[i]) && Origin(f.rows[i].row, e.rows[i], encoders)
  {
    assert forall i :: 0 <= i < |f.rows| ==> f.rows[i].casos == CaseFlag(f.rows[i].row) by {
      assert forall i :: 0 <= i < |f.rows| ==> f.rows[i].casos == Base(f.rows)[i].casos;
    }
    EncodedRecords(f, e, encoders);
  }

  /** What the last three stages make of a cleaned table that has `tipo_dx` and no `brote`. */
  lemma StagesProcess(c: Table<CleanRow>, f: Table<FeatureRow>, e: Table<EncodedRow>, encoders: map<string, Encoder>)
    requires Stages(c, f, e, encoders)
    ensures Processed(c, f, e, encoders)
  {
    ShapeHolds(c, f, e, encoders);
    OrderHolds(c, f, e, encoders);
    RecordsHold(c, f, e, encoders);
    EncodedCells(f, e, encoders);
  }

  /**
   * `preprocess_data`. It fails exactly when cleaning fails, the cleaned
   * table has no `tipo_dx`, or it already has a `brote` column, with the
   * error of the stage that stopped. Otherwise `features` is the table
   * underneath the result, chained stage by stage, and the result is
   * `Processed` from the cleaned table.
   */
  method PreprocessData(t: Table<RawRow>) returns (r: Result<(Table<EncodedRow>, map<string, Encoder>), Error>, ghost features: Table<FeatureRow>)
    ensures Clean(t).Failure? ==> r == Failure(Clean(t).error)
    ensures Clean(t).Success? && "tipo_dx" !in Clean(t).value.columns ==> r == Failure(MissingColumns(["tipo_dx"]))
    ensures Clean(t).Success? && "tipo_dx" in Clean(t).value.columns && TargetVariable in Clean(t).value.columns ==>
      r == Failure(MissingColumns([TargetVariable]))
    ensures Clean(t).Success? && "tipo_dx" in Clean(t).value.columns && TargetVariable !in Clean(t).value.columns ==>
      && r.Success?
      && Stages(Clean(t).value, features, r.value.0, r.value.1)
      && Processed(Clean(t).value, features, r.value.0, r.value.1)
  {
    features := Table([], []);
    var cleaned := CleanData(t);
    if cleaned.Failure? {
      return Failure(cleaned.error), features;
    }
    var c := cleaned.value;
    var labeled := CreateTargetVariable(c);
    if labeled.Failure? {
      return Failure(labeled.error), features;
    }
    var l := labeled.value;
    var f := FeatureEngineering(l);
    var e, encoders := EncodeCategoricalFeatures(f);
    CleanOutcome(t);
    StagesProcess(c, f, e, encoders);
    features := f;
    r := Success((e, encoders));
  }
}
