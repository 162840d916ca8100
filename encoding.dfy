/**
 * Label encoding of the categorical columns. For each configured column the
 * table has, every value is turned into text (a missing value becomes
 * "nan"), the distinct texts are sorted into the encoder's class list, and
 * each value is replaced by its position in that list.
 */
module Encoding {
  import opened Wrappers
  import opened Text
  import opened Numeric
  import opened Schema

  // ---------------------------------------------------------------------
  // LabelEncoder

  /** Strictly increasing in string order: sorted and free of repeats. */
  predicate StrictlyIncreasing(s: seq<string>) {
    forall i, j :: 0 <= i < j < |s| ==> StrLess(s[i], s[j])
  }

  /** Inserts `v` into a sorted class list unless it is already there. */
  function InsertClass(cls: seq<string>, v: string): seq<string> {
    if |cls| == 0 then [v]
    else if v == cls[0] then cls
    else if StrLess(v, cls[0]) then [v] + cls
    else [cls[0]] + InsertClass(cls[1..], v)
  }

  lemma {:induction false} InsertClassSpec(cls: seq<string>, v: string)
    requires StrictlyIncreasing(cls)
    ensures StrictlyIncreasing(InsertClass(cls, v))
    ensures forall x :: x in InsertClass(cls, v) <==> x in cls || x == v
  {
    if |cls| > 0 && v != cls[0] {
      StrLessTrichotomy(v, cls[0]);
      if StrLess(v, cls[0]) {
        forall j | 0 <= j < |cls| ensures StrLess(v, cls[j]) {
          if j > 0 { StrLessTransitive(v, cls[0], cls[j]); }
        }
      } else {
        var rest := InsertClass(cls[1..], v);
        InsertClassSpec(cls[1..], v);
        forall x | x in rest ensures StrLess(cls[0], x) {
          if x != v {
            var j :| 0 <= j < |cls[1..]| && cls[1..][j] == x;
            assert cls[j + 1] == x;
          }
        }
        var r := [cls[0]] + rest;
        forall i, j | 0 <= i < j < |r| ensures StrLess(r[i], r[j]) {
          if i == 0 {
            assert r[j] == rest[j - 1] && r[j] in rest;
          } else {
            assert r[i] == rest[i - 1] && r[j] == rest[j - 1];
          }
        }
      }
    }
  }

  /** `classes_`: the distinct values, sorted. */
  function Classes(values: seq<string>): (cls: seq<string>)
    ensures StrictlyIncreasing(cls)
    ensures forall x :: x in cls <==> x in values
  {
    if |values| == 0 then []
    else
      var n := |values| - 1;
      var prev := Classes(values[..n]);
      InsertClassSpec(prev, values[n]);
      assert values == values[..n] + [values[n]];
      InsertClass(prev, values[n])
  }

  /** The position of a class in the list: the dictionary lookup of `transform`. */
  function IndexOf(cls: seq<string>, v: string): (i: nat)
    requires v in cls
    ensures i < |cls| && cls[i] == v
  {
    if cls[0] == v then 0 else 1 + IndexOf(cls[1..], v)
  }

  /** A sorted list of distinct strings has as many entries as distinct members. */
  lemma {:induction false} DistinctCount(s: seq<string>)
    requires StrictlyIncreasing(s)
    ensures |set x | x in s| == |s|
  {
    if |s| > 0 {
      DistinctCount(s[1..]);
      StrLessIrreflexive(s[0]);
      assert (set x | x in s) == {s[0]} + (set x | x in s[1..]);
      assert s[0] !in (set x | x in s[1..]);
    }
  }

  /** A fitted encoder: its class list. */
  datatype Encoder = Encoder(classes: seq<string>) {
    /** `transform` of one value; an unseen value is an error (`None`). */
    function Transform(v: string): Option<nat> {
      if v in classes then Some(IndexOf(classes, v)) else None
    }

    /** `inverse_transform` of one code; an out-of-range code is an error. */
    function InverseTransform(code: nat): Option<string> {
      if code < |classes| then Some(classes[code]) else None
    }
  }

  /**
   * `fit_transform`: the encoder fitted on `values` and the code of each
   * value, which decodes back to the value.
   */
  function FitTransform(values: seq<string>): (res: (Encoder, seq<nat>))
    ensures |res.1| == |values|
    ensures forall i :: 0 <= i < |values| ==>
      res.1[i] < |res.0.classes| && res.0.classes[res.1[i]] == values[i]
  {
    var cls := Classes(values);
    (Encoder(cls), seq(|values|, i requires 0 <= i < |values| => IndexOf(cls, values[i])))
  }

  /**
   * The class list holds exactly the distinct values, so codes lie in
   * [0, number of distinct values).
   */
  lemma FitClassCount(values: seq<string>)
    ensures var cls := FitTransform(values).0.classes;
      |cls| == |set x | x in values| && forall i :: 0 <= i < |cls| ==> cls[i] in values
  {
    var cls := Classes(values);
    DistinctCount(cls);
    assert (set x | x in cls) == (set x | x in values);
  }

  /** Codes follow string order, and equal codes mean equal values. */
  lemma IndexOfOrder(cls: seq<string>, a: string, b: string)
    requires StrictlyIncreasing(cls) && a in cls && b in cls
    ensures StrLess(a, b) <==> IndexOf(cls, a) < IndexOf(cls, b)
    ensures a == b <==> IndexOf(cls, a) == IndexOf(cls, b)
  {
    var i, j := IndexOf(cls, a), IndexOf(cls, b);
    StrLessTrichotomy(a, b);
    StrLessIrreflexive(a);
    if j < i {
      assert StrLess(b, a);
    }
  }

  /** Encoding is injective and order-preserving on the fitted values. */
  lemma FitTransformOrder(values: seq<string>, i: nat, j: nat)
    requires i < |values| && j < |values|
    ensures var codes := FitTransform(values).1;
      && (StrLess(values[i], values[j]) <==> codes[i] < codes[j])
      && (values[i] == values[j] <==> codes[i] == codes[j])
  {
    IndexOfOrder(Classes(values), values[i], values[j]);
  }

  /** Decoding a code gives the class back, and encoding it gives the code back. */
  lemma RoundTrip(e: Encoder, code: nat)
    requires StrictlyIncreasing(e.classes) && code < |e.classes|
    ensures e.InverseTransform(code) == Some(e.classes[code])
    ensures e.Transform(e.classes[code]) == Some(code)
  {
    StrLessIrreflexive(e.classes[code]);
  }

  // ---------------------------------------------------------------------
  // The table's categorical cells

  /**
   * `astype(str)` of one cell. The `Code` case is never met: the loop visits
   * each configured column once (`FeaturesDistinct`), so it only ever reads
   * cells that are still text.
   */
  function CellText(c: Cell): string {
    match c
    case Raw(None) => "nan"
    case Raw(Some(s)) => s
    case Code(n) => NatToString(n)
  }

  /** The feature record before encoding: every categorical cell still text. */
  function Unencoded(f: FeatureRow): EncodedRow {
    EncodedRow(
      Raw(Some(f.row.departamento)), Raw(f.row.provincia), Raw(f.row.distrito),
      f.row.ano, f.row.semana, f.row.tipoDx, Raw(f.row.sexo), f.row.edad, Raw(f.row.tipoEdad),
      f.casos, f.brote, f.casosLag1, f.casosDiff)
  }

  function GetCell(r: EncodedRow, name: string): Cell
    requires name in CategoricalFeatures
  {
    if name == "departamento" then r.departamento
    else if name == "provincia" then r.provincia
    else if name == "distrito" then r.distrito
    else if name == "sexo" then r.sexo
    else r.tipoEdad
  }

  /** `df[name] = ...` on one record. */
  function SetCell(r: EncodedRow, name: string, c: Cell): (s: EncodedRow)
    requires name in CategoricalFeatures
    ensures GetCell(s, name) == c
    ensures forall m :: m in CategoricalFeatures && m != name ==> GetCell(s, m) == GetCell(r, m)
    ensures SameData(r, s)
  {
    if name == "departamento" then r.(departamento := c)
    else if name == "provincia" then r.(provincia := c)
    else if name == "distrito" then r.(distrito := c)
    else if name == "sexo" then r.(sexo := c)
    else r.(tipoEdad := c)
  }

  /** Two records agree on every column that is not categorical. */
  predicate SameData(r: EncodedRow, s: EncodedRow) {
    r.ano == s.ano && r.semana == s.semana && r.tipoDx == s.tipoDx && r.edad == s.edad
    && r.casos == s.casos && r.brote == s.brote && r.casosLag1 == s.casosLag1 && r.casosDiff == s.casosDiff
  }

  /** The column `name` as text. */
  function ColumnText(rows: seq<EncodedRow>, name: string): (vs: seq<string>)
    requires name in CategoricalFeatures
    ensures |vs| == |rows|
  {
    seq(|rows|, i requires 0 <= i < |rows| => CellText(GetCell(rows[i], name)))
  }

  /**
   * Fits an encoder to column `name` and replaces the column by its codes:
   * the classes are the column's distinct texts, sorted; each new cell is a
   * code that decodes to the record's old text; nothing else changes.
   */
  function EncodeColumn(rows: seq<EncodedRow>, name: string): (res: (Encoder, seq<EncodedRow>))
    requires name in CategoricalFeatures
    ensures |res.1| == |rows|
    ensures StrictlyIncreasing(res.0.classes)
    ensures forall k :: 0 <= k < |res.0.classes| ==> res.0.classes[k] in ColumnText(rows, name)
    ensures forall i :: 0 <= i < |rows| ==>
      && GetCell(res.1[i], name).Code?
      && res.0.InverseTransform(GetCell(res.1[i], name).code) == Some(CellText(GetCell(rows[i], name)))
    ensures forall i :: 0 <= i < |rows| ==> SameData(rows[i], res.1[i])
    ensures forall i, m :: 0 <= i < |rows| && m in CategoricalFeatures && m != name ==>
      GetCell(res.1[i], m) == GetCell(rows[i], m)
  {
    var fit := FitTransform(ColumnText(rows, name));
    (fit.0, seq(|rows|, i requires 0 <= i < |rows| => SetCell(rows[i], name, Code(fit.1[i]))))
  }

  /** The fitted encoder and the codes `EncodeColumn` writes, cell by cell. */
  lemma EncodeColumnCells(rows: seq<EncodedRow>, name: string)
    requires name in CategoricalFeatures
    ensures var fit := FitTransform(ColumnText(rows, name));
      var res := EncodeColumn(rows, name);
      && res.0 == fit.0
      && forall i :: 0 <= i < |rows| ==> GetCell(res.1[i], name) == Code(fit.1[i])
  {
  }

  /** Encoding one column leaves another column's cells as they were. */
  lemma EncodeColumnOthers(rows: seq<EncodedRow>, name: string, m: string)
    requires name in CategoricalFeatures && m in CategoricalFeatures && m != name
    ensures forall i :: 0 <= i < |rows| ==> GetCell(EncodeColumn(rows, name).1[i], m) == GetCell(rows[i], m)
  {
  }

  /** Records with the same cells in column `name` give the same column text. */
  lemma ColumnTextSame(a: seq<EncodedRow>, b: seq<EncodedRow>, name: string)
    requires name in CategoricalFeatures && |a| == |b|
    requires forall i :: 0 <= i < |a| ==> GetCell(a[i], name) == GetCell(b[i], name)
    ensures ColumnText(a, name) == ColumnText(b, name)
  {
  }

  /** The loop over the configured columns, after its first `k` turns. */
  function EncodeUpTo(rows: seq<EncodedRow>, columns: seq<string>, k: nat): (res: (seq<EncodedRow>, map<string, Encoder>))
    requires k <= |CategoricalFeatures|
    ensures |res.0| == |rows|
  {
    if k == 0 then (rows, map[])
    else
      var prev := EncodeUpTo(rows, columns, k - 1);
      var feature := CategoricalFeatures[k - 1];
      if feature in columns then
        var enc := EncodeColumn(prev.0, feature);
        (enc.1, prev.1[feature := enc.0])
      else prev
  }

  /**
   * `encode_categorical_features`: encodes each configured column the table
   * has, skipping the others, and returns the encoders by column.
   */
  method EncodeCategoricalFeatures(t: Table<FeatureRow>) returns (e: Table<EncodedRow>, encoders: map<string, Encoder>)
    ensures e.columns == t.columns
    ensures (e.rows, encoders) == EncodeUpTo(Initial(t.rows), t.columns, |CategoricalFeatures|)
  {
    var rows := Initial(t.rows);
    encoders := map[];
    for k := 0 to |CategoricalFeatures|
      invariant (rows, encoders) == EncodeUpTo(Initial(t.rows), t.columns, k)
    {
      var feature := CategoricalFeatures[k];
      if feature in t.columns {
        var enc := EncodeColumn(rows, feature);
        rows := enc.1;
        encoders := encoders[feature := enc.0];
      }
    }
    e := Table(t.columns, rows);
  }

  /** The records before the loop: every categorical cell still text. */
  function Initial(rows: seq<FeatureRow>): (r: seq<EncodedRow>)
    ensures |r| == |rows|
    ensures forall i, m :: 0 <= i < |r| && m in CategoricalFeatures ==> GetCell(r[i], m).Raw?
  {
    seq(|rows|, i requires 0 <= i < |rows| => Unencoded(rows[i]))
  }

  /** The configured column names are distinct. */
  lemma FeaturesDistinct(j: nat, k: nat)
    requires j < |CategoricalFeatures| && k < |CategoricalFeatures| && j != k
    ensures CategoricalFeatures[j] != CategoricalFeatures[k]
  {
  }

  /**
   * After the first `k` turns, configured column `j`: if it was visited and
   * the table has it, it is encoded by an encoder fitted on its original
   * text; otherwise it has no encoder and its cells are unchanged.
   */
  lemma {:induction false} EncodeUpToColumn(rows: seq<EncodedRow>, columns: seq<string>, k: nat, j: nat)
    requires k <= |CategoricalFeatures| && j < |CategoricalFeatures|
    ensures var res := EncodeUpTo(rows, columns, k);
      var f := CategoricalFeatures[j];
      var fit := FitTransform(ColumnText(rows, f));
      if j < k && f in columns then
        f in res.1 && res.1[f] == fit.0 && forall i :: 0 <= i < |rows| ==> GetCell(res.0[i], f) == Code(fit.1[i])
      else
        f !in res.1 && forall i :: 0 <= i < |rows| ==> GetCell(res.0[i], f) == GetCell(rows[i], f)
  {
    if k > 0 {
      EncodeUpToColumn(rows, columns, k - 1, j);
      var prev := EncodeUpTo(rows, columns, k - 1);
      var feature := CategoricalFeatures[k - 1];
      var f := CategoricalFeatures[j];
      if j == k - 1 {
        if f in columns {
          EncodeColumnCells(prev.0, f);
          ColumnTextSame(prev.0, rows, f);
        }
      } else {
        FeaturesDistinct(j, k - 1);
        if feature in columns {
          EncodeColumnOthers(prev.0, feature, f);
        }
      }
    }
  }

  /** Only configured columns get encoders, and no other field changes. */
  lemma {:induction false} EncodeUpToData(rows: seq<EncodedRow>, columns: seq<string>, k: nat)
    requires k <= |CategoricalFeatures|
    ensures var res := EncodeUpTo(rows, columns, k);
      && (forall i :: 0 <= i < |rows| ==> SameData(rows[i], res.0[i]))
      && (forall f :: f in res.1 ==> f in CategoricalFeatures)
  {
    if k > 0 {
      EncodeUpToData(rows, columns, k - 1);
    }
  }

  /** The stage keeps the number of records and the non-categorical fields. */
  lemma EncodeKeepsData(t: Table<FeatureRow>)
    ensures var res := EncodeUpTo(Initial(t.rows), t.columns, |CategoricalFeatures|);
      && |res.0| == |t.rows|
      && forall i :: 0 <= i < |t.rows| ==> SameData(Unencoded(t.rows[i]), res.0[i])
  {
    EncodeUpToData(Initial(t.rows), t.columns, |CategoricalFeatures|);
  }

  /**
   * A configured column the table has gets an encoder fitted on its original
   * text, and its cells become that encoder's codes.
   */
  lemma EncodePresent(t: Table<FeatureRow>, f: string)
    requires f in CategoricalFeatures && f in t.columns
    ensures var res := EncodeUpTo(Initial(t.rows), t.columns, |CategoricalFeatures|);
      var fit := FitTransform(ColumnText(Initial(t.rows), f));
      && f in res.1 && res.1[f] == fit.0
      && forall i :: 0 <= i < |t.rows| ==> GetCell(res.0[i], f) == Code(fit.1[i])
  {
    var j :| 0 <= j < |CategoricalFeatures| && CategoricalFeatures[j] == f;
    EncodeUpToColumn(Initial(t.rows), t.columns, |CategoricalFeatures|, j);
  }

  /** A configured column the table lacks is skipped: no encoder, cells unchanged. */
  lemma EncodeAbsent(t: Table<FeatureRow>, f: string)
    requires f in CategoricalFeatures && f !in t.columns
    ensures var res := EncodeUpTo(Initial(t.rows), t.columns, |CategoricalFeatures|);
      && f !in res.1
      && forall i :: 0 <= i < |t.rows| ==> GetCell(res.0[i], f) == GetCell(Unencoded(t.rows[i]), f)
  {
    var j :| 0 <= j < |CategoricalFeatures| && CategoricalFeatures[j] == f;
    EncodeUpToColumn(Initial(t.rows), t.columns, |CategoricalFeatures|, j);
  }
}
