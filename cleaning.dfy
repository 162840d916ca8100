/**
 * The cleaning stage: normalise column names, drop rows missing a key,
 * normalise the three place names, coerce the age to an integer and drop
 * rows whose age is not numeric.
 */
module Cleaning {
  import opened Wrappers
  import opened Text
  import opened Numeric
  import opened Schema

  /** Every column name lower-cased and stripped, after which normalising it again changes nothing. */
  function NormalizeColumns(columns: seq<string>): (r: seq<string>)
    ensures |r| == |columns|
    ensures forall i :: 0 <= i < |r| ==> NormalizeName(r[i]) == r[i]
  {
    assert forall i :: 0 <= i < |columns| ==> NormalizeName(NormalizeName(columns[i])) == NormalizeName(columns[i]) by {
      forall i | 0 <= i < |columns| {
        NormalizeNameIdempotent(columns[i]);
      }
    }
    seq(|columns|, i requires 0 <= i < |columns| => NormalizeName(columns[i]))
  }

  /** The names of `wanted`, in order, that `columns` lacks. */
  function MissingFrom(wanted: seq<string>, columns: seq<string>): (m: seq<string>)
    ensures forall c :: c in m <==> c in wanted && c !in columns
  {
    if |wanted| == 0 then []
    else (if wanted[0] in columns then [] else [wanted[0]]) + MissingFrom(wanted[1..], columns)
  }

  predicate HasKeys(r: RawRow) {
    r.departamento.Some? && r.semana.Some? && r.ano.Some?
  }

  /** `pd.to_numeric(errors='coerce')` on one age cell; None is NaN. */
  function ToNumeric(a: Option<RawAge>): Option<real> {
    match a
    case None => None
    case Some(AgeNumber(x)) => Some(x)
    case Some(AgeText(s)) => ParseDecimal(s)
  }

  /** A row that cleaning keeps. */
  predicate Survives(r: RawRow) {
    HasKeys(r) && ToNumeric(r.edad).Some?
  }

  function NormalizeOpt(v: Option<string>): Option<string> {
    match v
    case None => None
    case Some(s) => Some(NormalizeText(s))
  }

  /** What cleaning makes of a row it keeps. */
  function CleanedRow(r: RawRow): CleanRow
    requires Survives(r)
  {
    CleanRow(
      departamento := NormalizeText(r.departamento.value),
      provincia := NormalizeOpt(r.provincia),
      distrito := NormalizeOpt(r.distrito),
      ano := r.ano.value,
      semana := r.semana.value,
      tipoDx := r.tipoDx,
      sexo := r.sexo,
      edad := Trunc(ToNumeric(r.edad).value),
      tipoEdad := r.tipoEdad)
  }

  /** Reference definition of the cleaned rows: keep the survivors, in order, each cleaned. */
  function CleanRows(rows: seq<RawRow>): seq<CleanRow> {
    if |rows| == 0 then []
    else (if Survives(rows[0]) then [CleanedRow(rows[0])] else []) + CleanRows(rows[1..])
  }

  /** Reference definition of the whole stage, including its KeyError paths. */
  function Clean(t: Table<RawRow>): Result<Table<CleanRow>, Error> {
    var columns := NormalizeColumns(t.columns);
    var missing := MissingFrom(KeyColumns, columns);
    if missing != [] then Failure(MissingColumns(missing))
    else if "provincia" !in columns then Failure(MissingColumns(["provincia"]))
    else if "distrito" !in columns then Failure(MissingColumns(["distrito"]))
    else if "edad" !in columns then Failure(MissingColumns(["edad"]))
    else Success(Table(columns, CleanRows(t.rows)))
  }

  // The steps as the code takes them.

  /** `dropna(subset=['departamento', 'semana', 'ano'])`. */
  function DropMissingKeys(rows: seq<RawRow>): (r: seq<RawRow>)
    ensures forall x :: x in r ==> HasKeys(x)
  {
    if |rows| == 0 then []
    else (if HasKeys(rows[0]) then [rows[0]] else []) + DropMissingKeys(rows[1..])
  }

  /** One text field of one row upper-cased and stripped. */
  function NormalizeField(r: RawRow, column: string): RawRow {
    if column == "departamento" then r.(departamento := NormalizeOpt(r.departamento))
    else if column == "provincia" then r.(provincia := NormalizeOpt(r.provincia))
    else if column == "distrito" then r.(distrito := NormalizeOpt(r.distrito))
    else r
  }

  /** `df[col] = df[col].str.upper().str.strip()`. */
  function NormalizeColumn(rows: seq<RawRow>, column: string): (r: seq<RawRow>)
    ensures |r| == |rows|
  {
    seq(|rows|, i requires 0 <= i < |rows| => NormalizeField(rows[i], column))
  }

  /** The first `k` text columns normalised, in order. */
  function NormalizedUpTo(rows: seq<RawRow>, k: nat): seq<RawRow>
    requires k <= |TextColumns|
  {
    if k == 0 then rows else NormalizeColumn(NormalizedUpTo(rows, k - 1), TextColumns[k - 1])
  }

  /** Every text field of one row normalised. */
  function AllTextNormalized(r: RawRow): RawRow {
    NormalizeField(NormalizeField(NormalizeField(r, "departamento"), "provincia"), "distrito")
  }

  lemma NormalizedUpToAll(rows: seq<RawRow>)
    ensures |NormalizedUpTo(rows, 3)| == |rows|
    ensures forall i :: 0 <= i < |rows| ==> NormalizedUpTo(rows, 3)[i] == AllTextNormalized(rows[i])
  {
    assert TextColumns[0] == "departamento" && TextColumns[1] == "provincia" && TextColumns[2] == "distrito";
    var n1 := NormalizeColumn(rows, "departamento");
    assert NormalizedUpTo(rows, 1) == n1;
    var n2 := NormalizeColumn(n1, "provincia");
    assert NormalizedUpTo(rows, 2) == n2;
    assert NormalizedUpTo(rows, 3) == NormalizeColumn(n2, "distrito");
  }

  /** The age coercion of one row that has its keys: empty when the age is not numeric. */
  function CoerceAgeRow(r: RawRow): seq<CleanRow>
    requires HasKeys(r)
  {
    match ToNumeric(r.edad)
    case None => []
    case Some(x) =>
      [CleanRow(r.departamento.value, r.provincia, r.distrito, r.ano.value, r.semana.value,
                r.tipoDx, r.sexo, Trunc(x), r.tipoEdad)]
  }

  /** `pd.to_numeric(errors='coerce')`, `dropna(subset=['edad'])` and `astype(int)`. */
  function CoerceAge(rows: seq<RawRow>): seq<CleanRow>
    requires forall x :: x in rows ==> HasKeys(x)
  {
    if |rows| == 0 then []
    else
      assert rows[0] in rows;
      CoerceAgeRow(rows[0]) + CoerceAge(rows[1..])
  }

  lemma StepsMatchReferenceRow(r: RawRow)
    requires HasKeys(r)
    ensures HasKeys(AllTextNormalized(r))
    ensures CoerceAgeRow(AllTextNormalized(r)) == if Survives(r) then [CleanedRow(r)] else []
  {
  }

  /** Dropping, normalising and coercing one after another is the reference definition. */
  lemma {:induction false} StepsMatchReference(rows: seq<RawRow>, normalized: seq<RawRow>)
    requires |normalized| == |DropMissingKeys(rows)|
    requires forall i :: 0 <= i < |normalized| ==> normalized[i] == AllTextNormalized(DropMissingKeys(rows)[i])
    ensures forall x :: x in normalized ==> HasKeys(x)
    ensures CoerceAge(normalized) == CleanRows(rows)
  {
    var d := DropMissingKeys(rows);
    forall i | 0 <= i < |normalized| ensures HasKeys(normalized[i]) {
      assert d[i] in d;
      StepsMatchReferenceRow(d[i]);
    }
    if |rows| > 0 {
      var tail := DropMissingKeys(rows[1..]);
      if HasKeys(rows[0]) {
        assert d == [rows[0]] + tail;
        assert normalized[0] == AllTextNormalized(rows[0]);
        StepsMatchReferenceRow(rows[0]);
        StepsMatchReference(rows[1..], normalized[1..]);
      } else {
        assert d == tail;
        StepsMatchReference(rows[1..], normalized);
      }
    }
  }

  /** The stage as the code runs it, step by step. */
  method CleanData(t: Table<RawRow>) returns (r: Result<Table<CleanRow>, Error>)
    ensures r == Clean(t)
  {
    var columns := NormalizeColumns(t.columns);
    var missing := MissingFrom(KeyColumns, columns);
    if missing != [] {
      return Failure(MissingColumns(missing));
    }
    assert "departamento" == KeyColumns[0] && "departamento" in columns;
    var rows := DropMissingKeys(t.rows);
    for k := 0 to |TextColumns|
      invariant rows == NormalizedUpTo(DropMissingKeys(t.rows), k)
      invariant forall j :: 0 <= j < k ==> TextColumns[j] in columns
    {
      if TextColumns[k] !in columns {
        assert k == 1 || k == 2;
        assert k == 2 ==> "provincia" in columns;
        return Failure(MissingColumns([TextColumns[k]]));
      }
      rows := NormalizeColumn(rows, TextColumns[k]);
    }
    if "edad" !in columns {
      return Failure(MissingColumns(["edad"]));
    }
    NormalizedUpToAll(DropMissingKeys(t.rows));
    StepsMatchReference(t.rows, rows);
    r := Success(Table(columns, CoerceAge(rows)));
  }

  // What the reference definition promises.

  /** Cleaning keeps row order: it distributes over concatenation. */
  lemma {:induction false} CleanRowsAppend(a: seq<RawRow>, b: seq<RawRow>)
    ensures CleanRows(a + b) == CleanRows(a) + CleanRows(b)
  {
    if |a| > 0 {
      assert (a + b)[1..] == a[1..] + b;
      CleanRowsAppend(a[1..], b);
    } else {
      assert a + b == b;
    }
  }

  /** Cleaning only removes rows: never more rows out than in. */
  lemma {:induction false} CleanRowsShrink(rows: seq<RawRow>)
    ensures |CleanRows(rows)| <= |rows|
  {
    if |rows| > 0 { CleanRowsShrink(rows[1..]); }
  }

  /**
   * A row comes out of cleaning exactly when it is the cleaned form of an
   * input row that has all its keys and a numeric age.
   */
  lemma {:induction false} CleanRowsMembers(rows: seq<RawRow>, o: CleanRow)
    ensures o in CleanRows(rows) <==> exists r :: r in rows && Survives(r) && o == CleanedRow(r)
  {
    if |rows| > 0 {
      CleanRowsMembers(rows[1..], o);
      assert forall r :: r in rows <==> r == rows[0] || r in rows[1..];
    }
  }

  /** Every input row with its keys and a numeric age survives. */
  lemma SurvivorsKept(rows: seq<RawRow>, r: RawRow)
    requires r in rows && Survives(r)
    ensures CleanedRow(r) in CleanRows(rows)
  {
    CleanRowsMembers(rows, CleanedRow(r));
  }

  /**
   * The place names of a cleaned row are upper-cased and stripped, and
   * cleaning them again changes nothing; its age is the source value
   * truncated toward zero.
   */
  lemma CleanedRowFields(r: RawRow)
    requires Survives(r)
    ensures var o := CleanedRow(r);
      && NormalizeText(o.departamento) == o.departamento
      && (o.provincia.Some? ==> NormalizeText(o.provincia.value) == o.provincia.value)
      && (o.distrito.Some? ==> NormalizeText(o.distrito.value) == o.distrito.value)
      && (o.provincia.Some? <==> r.provincia.Some?)
      && (o.distrito.Some? <==> r.distrito.Some?)
      && var x := ToNumeric(r.edad).value;
         (x >= 0.0 ==> o.edad as real <= x < o.edad as real + 1.0)
         && (x < 0.0 ==> o.edad as real - 1.0 < x <= o.edad as real)
  {
    NormalizeTextIdempotent(r.departamento.value);
    if r.provincia.Some? { NormalizeTextIdempotent(r.provincia.value); }
    if r.distrito.Some? { NormalizeTextIdempotent(r.distrito.value); }
  }

  /** Normalising the column names a second time changes nothing. */
  lemma {:induction false} CleanIdempotentOnNames(columns: seq<string>)
    ensures NormalizeColumns(NormalizeColumns(columns)) == NormalizeColumns(columns)
  {
    forall i | 0 <= i < |columns|
      ensures NormalizeColumns(NormalizeColumns(columns))[i] == NormalizeColumns(columns)[i]
    {
      NormalizeNameIdempotent(columns[i]);
    }
  }

  /** The columns cleaning needs: the keys, the two other place names and the age. */
  predicate HasCleaningColumns(columns: seq<string>) {
    && (forall c :: c in KeyColumns ==> c in columns)
    && "provincia" in columns && "distrito" in columns && "edad" in columns
  }

  /**
   * Cleaning fails exactly when a column it indexes is missing, naming only
   * missing columns; otherwise it keeps the normalised header.
   */
  lemma CleanOutcome(t: Table<RawRow>)
    ensures var columns := NormalizeColumns(t.columns);
      && (Clean(t).Success? <==> HasCleaningColumns(columns))
      && (Clean(t).Success? ==> Clean(t).value.columns == columns)
      && (Clean(t).Failure? ==> Clean(t).error.names != [] && forall c :: c in Clean(t).error.names ==> c !in columns)
  {
    var columns := NormalizeColumns(t.columns);
    var missing := MissingFrom(KeyColumns, columns);
    if missing == [] {
      assert forall c :: c in KeyColumns ==> c in columns || c in missing;
    } else {
      assert missing[0] in missing;
    }
  }
}
