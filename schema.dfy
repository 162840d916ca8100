/**
 * The table the preprocessing pipeline passes from stage to stage, one row
 * datatype per stage, and the configuration constants it reads.
 */
module Schema {
  import opened Wrappers
  import opened Text

  /** Name of the outbreak label column (src/config.py:50). */
  const TargetVariable: string := "brote"

  /** Columns label-encoded by the last stage, in this order (src/config.py:32). */
  const CategoricalFeatures: seq<string> := ["departamento", "provincia", "distrito", "sexo", "tipo_edad"]

  /** Rows missing any of these are dropped first. */
  const KeyColumns: seq<string> := ["departamento", "semana", "ano"]

  /** Text columns rewritten to upper case without surrounding blanks, in this order. */
  const TextColumns: seq<string> := ["departamento", "provincia", "distrito"]

  /** The diagnosis type of a confirmed case. */
  const ConfirmedCode: string := "C"

  /** A raw age cell: a number already, or text still to be coerced. */
  datatype RawAge = AgeNumber(value: real) | AgeText(text: string)

  /**
   * One surveillance record as read. Each field holds the value of the column
   * whose normalised name is the field's column name; `None` is a missing
   * value (NaN). A field whose column is absent from the header carries no
   * meaning.
   */
  datatype RawRow = RawRow(
    departamento: Option<string>,
    provincia: Option<string>,
    distrito: Option<string>,
    ano: Option<int>,
    semana: Option<int>,
    tipoDx: Option<string>,
    sexo: Option<string>,
    edad: Option<RawAge>,
    tipoEdad: Option<string>)

  /** A table: its column names and its rows, in row order. */
  datatype Table<R> = Table(columns: seq<string>, rows: seq<R>)

  /** A record after cleaning: key fields present, age an integer. */
  datatype CleanRow = CleanRow(
    departamento: string,
    provincia: Option<string>,
    distrito: Option<string>,
    ano: int,
    semana: int,
    tipoDx: Option<string>,
    sexo: Option<string>,
    edad: int,
    tipoEdad: Option<string>)

  /** A record with its confirmed-case flag `casos`. */
  datatype CaseRow = CaseRow(row: CleanRow, casos: int)

  /** A record with its flag and the outbreak label `brote` of its week. */
  datatype LabeledRow = LabeledRow(row: CleanRow, casos: int, brote: int)

  /** A record with the two derived features `casos_lag1` and `casos_diff`. */
  datatype FeatureRow = FeatureRow(row: CleanRow, casos: int, brote: int, casosLag1: int, casosDiff: int)

  /** A categorical cell: the text as cleaned, or its code once encoded. */
  datatype Cell = Raw(text: Option<string>) | Code(code: nat)

  /** A record as the pipeline finally returns it. */
  datatype EncodedRow = EncodedRow(
    departamento: Cell,
    provincia: Cell,
    distrito: Cell,
    ano: int,
    semana: int,
    tipoDx: Option<string>,
    sexo: Cell,
    edad: int,
    tipoEdad: Cell,
    casos: int,
    brote: int,
    casosLag1: int,
    casosDiff: int)

  /** A column the code indexes is not there (pandas raises KeyError). */
  datatype Error = MissingColumns(names: seq<string>)

  /** Assigning a new column appends it unless a column of that name exists. */
  function AddColumn(columns: seq<string>, name: string): (r: seq<string>)
    ensures name in r
    ensures forall c :: c in columns ==> c in r
    ensures forall c :: c in r ==> c in columns || c == name
  {
    if name in columns then columns else columns + [name]
  }

  /** The grouping and sorting key (year, week, department). */
  datatype Key = Key(ano: int, semana: int, departamento: string)

  function KeyOf(r: CleanRow): Key {
    Key(r.ano, r.semana, r.departamento)
  }

  /** Lexicographic order on keys, as pandas sorts the triple. */
  predicate KeyLess(a: Key, b: Key) {
    a.ano < b.ano
    || (a.ano == b.ano && a.semana < b.semana)
    || (a.ano == b.ano && a.semana == b.semana && StrLess(a.departamento, b.departamento))
  }

  lemma KeyLessIrreflexive(a: Key)
    ensures !KeyLess(a, a)
  {
    StrLessIrreflexive(a.departamento);
  }

  lemma KeyLessTransitive(a: Key, b: Key, c: Key)
    requires KeyLess(a, b) && KeyLess(b, c)
    ensures KeyLess(a, c)
  {
    if a.ano == b.ano == c.ano && a.semana == b.semana == c.semana {
      StrLessTransitive(a.departamento, b.departamento, c.departamento);
    }
  }

  /** Different keys are ordered exactly one way. */
  lemma KeyLessTrichotomy(a: Key, b: Key)
    ensures a == b || KeyLess(a, b) || KeyLess(b, a)
    ensures !(KeyLess(a, b) && KeyLess(b, a))
  {
    StrLessTrichotomy(a.departamento, b.departamento);
  }
}
