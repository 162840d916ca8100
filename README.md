# Dengue outbreak preprocessing, modelled in Dafny

The repository trains an outbreak classifier on weekly dengue surveillance
records from Peru. Before any model sees the data, `preprocess_data`
(`src/data_processing.py`) runs four stages over a table of case records:

1. **Cleaning** (`clean_data`).
   - Lower-cases and trims the column names.
   - Drops records without `departamento`, `semana` or `ano`.
   - Upper-cases and trims the three place names.
   - Coerces `edad` to a number, drops the records where that fails, and truncates the rest to integers.
2. **Outbreak label** (`create_target_variable`).
   - Flags confirmed cases: `casos` is 1 iff `tipo_dx` is `"C"`.
   - Totals the flags per (year, week, department), with the groups in key order.
   - Labels a department-week `brote = 1` iff its total exceeds 1.2 times the mean of that department's last (up to) four recorded weekly totals.
   - Joins the label back onto every record. A table that already has a `brote` column fails here: the merge keeps both copies as `brote_x` and `brote_y`, and reading `brote` raises `KeyError`.
3. **Features** (`feature_engineering`).
   - Sorts the table by (year, week, department).
   - Adds `casos_lag1`: the previous record's flag in the same department, or 0.
   - Adds `casos_diff`: the first difference of the flag over the whole sorted table, across department boundaries, 0 on the first record.
4. **Label encoding** (`encode_categorical_features`).
   - Handles each configured categorical column the table has.
   - Turns the values into text, with a missing value becoming `"nan"`.
   - Sorts the distinct texts into the encoder's classes and replaces each value by its class index.
   - Skips absent columns, and returns the encoders by column.

The Dafny project follows that structure, one module per concern:

| file | module | what it holds |
|---|---|---|
| `wrappers.dfy` | `Wrappers` | `Option` and `Result` |
| `text.dfy` | `Text` | Python's `upper`, `lower` and `strip` for Latin-1 text, and code-point string order |
| `numeric.dfy` | `Numeric` | `pd.to_numeric` on decimal text and the truncating `astype(int)` |
| `schema.dfy` | `Schema` | one row datatype per stage, the table, the group key and the configuration constants |
| `cleaning.dfy` | `Cleaning` | `clean_data`: a method with the column loop, proved equal to a filter-then-map reference |
| `target.dfy` | `Target` | `create_target_variable`: flag, grouped sum, rolling label and left join |
| `features.dfy` | `Features` | `feature_engineering`: an in-place insertion sort on an array, then the lag scan and the difference |
| `encoding.dfy` | `Encoding` | `LabelEncoder` and `encode_categorical_features`: a method with the column loop, proved equal to a fold |
| `pipeline.dfy` | `Pipeline` | `preprocess_data`, and what the chain guarantees end to end |

Three things the code does not check, and the model does not either:

- No stage checks that any record survived cleaning: an empty table flows through every stage.
- `edad` is never checked for sign: a negative age is kept, so `edad` is any integer.
- `semana` is never range-checked: any integer week is kept.

A missing column that a stage indexes is a `KeyError` in pandas. The model returns it as `Failure(MissingColumns(names))` rather than excluding it by a precondition; the `brote` clash above is returned as `Failure(MissingColumns(["brote"]))`.

## Model

| member | source | states |
|---|---|---|
| Text.Strip | src/data_processing.py:29 | the result is the infix of the input left after removing blanks at both ends; what was removed is all blank and the result neither starts nor ends with a blank |
| Text.StripIdempotent | src/data_processing.py:29 | stripping a stripped string changes nothing |
| Text.UpperIdempotent | src/data_processing.py:29 | upper-casing an upper-cased string changes nothing (including 'ß' → "SS" and the two Latin-1 letters whose capitals lie outside Latin-1) |
| Text.NormalizeTextIdempotent | src/data_processing.py:29 | normalising a place name twice equals normalising it once |
| Text.Lower | src/data_processing.py:22 | lower-casing keeps the length, leaves no character that lower-casing would change, and leaves characters that are already lower-case alone |
| Text.NormalizeNameIdempotent | src/data_processing.py:22 | normalising a column name twice equals normalising it once |
| Text.StrLessTrichotomy | src/data_processing.py:45 | the code-point order used for grouping and sorting is total and asymmetric |
| Text.StrLessTransitive | src/data_processing.py:45 | that order is transitive |
| Numeric.NatToString | src/data_processing.py:83 | `str(n)` is a non-empty digit string whose value is n |
| Numeric.ParseIntToString | src/data_processing.py:32 | `to_numeric` of an integer's decimal text gives that integer back |
| Numeric.ParseUnsignedWhole | src/data_processing.py:32 | a parsed decimal lies between its integer part and the integer part plus one |
| Numeric.Trunc | src/data_processing.py:34 | the cast rounds toward zero: n ≤ x < n+1 for x ≥ 0 and n−1 < x ≤ n for x < 0 |
| Numeric.TruncParsedDecimal | src/data_processing.py:32-34 | the integer age of a parsed text is the signed value of the digits before the point |
| Schema.AddColumn | src/data_processing.py:42 | assigning a column keeps every existing column and adds only that one |
| Schema.KeyLessTrichotomy | src/data_processing.py:45 | distinct (year, week, department) keys are ordered exactly one way |
| Schema.KeyLessTransitive | src/data_processing.py:45 | the key order is transitive |
| Cleaning.NormalizeColumns | src/data_processing.py:22 | the header keeps its length, and every name in it is already normalised |
| Cleaning.MissingFrom | src/data_processing.py:25 | lists exactly the wanted columns the header lacks |
| Cleaning.DropMissingKeys | src/data_processing.py:25 | every record kept has department, week and year |
| Cleaning.CleanData | src/data_processing.py:18-36 | the step-by-step cleaning (drop, three column rewrites, age coercion, with their KeyErrors) equals the filter-then-map reference `Clean` |
| Cleaning.StepsMatchReference | src/data_processing.py:25-34 | coercing the age of the dropped and normalised records gives the reference filter-then-map |
| Cleaning.CleanOutcome | src/data_processing.py:22-34 | cleaning fails iff a key column, `provincia`, `distrito` or `edad` is missing after name normalisation; the error names only missing columns; success keeps the normalised header |
| Cleaning.CleanRowsMembers | src/data_processing.py:25-34 | a cleaned record exists iff it is the cleaning of an input record with all keys and a numeric age |
| Cleaning.SurvivorsKept | src/data_processing.py:25-34 | every input record with all keys and a numeric age survives |
| Cleaning.CleanRowsShrink | src/data_processing.py:25-33 | cleaning never adds records |
| Cleaning.CleanRowsAppend | src/data_processing.py:25-34 | cleaning works record by record: it distributes over concatenation |
| Cleaning.CleanedRowFields | src/data_processing.py:28-34 | cleaned place names are normalised; province and district are present iff they were; the age brackets the numeric value by truncation toward zero |
| Cleaning.CleanIdempotentOnNames | src/data_processing.py:22 | normalising the header twice equals normalising it once |
| Target.CaseFlag | src/data_processing.py:42 | `casos` is 0 or 1, and 1 exactly when `tipo_dx` is "C" |
| Target.AddCasos | src/data_processing.py:42 | every record is kept in order, with flag 0 or 1, and 1 exactly when `tipo_dx` is "C" |
| Target.Aggregate | src/data_processing.py:45 | the grouped table is strictly sorted by key, has exactly the records' keys, and holds for each key the sum of its records' flags |
| Target.AddToWeeklySorted | src/data_processing.py:45 | adding a record to a sorted grouped table keeps it sorted and adds its key |
| Target.AddToWeeklyFind | src/data_processing.py:45 | adding a record increases only its own key's total, by its flag |
| Target.SumOfFlags | src/data_processing.py:42-45 | the summed flags of a key equal the number of its confirmed records |
| Target.WeeklyTotals | src/data_processing.py:42-45 | each key of a record gets exactly one weekly entry, whose total is the key's confirmed count |
| Target.RollingWindows | src/data_processing.py:49-51 | after each entry, the state kept per department is the department's last three totals |
| Target.RollingMatchesReference | src/data_processing.py:49-52 | the rolling pass gives every entry the label of its department's own history (`LabelAt`) |
| Target.LabelWeeks | src/data_processing.py:49-52 | each weekly entry keeps its key and total and gets the label of its department's history |
| Target.WindowLabelIsMeanRule | src/data_processing.py:50-52 | the integer rule 10·n·c > 12·S is exactly "the count exceeds 1.2 times the mean of the last min(k, 4) counts" |
| Target.FirstWeekNotOutbreak | src/data_processing.py:49-52 | the weekly entry of a department's first recorded week (no earlier entry of that department, total at least 0) gets label 0 |
| Target.OutbreakHasCases | src/data_processing.py:52 | an outbreak week has at least one confirmed case |
| Target.LabelUsesOwnHistoryOnly | src/data_processing.py:49-52 | the rolling pass gives two entries of the same department with the same history up to them the same label, whatever other departments and later weeks hold |
| Target.ExampleLima | src/data_processing.py:49-52 | weekly totals 2, 3, 2, 10, 3 of one department are labelled 0, 0, 0, 1, 0 |
| Target.Join | src/data_processing.py:55-56 | the left join keeps the number of records |
| Target.LookupLabelAt | src/data_processing.py:55-56 | a key looked up in the labelled weekly table finds its own entry's label |
| Target.JoinedLabel | src/data_processing.py:55-58 | each joined record is the input record with its flag and the label of its own weekly entry, 0 or 1 |
| Target.CreateTargetVariableOutcome | src/data_processing.py:42-58 | the stage fails iff `tipo_dx` is missing (checked first) or a `brote` column is already present, each with its own error |
| Target.CreateTargetVariableSpec | src/data_processing.py:38-60 | with `tipo_dx` present and no `brote` yet, every record is kept in order with its flag and its key's label, which is 0 or 1, and no record falls back to the fill value; the new columns are added |
| Features.SortByKey | src/data_processing.py:66 | the array ends sorted by (year, week, department) and holds the same multiset of records |
| Features.LagMatchesReference | src/data_processing.py:69 | the scan's lag of each record is the flag of the last earlier record of its department, or 0 |
| Features.LagSpec | src/data_processing.py:69 | `casos_lag1` is 0 on a department's first record, and otherwise the flag of the latest earlier record of that department |
| Features.LagBinary | src/data_processing.py:69 | over 0/1 flags the lag is 0 or 1 |
| Features.DiffTelescopes | src/data_processing.py:72 | summing the differences up to a record and adding the first flag gives that record's flag back |
| Features.DiffRange | src/data_processing.py:72 | the first difference is 0 and every difference lies in {-1, 0, 1} over 0/1 flags |
| Features.AddFeatures | src/data_processing.py:69-72 | adding the two features keeps every record unchanged underneath |
| Features.FeatureEngineering | src/data_processing.py:62-74 | the output is a permutation of the input, sorted by key, whose lag and difference are computed over that sorted order; two columns are added |
| Features.FeatureCount | src/data_processing.py:66 | the stage keeps the number of records |
| Encoding.InsertClassSpec | src/data_processing.py:83 | inserting a value into a sorted class list keeps it strictly sorted and adds only that value |
| Encoding.Classes | src/data_processing.py:83 | the classes are strictly sorted and are exactly the values seen |
| Encoding.IndexOf | src/data_processing.py:83 | a class's index points back at that class |
| Encoding.DistinctCount | src/data_processing.py:83 | a strictly sorted list has as many entries as distinct members |
| Encoding.FitTransform | src/data_processing.py:83 | every code is below the number of classes and decodes to its value |
| Encoding.FitClassCount | src/data_processing.py:83 | the number of classes is the number of distinct values, so codes lie in [0, k) |
| Encoding.IndexOfOrder | src/data_processing.py:83 | codes follow string order both ways, and equal codes mean equal values |
| Encoding.FitTransformOrder | src/data_processing.py:83 | on the fitted column, encoding is injective and order-preserving, in both directions |
| Encoding.RoundTrip | src/data_processing.py:83-84 | a stored encoder decodes every code to its class, and encodes that class back to the code |
| Encoding.SetCell | src/data_processing.py:83 | replacing one categorical cell changes that cell and no other column |
| Encoding.EncodeColumn | src/data_processing.py:82-84 | the classes are strictly sorted and each is a text of the column; each record's cell becomes a code that the encoder decodes to the record's old text; every other column of the record is unchanged |
| Encoding.Initial | src/data_processing.py:83 | before the loop every categorical cell of every record is still text |
| Encoding.EncodeCategoricalFeatures | src/data_processing.py:76-92 | the loop over the configured columns equals the fold `EncodeUpTo` over all of them, and the header is unchanged |
| Encoding.EncodeUpToColumn | src/data_processing.py:80-86 | each visited present column is encoded with an encoder fitted on its original text; every other categorical column has no encoder and keeps its cells |
| Encoding.EncodeUpToData | src/data_processing.py:80-86 | only configured columns get encoders, and non-categorical fields never change |
| Encoding.EncodeKeepsData | src/data_processing.py:80-86 | the stage keeps the number of records and every non-categorical field |
| Encoding.EncodePresent | src/data_processing.py:81-84 | a configured present column gets an encoder fitted on its original text, and its cells become that encoder's codes |
| Encoding.EncodeAbsent | src/data_processing.py:85-86 | a configured absent column is skipped: no encoder, cells unchanged |
| Pipeline.LabeledFacts | src/data_processing.py:38-60 | with `tipo_dx` present and no `brote` yet, every labelled record is a cleaned record with its own flag, and both flag and label are 0 or 1 |
| Pipeline.FeatureFacts | src/data_processing.py:62-74 | each feature record is one of the labelled records, with lag and flag in {0, 1} and difference in {-1, 0, 1} |
| Pipeline.EncoderKeys | src/data_processing.py:80-86 | the encoders are keyed by exactly the configured columns the table has |
| Pipeline.EncodedDepartments | src/data_processing.py:66-83 | every department code decodes to the record's department, and the output is sorted by (year, week, department code) |
| Pipeline.AddedNotCategorical | src/config.py:32 | none of the added columns is a categorical one |
| Pipeline.RecordsPermuted | src/data_processing.py:66 | rearranging labelled records rearranges the cleaned records underneath them alike |
| Pipeline.LabelsCarried | src/data_processing.py:55-66 | records rearranged after labelling keep, as a multiset, the cleaned records underneath, and each keeps its flag and its own key's label |
| Pipeline.StagesLabels | src/data_processing.py:38-74 | the cleaned records under the sorted feature table are a rearrangement of the cleaned table, and each carries its flag and its own key's label |
| Pipeline.EncodedRecords | src/data_processing.py:66-86 | each output record keeps its feature record's fields and flag, and its department code decodes to the record's department |
| Pipeline.EncodedCells | src/data_processing.py:80-86 | each configured cell of a present column is a code its column's encoder decodes to the record's text; each cell of an absent column is unchanged |
| Pipeline.StagesProcess | src/data_processing.py:97-99 | the last three stages, chained, give `Processed`: the header, the encoder keys, the rearrangement, the orders, the labels, the features and every cell, as listed for `PreprocessData` |
| Pipeline.PreprocessData | src/data_processing.py:94-100 | fails exactly when cleaning fails (with its error), `tipo_dx` is missing, or `brote` is already present; otherwise the ghost feature table is the chain of the stages, and the output has the four new columns, one encoder per configured column present, every cleaned record exactly once (a rearrangement), sorted by key and by department code, each with its flag, the label of its own key's weekly entry, the lag and difference computed over the sorted order, categorical codes that decode to its text, and every other field unchanged |

## Left out

- `load_data` is left out because it reads a CSV file. The model starts from a table in memory whose column names may still need normalising.
- The `dump` of the encoders is left out because it writes a file. `PreprocessData` returns the encoders instead.
- The progress and warning `print` calls are left out because they are console output.
- The training code, the training script and the web front end are not part of this model.
- Floating-point arithmetic is not modelled.
  - The rolling mean and the 1.2 factor use exact rationals, as the integer rule 10·n·c > 12·S.
  - A week whose count equals 1.2 times the mean exactly may be labelled differently under IEEE rounding.
- Pandas dtype artefacts are not modelled: `casos_lag1` turning float after `fillna`, and `.str` raising on a text column that holds no strings at all.
- Numeric.ParseDecimal: `pd.to_numeric` also accepts exponents, surrounding blanks, `inf` and `nan`. The model accepts only an optional sign, digits and an optional point with more digits, and treats anything else as not numeric.
- Text.UpperChar: case mapping covers only the Latin-1 range. The loader reads the file as Latin-1, so no other character reaches the pipeline.
- Duplicate column names after name normalisation are not modelled. A record holds one value per normalised name.
- Features.SortByKey: the order in which `sort_values` leaves records with equal keys is not modelled. The contract promises only sortedness and the same multiset of records, and lag and difference are stated relative to the order produced.
- The in-place update of one shared data frame is modelled as values passed from stage to stage. The sort is the exception: it works in place on an array.
- `LabelEncoder.transform` and `inverse_transform` on values the encoder never saw raise errors. The model returns `None` for them; they are used only at prediction time.
