# Verified model of the two cleaning routines of PORTAFOLIO

The repository holds two small data-cleaning pipelines written over pandas data frames.
This project models both in Dafny and proves what each of their steps guarantees.

- **The catalog cleaner** (`limpieza_transformacion/limpieza_transformacion.py`) runs six
  stages in a fixed order over a table of films and TV shows:
  1. `limpiar_texto` fills, trims and lowercases six text columns.
  2. `normalizar_listas` rewrites the comma-separated `country` and `listed_in` cells as
     sorted, de-duplicated lists.
  3. `corregir_rating_minutos` moves three literal minute strings out of `rating`.
  4. `imputar_fecha` fills missing dates from a (release_year, type) mode table.
  5. `normalizar_duracion` splits `duration` into a number and a unit.
  6. `imputar_rating` fills missing ratings from a second mode table.
- **The HR cleaner** (`recursos_humanos/src/limpieza.py`) works on a copy of an employee
  table. It renames the columns and drops four known columns when they are constant. It
  forces fourteen columns to numbers, fills the gaps (median or `"Unknown"`) and encodes
  `Attrition` as 1/0, raising `KeyError` when that column is missing. It also exposes
  `identificar_columnas_constantes`.

Each cleaner is modelled twice:

- **As values.** `Catalog` and `Hr` hold the pure per-row and per-table functions. The lemmas
  about them state the properties.
- **In the source's own imperative form.** `CatalogFrame.Frame` and `HrFrame.Frame` are
  classes whose methods reassign the frame column by column, in loops, as the source does.
  Each method is proved to leave exactly the table that the matching function describes.

The helper modules are:

- `Text`: Python's `strip`, `lower`, `upper`, `split`, `join` and string order.
- `Order`: `sorted(set(...))` and the tie-break of `mode().iloc[0]`.
- `Stats`: `median()`, with exact real arithmetic.
- `Wrappers`: `Option` for a missing cell and `Result` for a raised exception.

External parsers are parameters of the model:

- `pd.to_datetime(..., errors='coerce')` is a function `string -> Option<Date>`.
- `pd.to_numeric(..., errors='coerce')` on one string is a function `string -> Option<real>`.

Some behaviour of the code is easy to misread, and the model follows the code in each case:

- The rating correction matches only the exact strings `'74 min'`, `'84 min'` and
  `'66 min'`. It is not a general "number followed by min" pattern.
- A whitespace-only text cell becomes `""` after `limpiar_texto`, not `"unknown"`. Only a
  missing cell becomes `"unknown"`.
- The alternation `(min|season|seasons)` tries `season` before `seasons`. So `"3 seasons"`
  captures `season`, and `seasons` is never captured. The unit `"seasons"` only comes from
  the backfill for type `tv show`. Type values are compared after lowercasing, with no
  trimming.
- `mode()` returns its values sorted, so `.iloc[0]` is the least of the most frequent
  values. The model pins the tie-break that way.
- `groupby` drops rows whose key has a missing year or type. Such a row never finds a
  group. For dates it falls back to 1 January of the year, else 1900-01-01.
- The rating mode table leaves out only `'UNKNOWN'`. A rating of `''` takes part in the
  mode, so a row whose rating is `''` can be imputed with `''`.
- In the HR cleaner, a name that occurs twice after renaming makes `df[c]` a frame. The
  drop, the coercion or the gap-filling loop then raises, always before the `Attrition`
  check. The model reports this as `DuplicateColumns`, ahead of `MissingColumn("Attrition")`.

## Model

| member | source | states |
|---|---|---|
| `Catalog.CleanTextCell` | limpieza_transformacion/limpieza_transformacion.py:51-57 | a cleaned cell has no whitespace at either end and no capital letter; a missing cell becomes "unknown" |
| `Catalog.TextRow` | limpieza_transformacion/limpieza_transformacion.py:48-59 | each of the six text columns holds its cleaned cell; a missing rating becomes "unknown" and a present one is kept; no other column changes |
| `Catalog.TextRowFills` | limpieza_transformacion/limpieza_transformacion.py:48-59 | after `limpiar_texto` no text cell and no rating is missing, and every text cell equals its own trim-and-lowercase |
| `Catalog.CleanTextCellTwice` | limpieza_transformacion/limpieza_transformacion.py:51-57 | cleaning a cleaned cell changes nothing |
| `CatalogFrame.Frame.CleanText` | limpieza_transformacion/limpieza_transformacion.py:48-59 | the loop over the six columns, then the rating fill, leaves exactly the rows of the per-row text stage |
| `Order.SortDistinct` | limpieza_transformacion/limpieza_transformacion.py:68 | `sorted(set(xs))` holds exactly the elements of `xs`, strictly ascending under a strict total order |
| `Order.SortDistinctOfAscending` | limpieza_transformacion/limpieza_transformacion.py:68 | sorting the distinct elements of a strictly ascending list gives the list back |
| `Catalog.ListTokens` | limpieza_transformacion/limpieza_transformacion.py:68 | the tokens of a cell are strictly ascending, are exactly its non-empty trimmed comma-pieces, and hold no comma and no outer whitespace |
| `Catalog.NormaliseListSpec` | limpieza_transformacion/limpieza_transformacion.py:66-71 | "unknown" is kept; any other cell becomes its trimmed, non-empty, distinct, ascending tokens joined by ", " |
| `Catalog.TokensOfJoin` | limpieza_transformacion/limpieza_transformacion.py:67-68 | splitting a ", "-joined token list on commas and trimming gives the tokens back |
| `Catalog.NormaliseListIdempotent` | limpieza_transformacion/limpieza_transformacion.py:65-72 | normalising a normalised list cell changes nothing |
| `Catalog.ListRow` | limpieza_transformacion/limpieza_transformacion.py:61-74 | only `country` and `listed_in` change, each to its normalised cell |
| `CatalogFrame.Frame.NormaliseLists` | limpieza_transformacion/limpieza_transformacion.py:61-74 | the loop over the two list columns leaves exactly the rows of the per-row list stage |
| `Catalog.CorrectRow` | limpieza_transformacion/limpieza_transformacion.py:76-83 | the rating changes exactly on rows whose rating is one of the three minute strings, and becomes "unknown"; the duration changes exactly on those rows whose duration was missing, "" or "unknown", and takes the old rating; nothing else changes |
| `CatalogFrame.Frame.CorrectRatingMinutes` | limpieza_transformacion/limpieza_transformacion.py:76-83 | the mask is taken once; the two masked assignments leave exactly the corrected rows |
| `Catalog.GroupDates` | limpieza_transformacion/limpieza_transformacion.py:89-91 | a date is among a group's dates exactly when some row of that (release_year, type) key holds it, and it occurs there exactly as many times as rows of the group hold it, so the mode is taken over true frequencies |
| `Catalog.DateModesSpec` | limpieza_transformacion/limpieza_transformacion.py:89-93 | the date mode table has a key exactly when that group has a dated row, and maps it to the least of the most frequent dates of the group |
| `Order.ModeIsLeastMode` | limpieza_transformacion/limpieza_transformacion.py:92 | `mode().iloc[0]` occurs in the values, no value occurs more often, and every value occurring as often is greater |
| `Order.LeastModeUnique` | limpieza_transformacion/limpieza_transformacion.py:92 | at most one value is the least of the most frequent values |
| `Catalog.ImputeDateRow` | limpieza_transformacion/limpieza_transformacion.py:97-107 | afterwards the date is present; the row is flagged exactly when its date was missing; an unflagged row keeps its date; no other column changes |
| `Catalog.DateStageSpec` | limpieza_transformacion/limpieza_transformacion.py:86-109 | on each row the date is present afterwards; the flag is set exactly when the parsed date was missing; a parsed date is kept; only the date and flag change |
| `Catalog.DateImputedSpec` | limpieza_transformacion/limpieza_transformacion.py:95-107 | a missing date gets the group's least most frequent date if the group has a dated row, else 1 January of the release year, else 1900-01-01 |
| `CatalogFrame.Frame.ImputeDates` | limpieza_transformacion/limpieza_transformacion.py:86-109 | the whole column is converted and the mode table built before the row loop; the loop leaves exactly the rows of the date stage |
| `Catalog.Extract` | limpieza_transformacion/limpieza_transformacion.py:117-118 | the number is absent exactly when the text has no digit; it is a non-empty digit run; no unit is found without a number; a unit is "min" or "season" |
| `Catalog.UnitNeverSeasons` | limpieza_transformacion/limpieza_transformacion.py:117 | the alternation never captures "seasons", because "season" matches first |
| `Catalog.ExtractShape` | limpieza_transformacion/limpieza_transformacion.py:117-118 | on text made of non-digits, the first digit run, blanks and a rest, the number is that whole run and the unit is "min" or "season" when the rest starts with it |
| `Catalog.ThreeSeasons` | limpieza_transformacion/limpieza_transformacion.py:117-118 | "3 seasons" yields number "3" and unit "season" |
| `Catalog.NinetyMinutes` | limpieza_transformacion/limpieza_transformacion.py:117-119 | "90 min" yields number 90 and unit "min" |
| `Catalog.UnknownDuration` | limpieza_transformacion/limpieza_transformacion.py:113-122 | "unknown" yields neither number nor unit, and a movie's unit is then backfilled to "min" |
| `Catalog.DurationRowSpec` | limpieza_transformacion/limpieza_transformacion.py:112-125 | the duration becomes its lowercased, trimmed text; the value is absent exactly when that text has no digit, and otherwise is the number written by the first digit run; only the three duration columns change |
| `Catalog.DurationUnitSpec` | limpieza_transformacion/limpieza_transformacion.py:120-123 | the unit is one of "min", "season", "seasons", "unknown"; a captured token is kept; without one a movie gets "min" and a TV show "seasons"; "seasons" only ever comes from the backfill; "unknown" exactly when neither applies |
| `Catalog.DigitsValueAppend` | limpieza_transformacion/limpieza_transformacion.py:119 | the numeric conversion of a digit run is positional: the digits of a prefix weigh ten to the power of the length of what follows |
| `Catalog.DigitsValueBound` | limpieza_transformacion/limpieza_transformacion.py:119 | a run of n digits stands for a number below ten to the n |
| `CatalogFrame.Frame.NormaliseDurations` | limpieza_transformacion/limpieza_transformacion.py:112-125 | the column assignments and the two masked backfills leave exactly the rows of the duration stage |
| `Catalog.NormaliseRating` | limpieza_transformacion/limpieza_transformacion.py:129 | a missing rating becomes "UNKNOWN" |
| `Catalog.NormaliseRatingIdempotent` | limpieza_transformacion/limpieza_transformacion.py:129 | trimming and uppercasing a normalised rating changes nothing |
| `Catalog.GroupRatings` | limpieza_transformacion/limpieza_transformacion.py:131-133 | a rating is among a group's ratings exactly when some row of that key holds it and it is not "UNKNOWN", and it occurs there exactly as many times as such rows hold it |
| `Catalog.RatingModesSpec` | limpieza_transformacion/limpieza_transformacion.py:131-135 | the rating mode table has a key exactly when that group has a rating other than "UNKNOWN", and maps it to the least of its most frequent ratings |
| `Catalog.ImputeRatingRow` | limpieza_transformacion/limpieza_transformacion.py:139-147 | the row is flagged exactly when its rating is "UNKNOWN" or ""; an unflagged row keeps its rating; no other column changes |
| `Catalog.RatingStageSpec` | limpieza_transformacion/limpieza_transformacion.py:128-149 | the flag is set exactly when the normalised rating is "UNKNOWN" or ""; otherwise the rating is the normalised one; only the rating and flag change |
| `Catalog.RatingImputedSpec` | limpieza_transformacion/limpieza_transformacion.py:139-147 | an imputed rating is the group's least most frequent rating other than "UNKNOWN", or "UNKNOWN" when the group has none |
| `CatalogFrame.Frame.ImputeRatings` | limpieza_transformacion/limpieza_transformacion.py:128-149 | the column is normalised and the mode table built before the row loop; the loop leaves exactly the rows of the rating stage |
| `Catalog.PipelineSpec` | limpieza_transformacion/limpieza_transformacion.py:152-165 | after the six stages each row keeps its id, type and year; no text, date, rating or duration cell is missing; the date flag is set exactly when the raw date did not parse; the unit is one of min, season, seasons, unknown |
| `CatalogFrame.Frame.CleanCatalog` | limpieza_transformacion/limpieza_transformacion.py:156-161 | the six stage methods in the source's order leave exactly the rows of the pipeline function |
| `Text.LowerStripFixed` | limpieza_transformacion/limpieza_transformacion.py:55-56 | `strip().lower()` of a cleaned text is itself |
| `Text.JoinSplit` | limpieza_transformacion/limpieza_transformacion.py:67-68 | joining the pieces of a split with the same separator gives the text back |
| `Hr.CleanName` | recursos_humanos/src/limpieza.py:26 | a renamed column has no blank and no whitespace at either end |
| `Hr.CleanNameSpec` | recursos_humanos/src/limpieza.py:26 | the new name is the trimmed name with each blank, and nothing else, replaced by `_` |
| `Hr.CleanNameIdempotent` | recursos_humanos/src/limpieza.py:26 | renaming a renamed column changes nothing |
| `Hr.Rename` | recursos_humanos/src/limpieza.py:26 | every field is renamed in place, keeping its column |
| `HrFrame.Frame.RenameColumns` | recursos_humanos/src/limpieza.py:26 | the column reassignment leaves exactly the renamed table |
| `Hr.ConstantIff` | recursos_humanos/src/limpieza.py:12 | a column has at most one distinct value, NaN counting as one, exactly when all its cells are equal |
| `Hr.ConstantNames` | recursos_humanos/src/limpieza.py:12 | a name is listed exactly when some column of that name is constant |
| `Hr.ConstantColumns` | recursos_humanos/src/limpieza.py:11-12 | fails exactly when a name is duplicated; otherwise returns the constant columns' names |
| `Hr.ConstantNamesAppend` | recursos_humanos/src/limpieza.py:12 | the constant names of a front part come before those of the rest, so they are in column order |
| `Hr.ConstantNamesDistinct` | recursos_humanos/src/limpieza.py:12 | with distinct column names, no name is listed twice |
| `Hr.DropConstantsSpec` | recursos_humanos/src/limpieza.py:29-33 | a field named EmployeeCount, StandardHours, Over18 or EmployeeNumber goes exactly when its column is constant; every other field survives; nothing is added |
| `Hr.Present` | recursos_humanos/src/limpieza.py:52 | the values the median is taken over are exactly the present cells, each occurring as many times as cells hold it |
| `Hr.DropOne` | recursos_humanos/src/limpieza.py:31-33 | one turn of the loop drops the named column exactly when it is present and constant |
| `HrFrame.Frame.DropConstantColumns` | recursos_humanos/src/limpieza.py:29-33 | the drop loop leaves exactly the table without the constant checked columns, and names stay distinct |
| `Hr.ToNumeric` | recursos_humanos/src/limpieza.py:44 | the result is numeric; a numeric column is kept; each object cell goes through the parser and a missing one stays missing |
| `Hr.CoerceAmong` | recursos_humanos/src/limpieza.py:42-44 | exactly the listed columns are converted; names and order are kept |
| `HrFrame.Frame.CoerceNumeric` | recursos_humanos/src/limpieza.py:36-44 | the loop over the fourteen candidates leaves exactly the coerced table |
| `Hr.NumericNames` | recursos_humanos/src/limpieza.py:47 | a name is listed exactly when some column of that name is numeric |
| `Hr.CategoricalNames` | recursos_humanos/src/limpieza.py:48 | a name is listed exactly when some column of that name is an object column |
| `Hr.FillMedian` | recursos_humanos/src/limpieza.py:50-54 | present cells are kept; every missing cell becomes the median of the present values, or stays missing when there is none |
| `Hr.FillUnknown` | recursos_humanos/src/limpieza.py:56-59 | present cells are kept; every missing cell becomes "Unknown" |
| `Hr.FillWithoutGap` | recursos_humanos/src/limpieza.py:50-59 | a column without gaps is untouched |
| `Hr.FillColumnIdempotent` | recursos_humanos/src/limpieza.py:50-59 | filling a filled column changes nothing |
| `Hr.FillImputed` | recursos_humanos/src/limpieza.py:50-59 | afterwards an object column has no gap, and a numeric column has one only when it has no present value |
| `HrFrame.Frame.FillNumeric` | recursos_humanos/src/limpieza.py:51-54 | the column is replaced by its median-filled version, or left as it is when that changes nothing |
| `HrFrame.Frame.FillCategorical` | recursos_humanos/src/limpieza.py:57-59 | the column is replaced by its "Unknown"-filled version, or left as it is when that changes nothing |
| `HrFrame.Frame.Impute` | recursos_humanos/src/limpieza.py:47-59 | the column lists are taken once; the two loops leave exactly the table with every column filled |
| `HrFrame.Frame.FillNumericColumns` | recursos_humanos/src/limpieza.py:50-54 | visiting the numeric columns in turn fills each of them, by the median, and changes no other column |
| `HrFrame.Frame.FillCategoricalColumns` | recursos_humanos/src/limpieza.py:56-59 | visiting the object columns in turn fills each of them with "Unknown" and changes no other column |
| `Stats.Median` | recursos_humanos/src/limpieza.py:52 | the median is missing exactly when there are no values |
| `Stats.MedianSplits` | recursos_humanos/src/limpieza.py:52 | at most half of the values lie strictly below the median, and at most half strictly above it |
| `Stats.MedianBetween` | recursos_humanos/src/limpieza.py:52 | the median lies between the least and the greatest value |
| `Hr.EncodeAttrition` | recursos_humanos/src/limpieza.py:63 | "Yes" becomes 1 and "No" becomes 0, each exactly there; anything else, a missing cell or a numeric cell becomes missing |
| `Hr.EncodeTarget` | recursos_humanos/src/limpieza.py:62-65 | fails with a missing-column error exactly when `Attrition` is absent; otherwise only that column is replaced by its encoding |
| `HrFrame.Frame.EncodeAttritionColumn` | recursos_humanos/src/limpieza.py:62-65 | reports the error and leaves the frame alone exactly when `Attrition` is absent; otherwise encodes it |
| `Hr.TargetSurvives` | recursos_humanos/src/limpieza.py:29-33 | the drop never removes `Attrition` |
| `Hr.CleanErrors` | recursos_humanos/src/limpieza.py:14-67 | the cleaning fails with the duplicate-name error exactly when renaming produces a duplicate, and with the missing-column error exactly when the renamed names are distinct and lack `Attrition` |
| `Hr.CleanSuccess` | recursos_humanos/src/limpieza.py:14-67 | a cleaned table has the renamed names minus the dropped ones; `Attrition` is present and holds only 1, 0 or missing; other columns are filled; every candidate column is numeric |
| `HrFrame.CleanDataset` | recursos_humanos/src/limpieza.py:22-67 | the caller's frame is unchanged; the steps run on a fresh copy and give exactly the table or the error of the cleaning function |

## Left out

- Reading and writing CSV files (`pd.read_csv`, `to_csv`, `cargar_csv`): file I/O. A frame
  is built from its rows directly.
- `visualizacion`, the prints in `corregir_rating_minutos` and the `logging` calls: console
  output only.
- `limpieza_transformacion/main.py`, `recursos_humanos/run_pipeline.py`,
  `recursos_humanos/src/eda.py`, `recursos_humanos/src/modelado.py` and
  `recursos_humanos/src/utils.py` are not part of this model. They are file checks, command
  line and YAML glue, plotting, model training over scikit-learn and floating point, and
  logging or clock setup.
- The internals of `pd.to_datetime` and `pd.to_numeric`: they are parameters of the model.
  A `Date` is a (year, month, day) triple. Nothing checks that it is a valid calendar day,
  and times of day are not modelled.
- Median and NaN as IEEE floats: the median is computed exactly over reals.
- The pandas index and the dtype changes that row-wise `apply` can cause (for example a
  release year read as a float): a table is a sequence of rows, and a year is an integer.
- Column dtypes other than numbers and strings (booleans, the `category` dtype, datetimes)
  in the HR table: every column is numeric or an object column.
- Pandas 3 copy-on-write semantics of the chained `df[c].fillna(..., inplace=True)`: the
  model assumes the fill writes through to the frame, as in the pandas versions the code was
  written for.
- The exception type raised for a duplicated column name (`ValueError` or `TypeError`,
  depending on the step): the model reports one `DuplicateColumns` error.
- Text.Lower: lowercases only ASCII letters. Python's `str.lower()` also maps non-ASCII
  letters.
- Text.Upper: uppercases only ASCII letters. Python's `str.upper()` also maps non-ASCII
  letters (and can lengthen some).
- Catalog.Extract: `\d` is restricted to the ASCII digits. Python's `re` also matches other
  Unicode decimal digits.
- Catalog.DigitsValue: the duration value is an exact natural number. `pd.to_numeric`
  gives a float with the same value up to float rounding, which differs only for digit
  runs whose value exceeds 2^53.
- Catalog.ImputedDate: returns January 1 of any integer release year. The source builds
  that date with `pd.Timestamp` (limpieza_transformacion/limpieza_transformacion.py:103),
  which raises for years outside pandas' Timestamp range (before 1677, after 2262, and
  years that are not positive); the model has no such error.
- A catalog row has a fixed set of sixteen fields, so the `KeyError` that the stages raise
  when the input lacks one of the columns they read
  (limpieza_transformacion/limpieza_transformacion.py:51-133) is not modelled.
- Catalog.KindIs: a missing `type` never matches. When every `type` cell is missing,
  `.str.lower()` (limpieza_transformacion/limpieza_transformacion.py:122-123) raises an
  `AttributeError` in the source; the model backfills nothing instead.
