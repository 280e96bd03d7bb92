# HealthGuard cleaning service, modelled in Dafny

HealthGuard's backend is a small Flask service (`backend/app.py`) that keeps one data frame in
a global variable `df`. `POST /upload` replaces it with the table parsed from an uploaded CSV
file and replies with the column names and the first ten rows. `GET /clean` rewrites it in three
stages and replies with the first ten cleaned rows:

1. **Trim.** Every text cell loses its leading and trailing whitespace, as Python's `str.strip()`
   removes it.
2. **Fill.** In every numeric column, each missing cell becomes the mean of that column's numbers.
3. **Zero replacement.** The code loops over `Glucose`, `BloodPressure`, `BMI`, `Insulin` and
   `SkinThickness`, in that order. For each of them present in the table, zeros become the
   column mean. That mean is taken after stage 2 and counts the zeros.

The project models this in five modules:

- `Outcomes` (`outcomes.dfy`): `Option`, `Result` and the three error kinds the handlers report.
- `Tables` (`tables.dfy`): cells (`Num(real) | Str(string) | Missing`), columns and tables. It also
  holds the well-formedness that `pd.read_csv` guarantees (equal column lengths, distinct names),
  the column lookup `col in df.columns` and the ten-row preview `df.head(10).to_dict(orient='records')`.
- `Strings` (`strings.dfy`): `str.strip()` over Python's whitespace set, with its characterisation.
- `Cleaning` (`cleaning.dfy`): the three stages as functions on tables, the loop of stage 3 as
  `ZeroPass`, the pipeline as `CleanTable`, and the lemmas about them.
- `App` (`session.dfy`): the class `Session`. Its field `df: Option<Table>` is the global `df`.
  Its methods `Upload` and `Clean` are the two handlers. `Clean` runs the stage-3 loop as a
  `while` loop over the column list and assigns `df` after each stage, as the handler does.

A few facts proved about the model. Each mirrors what the code does:

- Missing cells are filled **before** zeros are replaced, so the zeros are averaged into the mean
  that replaces them. A listed column `[0, 80, 90, 0]` becomes `[42.5, 80, 90, 42.5]`
  (`ZerosAveragedIn`).
- Cleaning is **not atomic**. The handler reassigns `df` after each stage. If `df[col].mean()`
  raises on a text column in the stage-3 loop, `df` stays trimmed and filled, and the listed
  columns visited before the failing one keep their replaced zeros (`Session.Clean`,
  `ZeroPassSpec`, `FailedCleanKeepsEarlierColumns`).
- When cleaning succeeds, cleaning the result again changes nothing (`CleanIdempotent`). Zeros
  cannot survive unless the mean they were replaced by is itself zero (`ReplaceZeroLeavesNoZero`).

The code does no duplicate-row removal, computes no summary statistics and answers no
questions, so none of these is modelled.

A column is numeric when it holds no text cell. This is how pandas types a column read from
CSV. A column that is entirely missing is read as a float column and so counts as numeric. The
mean is an exact `real`. Where pandas would produce `NaN` (a numeric column with no number),
`MeanCell` gives `Missing`. Filling or replacing with it then leaves the cells missing, which is
also what pandas does.

## Model

| member | source | states |
|---|---|---|
| `Tables.IndexOf` | backend/app.py:45-46 | `IndexOf(ColumnNames(t), name)`, the model of `col in df.columns`, is `None` exactly when the name is absent; otherwise the result is the first position holding that name |
| `Tables.Preview` | backend/app.py:21-24 | `Preview`, which is `Records(Head(t, 10))`, gives the reply's `data`: it has min(10, rows) records; record i holds, in column order, each column's name paired with that column's i-th cell |
| `Strings.StripLeading` | backend/app.py:37 | `StripLeading`'s result is a suffix of the input; what was dropped is all whitespace; the result does not start with whitespace |
| `Strings.StripTrailing` | backend/app.py:37 | `StripTrailing`'s result is a prefix of the input; what was dropped is all whitespace; the result does not end with whitespace |
| `Strings.Strip` | backend/app.py:37 | `Strip` (`str.strip()`) returns a string with no whitespace at either end |
| `Strings.StripIsInfix` | backend/app.py:37 | the result of `strip` is a contiguous piece of the input, starting where the leading whitespace ends, with only whitespace before and after it |
| `Strings.StripUnique` | backend/app.py:37 | any split of a string into whitespace, a middle without edge whitespace, and whitespace has `Strip` equal to that middle, so the two properties above determine `strip` |
| `Strings.StripKeepsStripped` | backend/app.py:37 | a string without edge whitespace is unchanged by `strip` |
| `Strings.StripIdempotent` | backend/app.py:37 | stripping twice equals stripping once |
| `Cleaning.MeanCell` | backend/app.py:40 | `MeanCell` is a number exactly when the cells hold at least one number; it then times the count of numbers equals their sum; it is never text |
| `Cleaning.TrimTableSpec` | backend/app.py:37 | `TrimTable` keeps column names, order and lengths; no text cell keeps edge whitespace; each text cell is cut out of the original with only whitespace removed; numbers and missing cells are unchanged |
| `Cleaning.TrimKeepsTrimmed` | backend/app.py:37 | a table whose text cells have no edge whitespace is unchanged by `TrimTable` |
| `Cleaning.TrimTableIdempotent` | backend/app.py:37 | `TrimTable` applied twice equals `TrimTable` applied once |
| `Cleaning.TrimNumericColumn` | backend/app.py:37 | a column without text is untouched by `TrimColumn` |
| `Cleaning.FillMissingSpec` | backend/app.py:40 | `FillMissing` keeps the shape; non-numeric columns and present cells are unchanged; a missing cell of a numeric column becomes the mean of the column's numbers; a numeric column with a number has no missing cell left; an all-missing column stays as it was |
| `Cleaning.FillPreservesMean` | backend/app.py:40 | `FillCells` filling gaps with `MeanCell` leaves the mean of the column unchanged |
| `Cleaning.ReplaceZeroColumnSpec` | backend/app.py:46 | `ReplaceZeroColumn` keeps the name, the length and the numeric kind; a zero becomes the column mean with the zeros counted in; every other cell is unchanged |
| `Cleaning.ReplaceZeroIdempotent` | backend/app.py:46 | `ReplaceZeroColumn` applied a second time changes nothing |
| `Cleaning.ReplaceZeroLeavesNoZero` | backend/app.py:46 | after `ReplaceZeroColumn` no zero is left unless the column mean is itself zero, and in that case the column is unchanged |
| `Cleaning.ZeroPassSpec` | backend/app.py:43-46 | the loop `ZeroPass` fails exactly when some listed name is present as a text column, and then stops at the first such name in list order; the table left behind has the zeros of the numeric listed columns visited so far replaced, and nothing else changed; on success, every numeric listed column is replaced |
| `Cleaning.ZeroPassLeavesUnlisted` | backend/app.py:43-46 | whether or not `ZeroPass` fails, a column whose name is not in the list keeps every cell, zeros included, and no column changes name, length or kind |
| `Cleaning.CleanTableSpec` | backend/app.py:36-46 | the pipeline `CleanTable` (`TrimTable`, then `FillMissing`, then `ZeroPass`) fails exactly when a listed column is present and holds text, naming the first such column; on success, column names, order and row count are kept, the result is well formed, and each column is cleaned on its own as `CleanColumn` says |
| `Cleaning.CleanListedColumn` | backend/app.py:40-46 | `CleanColumn`, the per-column effect of `CleanTable`: in a listed numeric column, every missing cell and every zero becomes the mean of the column's numbers as uploaded, zeros counted in; every other cell is kept |
| `Cleaning.CleanColumnIdempotent` | backend/app.py:37-46 | `CleanColumn` keeps its name and kind, and cleaning the result again changes nothing |
| `Cleaning.CleanIdempotent` | backend/app.py:36-46 | when no listed column present holds text, `CleanTable` succeeds, and cleaning the result again succeeds and returns it unchanged |
| `Cleaning.ZerosAveragedIn` | backend/app.py:40-46 | `CleanTable` cleans the listed column [0, 80, 90, 0] to [42.5, 80, 90, 42.5]: the zeros enter the mean that replaces them |
| `Cleaning.FailedCleanKeepsEarlierColumns` | backend/app.py:37-46 | with a text `BMI` column, `ZeroPass` stops at `BMI`, but the zeros of `Glucose`, visited first, are already replaced |
| `App.Session.constructor` | backend/app.py:8 | a new session holds no table |
| `App.Session.Upload` | backend/app.py:14-27 | a parse failure leaves the held table, or its absence, unchanged and reports `UploadFailed`; a parsed table replaces the held one wholesale, and the reply carries its column names and its ten-row preview |
| `App.Session.Clean` | backend/app.py:29-54 | with no table, it reports `NoDataUploaded` and the session stays empty; otherwise `df` becomes the table left by trimming, filling and the zero loop, partial when the loop raised; the reply is the error kind `CleaningFailed`, tagged with the column where the loop stopped, or the ten-row preview; success happens exactly when `CleanTable` succeeds, and `df` is then its result |

## Left out

- Flask routing, the `home` route, CORS, `jsonify`, HTTP status codes and `app.run`
  (backend/app.py:1-12, 56-57) are transport. Outcomes are `Result` values instead.
- CSV parsing by `pd.read_csv` and reading `request.files['file']` are foreign code. `Upload`
  receives the parsed table, or `None` for any failure. A parsed table is assumed well formed
  (equal column lengths, distinct names), which the reader guarantees.
- Error replies are reduced to error kinds. The handlers reply with the message text
  `Upload failed: ...` or `Cleaning failed: ...` followed by the exception's own text
  (backend/app.py:26-27, 53-54), which the model does not carry. The column in
  `CleaningFailed(column)` is the model's own record of where the stage-3 loop stopped. The
  real reply does not name the column: its text is the `TypeError` raised by `Series.mean`.
  The success replies' `message` strings are also dropped.
- JSON encoding of the reply is not modelled. If `jsonify` raised after line 19, `df` would
  already be replaced while the reply is an error.
- Floating point is not modelled. Means are exact `real`s and `NaN` is the `Missing` cell.
  Integer versus float column types are not distinguished.
- Boolean and date columns are not modelled. Every cell is a number, a text or missing. A
  boolean `False` that pandas would compare equal to `0` has no counterpart here.
- Which pandas release runs the code is not fixed by it. The model follows pandas 2.x (before
  3.0, which removed `applymap`): there `Series.mean` raises on any column holding text, so the
  stage-3 loop fails exactly at the first listed text column (`ZeroPassSpec`, `CleanTableSpec`).
  Under pandas 1.x, `mean` of a text column converts the concatenated strings with `float()`.
  A listed column whose text cells concatenate to a number (`"148"`, `""`, `"89"` gives
  `14889 / 3`) would get that value as its mean and the clean would go on. The model reports
  `CleaningFailed` there instead.
- Exceptions other than `Series.mean` on a text column (out of memory, for example) are not
  modelled. Under pandas 2.x that is the one failure the stage-3 loop reaches on well-formed input.
- Concurrent requests on the shared `df` are not modelled. The code takes no lock.
- `Tables.Preview`: a table with no columns is taken to have no rows, so its preview is empty.
  pandas could keep an index of rows without columns, but the reader never produces such a table.
