# Employee-record normalisation for a search index

The repository is a small administration script for an Elasticsearch
cluster. Its only logic of its own is inside `indexData`. That function reads
a CSV of employee records, cleans it and submits one document per row under
the row's `Employee_ID`. This project models that cleaning and submission
pipeline over an already-parsed table, and the lowercasing of collection names
done by `createCollection`. It then proves what the pipeline guarantees about
the documents it emits.

Modules:

- `Results` holds the `Option` and `Result` wrappers the other modules use
  for absent values and errors.
- `Records` holds the data. A cell is `Missing`, text (`Str`) or a number
  (`Num`, an exact `real`). A row is a map from column name to cell. A table
  has an ordered column list and rows in source order. `WellFormed` states
  what a data frame guarantees: distinct column names, and every row keyed by
  exactly those columns.
- `Text` holds character removal (`StripChars`), which models the regex
  replacement of single literal characters, and ASCII lowercasing (`Lower`).
- `Numeric` holds the coercion of cleaned text to a number (`ParseDecimal`),
  which returns `None` where pandas would produce NaN.
- `Normalizer` holds the column-wide steps and the reference meaning of a
  cleaned cell (`CleanedCell`). The steps, in order, are:
  1. fill four columns with `"Unknown"`;
  2. fill `Age` with 0;
  3. strip `$` then `,` from `Annual Salary`;
  4. strip `%` from `Bonus %`;
  5. coerce both of those columns, with 0 on failure;
  6. drop the excluded column when it exists.

  The module also holds `RowToDoc`, the defensive second fill with
  `"Unknown"`, and `DocId`, the identifier lookup.
- `Indexer` holds the row loop. It records each document submitted to the
  store as a `Submission`. An ingestion run ends early on the first KeyError,
  and documents submitted before it stay submitted. The module also holds
  `CollectionName`.
- `Scenarios` holds worked values, such as `"$1,234.50"` cleaned to 1234.50,
  and a three-row end-to-end ingestion.

The comment at line 15 of `elasticsearch_assignment.py` and the key-error
message at line 74 are easy to misread. The model follows the code at these
points:

- Only `createCollection` lowercases the collection name. `indexData` submits
  to the name exactly as given, and `Indexer.IndexData` does the same.
- `data['Age']`, `data['Annual Salary']` and `data['Bonus %']` raise a KeyError
  when the column is absent. The handler at lines 73-74 catches it and reports
  it as a missing `Employee_ID`. The model returns `KeyError` carrying the
  column that was actually missing. The lookups are checked in source order.
- A dictionary `fillna` ignores names that are not columns, so those never
  raise.
- A row without `Employee_ID` raises inside the loop and ends the whole
  ingestion. Later rows are not attempted. In a well-formed table every row
  has the same columns, so either every row is submitted or none is. An empty
  table without the column raises nothing.
- The identifier is read after the second fill. Every row with a missing
  `Employee_ID` is therefore submitted under the id `"Unknown"`, and those
  documents share one identifier in the store.

## Model

| member | source | states |
|---|---|---|
| `Text.StripChars` | elasticsearch_assignment.py:51-52 | no character of the removed set is left, and the result is never longer than the input |
| `Text.StripKeepsCounts` | elasticsearch_assignment.py:51-52 | every character outside the removed set occurs exactly as often after stripping as before |
| `Text.StripAppend` | elasticsearch_assignment.py:51-52 | stripping distributes over concatenation, so the kept characters stay in source order |
| `Text.StripNoop` | elasticsearch_assignment.py:51-52 | a string that holds none of the removed characters is unchanged |
| `Text.StripIdempotent` | elasticsearch_assignment.py:51-52 | stripping an already-stripped string leaves it unchanged |
| `Text.StripSequential` | elasticsearch_assignment.py:51 | removing one set of characters and then another equals one removal of their union |
| `Text.Lower` | elasticsearch_assignment.py:15 | same length, each character lowercased, and no upper-case letter left |
| `Text.LowerIdempotent` | elasticsearch_assignment.py:15 | lowercasing is idempotent |
| `Text.LowerEqualIff` | elasticsearch_assignment.py:15 | two strings lowercase to the same string exactly when they are equal up to letter case |
| `Indexer.CollectionName` | elasticsearch_assignment.py:15 | the created name has the requested name's length, contains no capitals, and equals the request up to case |
| `Indexer.CollectionNameIgnoresCase` | elasticsearch_assignment.py:13-15 | two requested names create the same collection exactly when they differ only in case |
| `Indexer.CollectionNameIdempotent` | elasticsearch_assignment.py:15 | normalising an already normalised name changes nothing |
| `Indexer.CollectionNameExample` | elasticsearch_assignment.py:15 | `"Foo"` and `"foo"` both name the collection `"foo"` |
| `Numeric.DigitsValue` | elasticsearch_assignment.py:55-56 | a string of n digits denotes a whole number below 10^n |
| `Numeric.NatToDigits` | elasticsearch_assignment.py:55-56 | every natural number has a non-empty digit string without leading zero that denotes it |
| `Numeric.ParseDecimal` | elasticsearch_assignment.py:55-56 | text that parses is non-empty and consists only of digits, a point and signs; anything else, such as a leftover `$`, becomes NaN (None) |
| `Numeric.ParsePointed` | elasticsearch_assignment.py:55-56 | `whole.frac` parses to whole + frac / 10^\|frac\| |
| `Numeric.ParseWhole` | elasticsearch_assignment.py:55-56 | a digit string parses to the whole number it writes |
| `Numeric.ParseNatRoundTrip` | elasticsearch_assignment.py:55-56 | the numeral of any natural number parses back to that number |
| `Numeric.ParseNegated` | elasticsearch_assignment.py:55-56 | a leading minus negates the parsed value |
| `Numeric.ParsePlus` | elasticsearch_assignment.py:55-56 | a leading plus leaves the parsed value unchanged |
| `Numeric.UnsignedNumeralIff` | elasticsearch_assignment.py:55-56 | the unsigned reader succeeds exactly on text made of digits and at most one point, with at least one digit |
| `Numeric.ParseDecimalIff` | elasticsearch_assignment.py:55-56 | the reader succeeds exactly on the decimal numerals: an unsigned numeral, optionally after one sign; every other text, such as `"1-2"`, `"1.2.3"`, `"+-1"`, `"-"` or `"."`, becomes NaN (None) |
| `Normalizer.FillMissing` | elasticsearch_assignment.py:47-48 | every missing cell of the column becomes the fill value; present cells and other columns are unchanged; rows keep their keys |
| `Normalizer.FillEach` | elasticsearch_assignment.py:41-47 | a dictionary fill replaces exactly the missing cells of the listed columns and ignores names that are not columns |
| `Normalizer.StripCell` | elasticsearch_assignment.py:51-52 | a text cell becomes its text with the removed characters taken out (which `StripKeepsCounts` and `StripAppend` characterise), and holds none of them; numbers and missing cells pass through |
| `Normalizer.StripColumn` | elasticsearch_assignment.py:51-52 | each text cell of the column becomes its text with the removed characters taken out, so it holds none of them; all other cells are unchanged |
| `Normalizer.StripSalary` | elasticsearch_assignment.py:51 | each text salary cell loses every `$` and `,` and keeps its other characters in order; all other cells are unchanged |
| `Normalizer.StripBonus` | elasticsearch_assignment.py:52 | each text bonus cell loses every `%` and keeps its other characters in order; all other cells are unchanged |
| `Normalizer.SalaryStripIsOnePass` | elasticsearch_assignment.py:51 | replacing `$` and then `,` equals one removal of both characters |
| `Normalizer.CoerceOrZero` | elasticsearch_assignment.py:55-56 | the result is always a number: numbers stay, parsable text becomes its value, and missing or unparsable cells become 0 |
| `Normalizer.CoerceColumn` | elasticsearch_assignment.py:55-56 | afterwards every cell of the column is a number, namely the coercion of the cell it replaces (its parsed value, or 0 when missing or unparsable); other columns are unchanged |
| `Normalizer.DropColumn` | elasticsearch_assignment.py:59-60 | an existing column is removed from the column list and from every row, and all other keys and values are kept; an absent column leaves the table unchanged; well-formedness is preserved |
| `Normalizer.Normalize` | elasticsearch_assignment.py:40-60 | fails exactly when `Age`, `Annual Salary` or `Bonus %` is not a column, naming the first of them in source order; otherwise keeps the row count, keeps every column except the excluded one, and keeps the table well formed |
| `Normalizer.Cleaned` | elasticsearch_assignment.py:41-56 | the steps before the drop keep the column list, the row count and every row's keys |
| `Normalizer.CleanedCellTrace` | elasticsearch_assignment.py:41-56 | every cell after the steps before the drop is the per-column reference cleaning (`CleanedCell`) of the raw cell: fill, age default, strip and coerce as the column requires |
| `Normalizer.NormalizeCells` | elasticsearch_assignment.py:41-60 | each surviving cell equals the per-column reference cleaning of the raw cell; rows lose only the excluded key |
| `Normalizer.CleanedCellFacts` | elasticsearch_assignment.py:47-56 | after the final fill, a cleaned cell is never missing, the salary and bonus are numbers, a missing age is 0, any other missing cell is `"Unknown"`, and present non-numeric-column cells are unchanged |
| `Normalizer.RowToDoc` | elasticsearch_assignment.py:63-65 | a document keeps every key of its row, has no missing value, keeps present values, and holds `"Unknown"` where the row had a missing value |
| `Normalizer.DocId` | elasticsearch_assignment.py:66 | the id is the document's `Employee_ID` value when that key exists; otherwise the result is a KeyError for `Employee_ID` |
| `Normalizer.DocumentContents` | elasticsearch_assignment.py:41-65 | each emitted document has no missing value, numeric salary and bonus, age 0 where the age was missing, `"Unknown"` for other missing cells, and unchanged present cells; it holds every raw key except the excluded one, which no document of a well-formed table contains |
| `Indexer.IngestRows` | elasticsearch_assignment.py:62-66 | rows are submitted one per row and in order, each under its document's `Employee_ID`; the run fails exactly when it stops early, and it stops at the first row without `Employee_ID` with a KeyError |
| `Indexer.IngestStep` | elasticsearch_assignment.py:62-66 | one loop iteration either submits the row's document and goes on, or ends the run with the KeyError |
| `Indexer.IndexRows` | elasticsearch_assignment.py:62-66 | the imperative row loop produces exactly the run that `IngestRows` describes |
| `Indexer.IndexData` | elasticsearch_assignment.py:40-66 | a normalisation error submits nothing and reports that error; every submitted document targets the given name, has no missing value, and is keyed by its own `Employee_ID` |
| `Indexer.IndexDataOutcome` | elasticsearch_assignment.py:59-74 | for a well-formed table: no rows means no submissions and no error; no usable `Employee_ID` column means a KeyError before any submission; otherwise every row is submitted, in order, as the document built from its normalised row, without the excluded key, under its `Employee_ID` (or `"Unknown"` when it was missing) |
| `Scenarios.SalaryExample` | elasticsearch_assignment.py:51-55 | `"$1,234.50"` in `Annual Salary` becomes 1234.50 |
| `Scenarios.BonusExample` | elasticsearch_assignment.py:52-56 | `"12.5%"` in `Bonus %` becomes 12.5 |
| `Scenarios.EmptySalaryExample` | elasticsearch_assignment.py:51-55 | an empty, missing or `"$"`-only salary becomes 0 rather than an error |
| `Scenarios.InnerMinusUnparsed` | elasticsearch_assignment.py:55-56 | `"1-2"` is not a numeral and reads as NaN (None) |
| `Scenarios.TwoPointsUnparsed` | elasticsearch_assignment.py:55-56 | `"1.2.3"` is not a numeral and reads as NaN (None) |
| `Scenarios.TwoSignsUnparsed` | elasticsearch_assignment.py:55-56 | `"+-1"` is not a numeral and reads as NaN (None) |
| `Scenarios.NoDigitUnparsed` | elasticsearch_assignment.py:55-56 | `"-"` and `"."` hold no digit and read as NaN (None) |
| `Scenarios.MalformedBonusExample` | elasticsearch_assignment.py:52-56 | `"1-2"` in `Bonus %` becomes 0 |
| `Scenarios.RoundSalaryExample` | elasticsearch_assignment.py:51-55 | `"$50,000"` becomes 50000 |
| `Scenarios.ThreeRowIngest` | elasticsearch_assignment.py:40-66 | for a three-row table ingested while excluding `Department`, three documents are submitted in row order under the rows' ids, none has `Department`, the row without a gender gets `"Unknown"`, and `"$50,000"` becomes 50000 |

## Left out

- Elasticsearch client calls (lines 7-11, 17-25, 66, 88, 100, 112, 137) are network I/O to an external service. Connection setup, the existence check and index creation are not modelled. `es.index` is modelled only as the `Submission` record it would receive.
- `searchByColumn`, `getEmpCount`, `delEmpById` and `getDepFacet` (lines 78-144) only build fixed query dictionaries and unpack responses. They have no logic of their own.
- The file-existence check and `pd.read_csv` with ISO-8859-1 decoding (lines 29-38) are I/O and library parsing. The model starts from the parsed table.
- pandas type inference at read time is not modelled. A cell is text or a number according to what the parser produced, and the model handles both.
- Duplicate CSV headers, which pandas renames, are not modelled. `WellFormed` assumes distinct column names.
- The `print` reporting is not modelled. Neither are the `ConnectionError`, `ApiError` and generic handlers (lines 69-72 and 75-76), nor the `__main__` driver (lines 147-162). The `KeyError` handler (lines 73-74) is modelled as the `KeyError` an ingestion run ends with.
- Numeric.ParseDecimal: accepts an optional sign, digits and an optional point with digits. pandas also accepts exponents, surrounding blanks, and spellings such as `inf` or `nan`; the model reads these as unparsable, so they become 0. Values are exact reals, not IEEE doubles, so rounding and infinities are not modelled.
- Text.Lower: lowercases only ASCII `A`-`Z`. Python's `str.lower` also maps non-ASCII capitals.
