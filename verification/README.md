# TB trends dashboard: the `load_data` pipeline

This project models the data-loading core of a Streamlit dashboard that
compares TB incidence with RR-TB prevalence across WHO regions. The core is
`load_data(region_key)` in `app_task4.py` together with the fixed region
catalog `DATA_FILES` and the selector choices `region_options`.

`load_data` looks the region up in the catalog. It reads the region's
incidence export and RR-TB prevalence export. It renames report headers to
internal names (`Category` → `year`, report labels → `tb_incidence`,
`tb_incidence_low`, `tb_incidence_high`, `rr_prev_prevtx`, `rr_prev_new`).
It keeps exactly the expected columns of each export and inner-joins the two
on `year`. It then keeps the years 2015 to 2023 inclusive. An unknown region
and any exception inside the `try` both give the empty data frame.

The model is functional:

- `Tables` — a cell `Value` (an integer year or an opaque measurement), a
  row as `map<string, Value>`, a `Table` as a header plus rows (a subset type:
  distinct labels, every row keyed by exactly the header), `Rename` and
  `Project`, and the year helpers `Years`, `UniqueYears`, `Occurrences`.
- `Joins` — the inner join on `year`, as `pd.merge(..., how='inner')` does it.
- `YearRange` — the closed-range year filter.
- `Catalog` — `DATA_FILES`, `region_options` and the lookup.
- `Loader` — the rename tables and column lists, `Clean` (rename, then
  project), `Load` (the body of the `try`), and `LoadData` (lookup, `try`,
  exception → empty table).
- `Wrappers` — `Option` and `Result`; `Result` stands in for raising.

`pd.read_csv` is a parameter: a `Reader` maps a file name to `Some(table)`
or to `None` when the file cannot be read.

Points about the code that the model keeps:

- Only `Category` is renamed to `year`. A `Year` header is not an alias, so
  an export that labels its years `Year` makes the load empty
  (`Loader.YearNeedsCategory`).
- Column selection is strict. A missing expected column raises, and the whole
  load is empty. The schema is never narrowed.
- The range 2015..2023 is fixed in the code. `FilterYears` takes the bounds
  as parameters, and `Loader` passes 2015 and 2023.
- Every failure becomes the same empty data frame; the caller cannot tell
  failures apart. The model keeps an `Error` value inside `Load`
  for the proofs, and `LoadData` discards it.

## Model

| member | source | states |
|---|---|---|
| Catalog.Lookup | app_task4.py:43 | the lookup finds an entry exactly for the catalog's region labels, and returns that entry's two files |
| Catalog.SelectorMatchesCatalog | app_task4.py:91-99 | every selector choice is a catalog key, the choices are distinct, every key is offered, and each entry names two different non-empty files |
| Tables.RenameRow | app_task4.py:54-59 | a renamed cell keeps its value under its new label; a cell whose label is not in the rename map keeps both label and value; no other labels appear |
| Tables.Rename | app_task4.py:54-59 | renaming fails exactly when two columns would receive the same label; otherwise the header is renamed position by position and every row cell by cell |
| Tables.Project | app_task4.py:61 | selection succeeds exactly when every wanted column is present; the result has exactly the wanted columns with the source's values; a failure names exactly the absent columns |
| Joins.Merge | app_task4.py:72 | a merged row has the columns of both rows, the shared year, and each side's values for its own columns |
| Joins.JoinRowsSound | app_task4.py:72 | every joined row merges a left row and a right row of equal year |
| Joins.JoinRowsComplete | app_task4.py:72 | every pair of a left row and a right row of equal year yields a joined row |
| Joins.Join | app_task4.py:72 | the joined header is the left header followed by the right header without `year`; the rows are the inner-join rows, and the years of the join are exactly the years both tables share |
| Joins.JoinYearsShared | app_task4.py:72 | every year of the join occurs in both inputs |
| Joins.JoinKeepsSharedYears | app_task4.py:72 | every year occurring in both inputs occurs in the join |
| Joins.JoinKeepsYearsUnique | app_task4.py:72 | with at most one row per year on each side, the join has at most one row per year |
| Joins.JoinHasSharedYearsOnce | app_task4.py:72 | with at most one row per year on each side, a year occurs in the join once if both sides have it and otherwise not at all |
| YearRange.KeepYears | app_task4.py:75 | kept rows are input rows with an integer year in range, and every such input row is kept |
| YearRange.KeptOccurrences | app_task4.py:75 | a year in range keeps every one of its rows; a year out of range keeps none |
| YearRange.FilterYears | app_task4.py:75 | the filter fails exactly when some year is not an integer; otherwise it keeps the header and the in-range rows |
| YearRange.KeptYears | app_task4.py:75 | the years after filtering are exactly the input years inside the range |
| YearRange.KeepYearsIdempotent | app_task4.py:75 | filtering rows a second time with the same range changes nothing |
| YearRange.FilterYearsIdempotent | app_task4.py:75 | filtering a filtered table again returns the same table |
| Loader.CanonicalNames | app_task4.py:54-68 | `Category` becomes `year` in both exports, `Year` keeps its name, every rename target is an expected column and every expected column is some rename target |
| Loader.Clean | app_task4.py:54-69 | cleaning an export succeeds exactly when renaming causes no collision and supplies every expected column; the result has exactly the expected columns, one row per source row, and each cell is the source cell of the column renamed to it |
| Loader.Fetch | app_task4.py:49-50 | reading succeeds exactly when the reader has the file, returns that table, and otherwise reports the file |
| Loader.MergeAndFilter | app_task4.py:72-75 | merging and filtering two cleaned exports fails exactly when a shared year is not an integer; on success the columns are exactly the six output columns and the years are those both exports share within 2015..2023, each exactly once when each export has one row per year; every output row merges an incidence row and an RR-TB row of the same year, and every such pair within 2015..2023 appears merged |
| Loader.Load | app_task4.py:47-77 | a successful load has exactly the six output columns and only rows whose year is an integer in 2015..2023 |
| Loader.LoadData | app_task4.py:41-81 | an unknown region gives the empty table; any other result is empty or has exactly the six output columns; every row's year lies in 2015..2023 |
| Loader.YearNeedsCategory | app_task4.py:54-69 | an export with neither `Category` nor `year` cannot be cleaned, so a `Year` header does not supply the join key |
| Loader.UnknownRegionReadsNothing | app_task4.py:43-45 | for a region outside the catalog the result is the empty table whatever the reader holds, so no file is consulted |
| Loader.SourceFailureGivesEmpty | app_task4.py:47-81 | an unreadable export, a colliding rename or a missing column in either export fails the load and gives the empty table, never partial data |
| Loader.LoadDataYears | app_task4.py:41-81 | once both exports are read and cleaned, the loaded years are exactly the shared years within 2015..2023, each once when each export has one row per year; a non-integer shared year empties the load; every loaded row merges an incidence row and an RR-TB row of its year, and every such pair within 2015..2023 is loaded |

## Left out

- The Streamlit page, selector, warnings, error message, expander and data preview (app_task4.py:84-107, 172-173): user-interface side effects.
- The Altair chart (app_task4.py:109-169): rendering configuration of an external library.
- `pd.read_csv` and the CSV files (app_task4.py:49-50): file I/O with a foreign parser, replaced by the `Reader` parameter. A reader always yields a rectangular table with distinct header labels, as `read_csv` does.
- Column typing on read: pandas types a column as a whole, so one text cell in `Category` turns every year of that column into text. A reader is assumed to yield `Int` cells only in a column whose cells are all integers, and `Opaque` cells for every cell of any other column. A reader that mixes the two in one column (integer years beside a footnote row) lets the model load data where pandas returns the empty table: when only one export has text years, `pd.merge` raises at app_task4.py:72 because the key columns are text against integers; when both do, the merge matches the text keys and the comparison with 2015 at app_task4.py:75 raises. A blank `Category` cell makes pandas read the whole year column as floats (2015.0, …, NaN); under this assumption those cells are all `Opaque`, so they never equal an `Int` year of the other export and the model's join is empty, whereas pandas' merge at app_task4.py:72 matches 2016.0 with 2016, the comparison at app_task4.py:75 accepts floats and drops NaN, and pandas returns data.
- The `@st.cache_data` memoization (app_task4.py:40): with the files unchanged while the app runs, a cache with no effect on results. The `Reader` is fixed, so a file that appears after a failed load is not modelled; the app keeps serving the cached empty table for that region until the cache is cleared.
- Floating-point measurements: cells other than integer years are opaque tokens carried unchanged, and only `year` is compared.
- The data frame's row index: the merged and filtered index is not modelled, only the row order.
- Tables.Rename: two columns renamed to the same label are a failure. pandas fails later only when the duplicated label is `year` (the merge raises); for a duplicated measurement label it would return a frame with two columns of that name, which the `Table` type cannot hold.
- Tables.Project: requires the wanted labels to be distinct. The code only selects its own fixed lists, which are.
- YearRange.FilterYears: every non-integer year makes the filter fail. pandas raises for text years but compares float years and drops missing years; those cases are not separated.
- Joins.Join: requires the two headers to share only `year`. pandas would add `_x`/`_y` suffixes to other shared labels, which never arises after the fixed projections.
- Joins.JoinRowsSound: when a year repeats inside one export, pandas returns one row per matching pair as the model does, but its row order then is not claimed. The exactly-once lemmas assume at most one row per year in each cleaned export.
- Joins.JoinRowsSound: join keys are compared as `Value`s; pandas' error when the two `year` columns have incompatible dtypes is not modelled.
