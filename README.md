# Arizona properties dashboard: listing-table wrangling

`Arzona_APP.py` is a Streamlit dashboard over a workbook of Zillow listings.
Each worksheet is a listing table with one row per observation of a
property. The columns are `Address`, a set of optional descriptive columns,
and up to ten numbered pairs `Date1/Price1` … `Date10/Price10`. Around the
download, the widgets and the chart sits a small core of table wrangling.
This project models that core and proves what it computes:

- **Column pruning.** In `load_sheet`, `df.dropna(axis=1, how='all')` drops
  every column whose cells are all missing (module `Loader`).
- **Date normalisation.** `convert_dates` rewrites, in place, every column
  whose label contains `Date`. The column is passed to
  `pd.to_datetime(..., errors='coerce')`, so an unreadable value becomes
  missing. The model parses each cell on its own (module `Dates`, over the
  mutable `Frames.Frame`).
- **Property-record extraction.** `prepare_plot_data` selects the rows of
  one address. It returns the empty record when none match. Otherwise it
  takes each of the eight descriptive fields as
  `dropna().unique()[0]`. It then walks the ten pairs, extending `dates`
  and `prices` only when both columns exist and both hold a value (module
  `Extract`).
- **Address list.** `df['Address'].dropna().unique()` gives the addresses
  offered for selection (module `Addresses`).

A table is stored column by column (`Frames.Table`). A cell is
`Option<V>`, where `None` is pandas' NaN/NaT and `V` is an opaque cell
value. A `Table` is `WellFormed` when every column has one cell per row and
the labels are distinct; `read_excel` produces only such tables, since it
renames repeated headers. `Series` holds the single-column operations
`dropna`, `unique` and boolean-mask selection. A missing `Address` column
makes pandas raise `KeyError`, which is modelled as
`Result.KeyError("Address")`.

The extraction is written twice:
- the function `Extract.PropertyRecord` is the specification;
- the method `Extract.PreparePlotData` follows the code statement by
  statement, including the `extend` loop (`Extract.CollectHistory`), and is
  proved equal to it.

`Dates.ConvertDates` mutates a `Frames.Frame` in place and is proved to
leave it equal to `Dates.Normalized` of the old table.

The chart (lines 110-131) uses the two history lists as if they were
index-aligned. It plots `prices` against `range(len(dates))`, and it takes
the tick labels from `dates`. The code does not make the lists aligned:
each column's missing values are dropped separately (lines 80-81). The
model follows the code. `Scenarios.MissingDateMisalignsHistory` shows a
two-row sheet where the code yields one date and two prices.

## Model

| member | source | states |
|---|---|---|
| Loader.LoadSheet | Arzona_APP.py:21-24 | the row count is unchanged; a column survives exactly when it holds at least one value (both directions); the result is well formed when the sheet is |
| Loader.KeepFilled | Arzona_APP.py:23 | a column is kept exactly when it is not all missing, and nothing is added |
| Loader.KeepFilledAppend | Arzona_APP.py:23 | pruning commutes with splitting the columns, so surviving columns keep their relative order |
| Loader.KeepFilledPreservesShape | Arzona_APP.py:23 | pruning keeps every column one cell per row and the labels distinct |
| Loader.LoadSheetIdempotent | Arzona_APP.py:23 | pruning an already-pruned sheet changes nothing |
| Loader.KeepFilledNoEmpty | Arzona_APP.py:23 | a sheet without an all-missing column loses no column |
| Dates.MentionsDate | Arzona_APP.py:29 | the case-sensitive test `'Date' in col`; `Dates.MentionsDateIsSubstring` proves it is substring containment |
| Dates.MentionsDateIsSubstring | Arzona_APP.py:29 | the label passes exactly when `Date` occurs in it at some position (both directions) |
| Dates.NormalizeColumn | Arzona_APP.py:29-30 | the label and the cell count are kept; a column without `Date` in its label is unchanged; otherwise each cell becomes the parse of the old cell, and a missing cell stays missing |
| Dates.ConvertDates | Arzona_APP.py:27-31 | the in-place loop over the columns leaves the frame equal to the normalised old table |
| Dates.Normalized | Arzona_APP.py:28-30 | the column count and the row count are unchanged |
| Dates.NormalizedChangesOnlyDateColumns | Arzona_APP.py:28-30 | labels and order are kept; a column without `Date` in its label is unchanged; each cell of a `Date` column becomes the parse of the old cell, and a missing cell stays missing; well-formedness is kept |
| Dates.NormalizedIdempotent | Arzona_APP.py:30 | normalising twice equals normalising once when the parser is idempotent on the timestamps it returns |
| Extract.Matches | Arzona_APP.py:35 | the mask is true at a row exactly when its address equals `a`; a missing address never matches |
| Extract.FirstUnique | Arzona_APP.py:44-74 | `None` exactly when the column is absent or all its cells are missing; otherwise the first non-missing cell in row order |
| Extract.PairValues | Arzona_APP.py:79-85 | a pair adds dates exactly when it adds prices, and adds something only when both of its columns exist |
| Extract.History | Arzona_APP.py:76-85 | the dates are empty exactly when the prices are |
| Extract.Assemble | Arzona_APP.py:40-87 | the record's dates are empty exactly when its prices are; `Extract.ScalarOfAssemble` gives each field |
| Extract.MatchingRows | Arzona_APP.py:35 | the selected rows form a well-formed table |
| Extract.PropertyRecord | Arzona_APP.py:34-38 | the result is `KeyError("Address")` exactly when the table has no `Address` column |
| Extract.PreparePlotData | Arzona_APP.py:34-87 | the statement-by-statement body, with its loop, returns `PropertyRecord` |
| Extract.CollectHistory | Arzona_APP.py:76-85 | the loop over pairs 1..10 ends with `dates` and `prices` equal to the history concatenated over those pairs |
| Extract.PropertyRecordIsAssembled | Arzona_APP.py:37-38 | the early return for zero matching rows gives exactly what assembling the record from zero rows gives |
| Extract.AssembleOfNoRows | Arzona_APP.py:37-38 | over zero rows, every pair adds nothing and every descriptive field is `None`: the empty record of the early return |
| Extract.NoMatchingRowGivesEmptyRecord | Arzona_APP.py:35-38 | when no row carries the address, the result is empty lists and eight `None` fields |
| Extract.ScalarField | Arzona_APP.py:44-74 | a descriptive field is `None` exactly when its column is absent or no matching row holds a value there; otherwise it is the value of the first matching row, in row order, that holds one |
| Extract.ScalarOfAssemble | Arzona_APP.py:41-74 | each of the eight record fields carries the first distinct value of its own column |
| Extract.FirstUniqueOfMatchingRows | Arzona_APP.py:45-46 | `dropna().unique()[0]` on the matching rows is the first non-missing matching value, or `None` when there is none |
| Extract.LookupMatching | Arzona_APP.py:35 | a column of the selected rows is that column's cells at the matching rows; a column absent from the table is absent from them |
| Extract.MatchingColumnValues | Arzona_APP.py:79-83 | a pair column exists in the selected rows exactly when it exists in the table; it then holds a value exactly when some matching row holds one |
| Extract.PairContribution | Arzona_APP.py:76-85 | pair `i` adds something exactly when both of its columns exist and each holds a value in a matching row; it then adds the matching non-missing dates and prices, each in row order |
| Extract.HistoryOfNoRows | Arzona_APP.py:76-85 | over zero rows, every pair adds nothing |
| Extract.HistoryComesFromPairs | Arzona_APP.py:80-85 | every date and every price in the history was added by some pair among 1..n |
| Extract.EntryFromPair | Arzona_APP.py:84-85 | names the pair that added a given entry of either list |
| Extract.HistoryStable | Arzona_APP.py:76-85 | pairs that add nothing leave the history unchanged |
| Extract.NonMatchingRowIgnored | Arzona_APP.py:35 | inserting, anywhere, a row with a different or missing address leaves the record of `a` unchanged |
| Extract.MatchingRowsInsert | Arzona_APP.py:35 | such an inserted row is not among the selected rows |
| Extract.AllRowsMatch | Arzona_APP.py:35 | when every row carries the address, the selection is the whole table |
| Addresses.AddressList | Arzona_APP.py:99 | `KeyError` exactly without an `Address` column; otherwise no duplicates, and a value is listed exactly when some row's address holds it |
| Addresses.AddressListFirstSeenOrder | Arzona_APP.py:99 | the addresses are listed in the order of their first row |
| Addresses.DropNaKeepsOrder | Arzona_APP.py:99 | `dropna()` keeps the relative order of first occurrences |
| Addresses.ListedAddressHasRows | Arzona_APP.py:99-103 | every address offered for selection has at least one row, and its record is not an error |
| Series.DropNa | Arzona_APP.py:80-81 | exactly the present values are kept, and the result is empty exactly when every cell is missing; `Series.DropNaInRowOrder` gives order and multiplicity |
| Series.DropNaInRowOrder | Arzona_APP.py:80-81 | the j-th kept value is the value of the j-th present row, so row order and repeated values are kept |
| Series.DropNaHeadIsFirstPresent | Arzona_APP.py:45-46 | the head of `dropna()` is the first present cell |
| Series.Unique | Arzona_APP.py:45 | holds exactly the input's values with no duplicate, and keeps the first value first |
| Series.UniqueFirstSeenOrder | Arzona_APP.py:99 | `unique()` lists values in the order of their first occurrence |
| Series.Rows | Arzona_APP.py:35 | the selected row numbers are exactly the rows where the mask is true, in increasing order |
| Series.WhereAt | Arzona_APP.py:35 | the j-th selected cell is the cell of the j-th selected row |
| Series.WhereAll | Arzona_APP.py:35 | an all-true mask selects the whole column |
| Series.WhereAppend | Arzona_APP.py:35 | selecting from two stacked blocks stacks the two selections |
| Series.WhereInsertUnselected | Arzona_APP.py:35 | a cell inserted at an unselected row does not appear in the selection |
| Series.WhereAllMissing | Arzona_APP.py:45-46 | the selection is all missing exactly when every selected row is missing |
| Series.WhereFirstPresent | Arzona_APP.py:45-46 | the first present selected cell is the first present cell among the selected rows |
| Frames.Lookup | Arzona_APP.py:44-45 | `df[name]` is found exactly when `name in df.columns`, and it is that column's cells |
| Frames.LookupColumn | Arzona_APP.py:45 | with distinct labels, `df[name]` is the unique column carrying that label |
| Frames.SelectRows | Arzona_APP.py:35 | row selection keeps the labels and well-formedness; the new row count is the number of selected rows |
| Scenarios.PairColumnsAndDateConversion | Arzona_APP.py:77-78 | every `Date{i}` label contains `Date`, so `convert_dates` rewrites it; no `Price{i}` label does |
| Scenarios.LaterPairsAddNothing | Arzona_APP.py:76-79 | in a sheet with only pair 1, pairs 2..10 are skipped without error |
| Scenarios.OnlyPairOne | Arzona_APP.py:76-85 | in such a sheet, the history is what pair 1 adds |
| Scenarios.TwoSalesHistory | Arzona_APP.py:34-87 | two rows of `A1` dated 2023-01-01 and 2023-02-01 at prices 100 and 150 give exactly those two lists and no descriptive field |
| Scenarios.MissingDateMisalignsHistory | Arzona_APP.py:80-85 | when one of two rows has no date, the history holds one date and two prices |
| Scenarios.FirstPhoneWins | Arzona_APP.py:44-46 | with phones 555-1111 and then 555-2222 for `A1`, the phone is 555-1111 |

## Left out

- The Google Drive download and the file-existence check (lines 8-14) are network and file I/O.
- Opening the workbook and listing its sheets (lines 17-18) are file parsing in pandas.
- `read_excel` (line 22) is file parsing in pandas. This includes its "sheet not found" error and its renaming of repeated headers. A sheet is given as a `Table`, and distinct labels are part of `WellFormed`.
- What `pd.to_datetime` accepts and which timestamp it returns (line 30) is a foreign library's calendar logic. The model takes it as the parameter `parse`, with `None` for a coerced failure.
- Dates.NormalizeColumn: does not model the column-wide format inference of `pd.to_datetime`. Recent pandas infers one format from the first non-missing value and coerces cells that do not match it, so one cell's result can depend on the other cells. The model parses each cell on its own.
- Column labels that are not strings are left out. For such a label, `'Date' in col` would raise in Python; labels are `string` here.
- The Streamlit widgets, the sidebar text and their truthiness tests (lines 90-100, 138-158) are UI.
- The Plotly chart and the `strftime` formatting (lines 105-136) are presentation.
- Float and NaN arithmetic are left out. Cell values are an opaque type `V`. Values are compared with `==`, as `unique()` and the address filter do, and NaN is `None`.
- The return value of `prepare_plot_data` is a 10-tuple in the source. It is the datatype `Extract.Record` here, with the fields in the same order.
