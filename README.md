# Internet-usage map: data preparation and map callbacks

This project models the core of a small Dash application. The application
draws a world choropleth of internet usage per country, using a CSV of usage
percentages by year and a Natural Earth country-boundary table.

Two pieces are modelled.

- `load_and_prepare_data` (`app/data_loader.py`). It changes the usage frame
  in place:
  - it replaces the "missing" sentinel (a run of dots) by an absent cell;
  - it drops the `2023` column;
  - it converts every year column to numbers.

  Next it cuts the boundary table down to fifteen columns. Two fixed correction
  dictionaries are then applied to that table entry by entry, in two `for` loops.
  Finally the usage table is left-joined with the boundary table on the country
  code.
- The two callbacks in `app/callbacks.py`:
  - `toggle_year_dropdown` shows the compare-year selector only in mode
    `"compare"`;
  - `update_map` chooses the colour series and the title. In mode `"single"`
    that is the chosen year's column. In every other mode it is the difference
    year − compare year.

## Structure

- `tables.dfy`, module `Tables`: cells, tables, errors and `Result`, plus
  first-occurrence lookup and the sequence helpers the other modules share. A
  cell is absent, text, a number (a `real`) or an opaque geometry handle.
- `cleaning.dfy`, module `Cleaning`: lines 17-23 of `data_loader.py` as
  functions on tables: the sentinel test, `drop`, the year-column
  comprehension and the all-or-nothing `astype(float)`.
- `boundary.dfy`, module `Boundary`: the projection (lines 29-33), the two
  correction dictionaries and the correction loops (lines 36-46).
- `merging.dfy`, module `Merging`: the `set_index(...).join(..., how="left")`
  of line 49, defined for any input, including duplicate boundary keys and
  overlapping labels.
- `data_loader.dfy`, module `DataLoader`: the pipeline as the source runs it.
  - The class `Frame` has in-place methods, and the correction loops are
    `while` loops.
  - Each method is proved to compute a function on values. `LoadAndPrepare`
    computes `Prepare`.
  - Lemmas state what the prepared table satisfies.
- `callbacks.dfy`, module `Callbacks`: the two callbacks as functions.

Two behaviours of the code worth knowing:

- The sentinel pattern `^\.+$` is found with Python's `re.search`. There `$`
  also matches before one final line feed, so `"..\n"` is a sentinel as well.
  `IsSentinel` models this.
- The two callbacks read the mode differently. A mode that is neither
  `"single"` nor `"compare"` hides the compare-year selector, but `update_map`
  still colours the map by the difference against that hidden selector's year.
  `OtherModeHidesSelectorButCompares` states this.

## Model

| member | source | states |
|---|---|---|
| `Tables.Without` | app/data_loader.py:18 | the filtered labels are exactly the labels of the input that are not dropped |
| `Tables.WithoutAppend` | app/data_loader.py:18 | filtering distributes over concatenation, so the kept labels keep their relative order |
| `Tables.KeptIndicesIncrease` | app/data_loader.py:18 | the positions that survive a drop are strictly increasing: no column moves past another |
| `Tables.PickKeptIsWithout` | app/data_loader.py:18 | taking the surviving positions gives exactly the filtered label list |
| `Cleaning.CleanCell` | app/data_loader.py:17 | a cell becomes absent exactly when it is absent or a sentinel text; every other cell is unchanged |
| `Cleaning.Clean` | app/data_loader.py:17 | same labels and shape; every cell of every column, the name columns included, is `CleanCell` of the old cell |
| `Cleaning.SentinelIsRunOfDots` | app/data_loader.py:17 | a text is a sentinel iff it is one or more dots, optionally followed by one final line feed |
| `Cleaning.SentinelExamples` | app/data_loader.py:17 | `"."`, `".."` and `"..."` are sentinels; `""`, `"5.0"`, `".5"`, `"5."`, `". ."` and `"..x"` are not |
| `Cleaning.CleanRemovesSentinels` | app/data_loader.py:17 | after the replacement no text cell is a sentinel, and a cell became absent iff it was a sentinel text |
| `Cleaning.CleanIdempotent` | app/data_loader.py:17 | replacing the sentinels twice is the same as once |
| `Cleaning.DropColumn` | app/data_loader.py:18 | fails with KeyError("2023") iff the label is missing; otherwise the labels are the old ones without it, in order, and each row keeps the cells of the kept positions |
| `Cleaning.DropKeepsCell` | app/data_loader.py:18 | every cell outside the dropped column survives under its own label |
| `Cleaning.DropKeepsFirstPosition` | app/data_loader.py:18 | the first occurrence of another label after the drop is the kept copy of its first occurrence before |
| `Cleaning.DropKeepsColumn` | app/data_loader.py:18 | any other column comes through the drop row by row unchanged |
| `Cleaning.YearColumns` | app/data_loader.py:21-22 | a label is a year column iff it is a column other than "Country Name" and "Country Code" |
| `Cleaning.YearColumnsKeepOrder` | app/data_loader.py:22 | the comprehension keeps table order: the year columns of a split label list are those of each part in turn |
| `Cleaning.ToFloat` | app/data_loader.py:23 | a converted cell is absent iff it was absent or is a text that reads as NaN, and is otherwise a number; numbers are kept and a text reading as x becomes x |
| `Cleaning.FirstBad` | app/data_loader.py:23 | finds a non-convertible cell of the named columns iff there is one |
| `Cleaning.Coerce` | app/data_loader.py:23 | succeeds iff every cell of the year columns converts; then year cells are numbers or absent, absent stays absent and other columns are untouched; otherwise NotNumeric names an offending cell |
| `Cleaning.CoerceKeepsColumn` | app/data_loader.py:23 | a column outside the year list is unchanged row by row |
| `Cleaning.CoercedYearsAreNumeric` | app/data_loader.py:21-23 | after coercing the year columns every cell under a year label is a number or absent |
| `Cleaning.CoerceRejects` | app/data_loader.py:23 | one non-convertible cell in a year column makes the conversion fail with NotNumeric |
| `Cleaning.DropThenCoerceRejects` | app/data_loader.py:18-23 | a non-convertible cell under a year label other than the dropped one makes drop-then-convert fail |
| `Cleaning.DropThenCoerceIsNumeric` | app/data_loader.py:18-23 | after drop and conversion the labels are the old ones without the dropped label, and year cells are numeric or absent |
| `Cleaning.DropThenCoerceKeepsColumn` | app/data_loader.py:18-23 | the name columns pass through drop and conversion unchanged row by row |
| `Boundary.CodeColumnPosition` | app/data_loader.py:29-33 | the code column ADM0_A3 is the seventh projected label and appears once |
| `Boundary.LabelsBesideCode` | app/data_loader.py:29-33 | the fourteen projected labels other than the code, in order; none of them is "2023" |
| `Boundary.Positions` | app/data_loader.py:29-33 | succeeds iff every requested label is a column, giving each label's first position; otherwise KeyError on a missing label |
| `Boundary.Select` | app/data_loader.py:29-33 | fails with KeyError iff a listed label is missing; otherwise the labels are exactly the list, the row count is kept, and each cell is the source row's cell under that label |
| `Boundary.SetWhere` | app/data_loader.py:41 | rows whose key cell is the given text get the new text in the target column; every other row is unchanged |
| `Boundary.ApplyCorrections` | app/data_loader.py:40-41 | the loop keeps the labels, the row count and the rectangular shape |
| `Boundary.Lookup` | app/data_loader.py:36-39 | finds a value iff some dictionary entry has the cell's text as its key |
| `Boundary.LookupEntry` | app/data_loader.py:36-39 | with distinct keys, looking up an entry's key gives that entry's value |
| `Boundary.ApplyCorrectionsIsLookup` | app/data_loader.py:40-41 | applying the entries in turn leaves each row as its dictionary lookup says; a key found nowhere changes nothing |
| `Boundary.ReconcileWith` | app/data_loader.py:36-46 | the two loops keep the labels, the row count and the rectangular shape |
| `Boundary.Reconcile` | app/data_loader.py:36-46 | the same, with the source's two fixed dictionaries |
| `Boundary.ReconcileRow` | app/data_loader.py:40-46 | each row's code becomes the correction for its name, and its continent becomes the correction for that corrected code; every other cell is kept |
| `Boundary.FixedTablesHaveDistinctEntries` | app/data_loader.py:36-44 | both fixed dictionaries have distinct keys |
| `Boundary.ReconcileFixesCodes` | app/data_loader.py:36-41 | France, Norway, Kosovo, Palestine, South Sudan and Jersey rows end with FRA, NOR, XKX, PSE, SSD and CHI |
| `Boundary.ReconcileFixesContinents` | app/data_loader.py:44-46 | rows whose corrected code is MDV, MUS or SYC end in Asia, Africa or Africa; continent fixes see the corrected code |
| `Boundary.ReconcileLeavesOthers` | app/data_loader.py:36-46 | a row whose name and code are in neither dictionary is unchanged |
| `Merging.MatchIndices` | app/data_loader.py:49 | lists only positions, from the start position on, of rows carrying the key |
| `Merging.MatchIndicesComplete` | app/data_loader.py:49 | every position of a row carrying the key is listed |
| `Merging.MatchIndicesIncrease` | app/data_loader.py:49 | the positions are listed once each, in increasing order |
| `Merging.MatchIndicesEmpty` | app/data_loader.py:49 | no position is listed iff no row from the start position on carries the key |
| `Merging.MatchIndicesSingle` | app/data_loader.py:49 | when one row alone carries the key, its position is the only one listed |
| `Merging.Matching` | app/data_loader.py:49 | only boundary rows carrying the key; empty iff no row carries it |
| `Merging.MatchingInTableOrder` | app/data_loader.py:49 | the matched rows are exactly the rows at the listed positions: every row carrying the key, once each, in table order |
| `Merging.JoinOne` | app/data_loader.py:49 | a usage row yields at least one output row, each indexed by its code and starting with its other usage fields |
| `Merging.JoinRows` | app/data_loader.py:49 | at least as many output rows as usage rows, each with the usage and boundary widths minus the two keys |
| `Merging.JoinRowsPosition` | app/data_loader.py:49 | the first output row of each usage row has a place in the joined rows |
| `Merging.JoinRowsKeepEveryUsageRow` | app/data_loader.py:49 | whatever the boundary keys, every usage row is the index and the leading fields of some output row |
| `Merging.LeftJoinKeepsEveryUsageRow` | app/data_loader.py:49 | the same for the merged table: the left join loses no usage row |
| `Merging.Shared` | app/data_loader.py:49 | finds a label common to both column sets iff there is one |
| `Merging.LeftJoin` | app/data_loader.py:49 | KeyError when either key column is missing, usage key first; an overlap error iff the remaining labels overlap; otherwise indexed by the usage key, with usage labels then boundary labels, each without its key |
| `Merging.MatchingUnique` | app/data_loader.py:49 | with unique boundary keys a code matches exactly the one row with that code, or none |
| `Merging.JoinOneUnique` | app/data_loader.py:49 | with unique boundary keys one usage row yields exactly one row: its fields, then its partner's or all absent |
| `Merging.JoinRowsOneToOne` | app/data_loader.py:49 | with unique boundary keys there is one output row per usage row, in usage order |
| `Merging.LeftJoinOneToOne` | app/data_loader.py:49 | with unique boundary keys the merge has exactly one row per usage row, in order, indexed by its code; a row without a partner has every boundary field, geometry included, absent |
| `Merging.JoinOneProvenance` | app/data_loader.py:49 | an output row's boundary fields are absent and no boundary row has its code, or they are those of a boundary row with that code |
| `Merging.JoinRowsOrigin` | app/data_loader.py:49 | each output row is an output row of one particular usage row |
| `Merging.JoinRowsProvenance` | app/data_loader.py:49 | every output row comes from a usage row, and its boundary part is absent or from a boundary row with the same code |
| `Merging.LeftJoinProvenance` | app/data_loader.py:49 | the same for the merged table, so a boundary row whose code no usage row has contributes nothing |
| `DataLoader.Frame.ReplaceSentinels` | app/data_loader.py:17 | the frame becomes the cleaned table |
| `DataLoader.Frame.DropColumnInPlace` | app/data_loader.py:18 | the frame loses the column, or is unchanged and KeyError is returned |
| `DataLoader.Frame.CoerceInPlace` | app/data_loader.py:23 | the frame is converted, or is unchanged and the error is returned |
| `DataLoader.Frame.AssignWhere` | app/data_loader.py:41 | one `loc` assignment: the frame becomes `SetWhere` of its old contents |
| `DataLoader.Frame.ApplyCorrectionsInPlace` | app/data_loader.py:40-41 | the loop leaves the frame equal to `ApplyCorrections` of its old contents |
| `DataLoader.Frame.ReconcileInPlace` | app/data_loader.py:40-46 | the two loops in order leave the frame equal to `ReconcileWith` of its old contents |
| `DataLoader.CleanedUsage` | app/data_loader.py:17-23 | a cleaned usage table is rectangular and has as many rows as the raw one |
| `DataLoader.ReconciledBoundary` | app/data_loader.py:29-46 | the reconciled boundary table has exactly the fifteen listed labels and one row per raw boundary row |
| `DataLoader.Prepare` | app/data_loader.py:17-49 | the prepared table is well formed and has at least as many rows as the usage table |
| `DataLoader.LoadUsage` | app/data_loader.py:17-23 | the in-place steps compute `CleanedUsage` |
| `DataLoader.LoadBoundary` | app/data_loader.py:29-46 | projection and the two loops compute `ReconciledBoundary` |
| `DataLoader.LoadAndPrepare` | app/data_loader.py:17-49 | the whole in-place pipeline computes `Prepare`, errors included |
| `DataLoader.PrepareNeeds2023Column` | app/data_loader.py:18 | without a "2023" column the pipeline fails with KeyError("2023") |
| `DataLoader.CleanedUsageRejectsNonNumericToken` | app/data_loader.py:17-23 | a year cell that is neither a sentinel nor a number makes cleaning fail with NotNumeric |
| `DataLoader.PrepareRejectsNonNumericToken` | app/data_loader.py:17-49 | such a cell makes the whole preparation fail with NotNumeric |
| `DataLoader.CleanedUsageIsNumeric` | app/data_loader.py:17-23 | the cleaned table has lost exactly "2023", and every year cell is a number or absent |
| `DataLoader.CleanedUsageKeepsCodes` | app/data_loader.py:17-23 | each cleaned row's country code is the code of the raw row after sentinel replacement |
| `DataLoader.JoinedTable` | app/data_loader.py:49 | joining gives the prepared layout, with usage labels first in their own order |
| `DataLoader.JoinedYearCell` | app/data_loader.py:49 | a year cell of a joined row is a number or absent |
| `DataLoader.JoinedRowSource` | app/data_loader.py:49 | every joined row starts with the fields of some usage row |
| `DataLoader.PreparedTable` | app/data_loader.py:17-49 | the prepared table is indexed by "Country Code", has no "2023", ends with the fourteen boundary labels, and holds only numbers or absent cells in its year columns |
| `DataLoader.JoinFollowsKeys` | app/data_loader.py:49 | with unique boundary keys, row i is indexed by row i's code, starts with row i's other fields and ends with its boundary partner's fields |
| `DataLoader.JoinedRowsFollowUsage` | app/data_loader.py:17-49 | joining the cleaned usage table follows the raw usage table row by row |
| `DataLoader.CleanedJoinFollowsUsage` | app/data_loader.py:17-49 | the same for any table carrying the cleaned usage codes |
| `DataLoader.PreparedOneRowPerUsageRow` | app/data_loader.py:17-49 | with unique reconciled codes the prepared table has one row per usage row, in order, indexed by its cleaned code, starting with its cleaned usage fields and ending with its boundary partner's fields or all absent |
| `Callbacks.ToggleYearDropdown` | app/callbacks.py:11-12 | "block" iff the mode is exactly "compare"; "none" for every other mode |
| `Callbacks.Column` | app/callbacks.py:23 | `merged[name]` succeeds iff the label is a column, giving that column's cell in each row; otherwise KeyError |
| `Callbacks.Minus` | app/callbacks.py:26 | absent whenever either cell is absent, whatever the other holds; the difference of two numbers; a type error naming both cells for any other pair |
| `Callbacks.Difference` | app/callbacks.py:26 | defined iff every aligned pair is subtractable (a missing side, or two numbers); then it is `Minus` of the aligned cells |
| `Callbacks.UpdateMap` | app/callbacks.py:21-27 | the colour series has one entry per row of the merged table |
| `Callbacks.SingleModeView` | app/callbacks.py:22-24 | in "single" mode the colour is the year column unchanged and the title is "Internet Usage in " + year; a missing year raises KeyError |
| `Callbacks.CompareModeView` | app/callbacks.py:25-27 | in any other mode, when every pair of year cells is subtractable, each colour is value[year] − value[compare_year], absent if either is absent, and the title names both years in that order |
| `Callbacks.CompareModeAntisymmetric` | app/callbacks.py:26 | swapping the two years negates every colour and keeps absent cells absent |
| `Callbacks.OtherModeHidesSelectorButCompares` | app/callbacks.py:11-27 | a mode other than "single" and "compare" hides the compare selector yet colours by the difference |

## Left out

- Reading the CSV and the shapefile (`app/data_loader.py:14`, `:26`) is not modelled, because it is I/O. Both raw tables are inputs.
- The geometry steps are not modelled, because they are calls into a geometry library over floating-point coordinates. This covers dict-to-shape conversion (`:52`), GeoDataFrame wrapping (`:55-56`), `simplify(0.05)` (`:59`) and GeoJSON serialisation (`:62`). Geometry is an opaque `Shape` cell carried through the join.
- Building the plotly figure and its styling (`app/callbacks.py:29-40`) is not modelled. It is a thin wrapper over a charting library.
- Dash app construction, the callback decorators and `app/app.py` are wiring and are not modelled.
- The module-level `merged` and the import of it in `app/callbacks.py:3` are not modelled. `app/data_loader.py` defines no such name, so the callbacks take the merged table as a parameter.
- `app/layout.py` is declarative UI constants and is not part of this model.
- Top-5, bottom-5 and median statistics are not part of this model. Nothing in app/ computes them.
- Text-to-float parsing is an abstract parameter `parse` standing for Python's `float()`: it fails, reads NaN (spellings such as "nan", "NAN" or " nan", which pandas then treats as missing, so they become absent cells) or reads a number. Infinities ("inf") are not represented, because the numbers are reals.
- Numbers are mathematical reals, not IEEE doubles. Nothing modelled does arithmetic except the subtraction in compare mode.
- Duplicate column labels: `merged[name]`, the projection and the label lookups use the first column with the label, where pandas would return every such column.
- `Merging.LeftJoin`: when a boundary code repeats, the model emits one row per matching boundary row, in boundary order, after the usage row that matched. Pandas' exact row order for duplicate keys is not modelled. The one-row-per-usage-row results assume unique boundary codes. That every usage row is kept holds for any codes (`LeftJoinKeepsEveryUsageRow`).
- `Callbacks.Minus`: a geometry minus a geometry is a type error in the model, whereas shapely defines it as their set difference. Only year columns are offered as operands.
- `Callbacks.UpdateMap`: its own contract states only the series length. The per-mode contents are stated by `SingleModeView`, `CompareModeView` and `OtherModeHidesSelectorButCompares`.
- `DataLoader.CleanedUsage`: its own contract states only the shape. The content is stated by `CleanedUsageIsNumeric`, `CleanedUsageKeepsCodes` and `CleanedUsageRejectsNonNumericToken`.
- `DataLoader.Prepare`: its own contract states only well-formedness. The layout and the row correspondence are stated by `PreparedTable` and `PreparedOneRowPerUsageRow`.
