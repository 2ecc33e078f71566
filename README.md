# df_excel_compare in Dafny

A model of the reconciliation engine of `df_excel_compare`, the `compare`
class: two named pandas data frames are normalized (per-column transforms,
`astype(str)`, sort by the join keys), aligned by an outer merge (on the join
keys, or on the row index when there are none), and every shared non-key
column is collapsed from its two temporaries `c_df1` / `c_df2` into one column
`c`, holding the value where both sides agree and the conflict marker
`x <-left | right-> y` where they do not. The engine counts conflicts per
column, derives an `OK` / `NOT OK` status from the three row counts, and
`save_as_excel` picks the tab colour and the highlighted range.

Modules:

- `Tables` (`tables.dfy`): cells (`None` is NaN), rows, tables, the errors,
  Python's ordering of key tuples, and the ascending sort by join keys.
- `Normalize` (`normalize.dfy`): `_process_dfs` as functions on one table and on
  the dict of tables, with reference definitions of the normalized rows.
- `Alignment` (`alignment.dfy`): the renamed labels, the outer merge on keys and
  on the index, the `_merge` indicator, row multiplicities per key tuple.
- `CellCompare` (`cell_compare.dfy`): `_fill_func`'s value, the collapsing loop
  of `_comp`, conflict counting, and the status rule.
- `ExcelRange` (`excel_range.dfy`): `_get_excel_range`, with a parser for A1
  ranges that the range it builds is read back with.
- `ExcelCompare` (`excel_compare.dfy`): the `compare` class (`Compare`), whose
  methods update `df_dict`, `config`, `errors`, `_comp_results` and `status` in
  place, proved against the functions above.

Three behaviours of the code are easy to misread, and the model follows the
code in each:

- The status follows line 94-95: `OK` exactly when the set of the three row
  counts is `{1}`. Two 2-row tables matched 1:1 therefore give `NOT OK`, not
  `OK` (`CellCompare.StatusIgnoresAgreement`). A table compared with an
  exact copy of itself, on the row index or on join keys no two of its rows
  share, has no conflicts, but is `OK` only when it has one row
  (`ExcelCompare.IdenticalCopy`). On join keys that repeat, the copies' rows
  pair up across the repeats and can conflict.
- The tab is red when the counter dict is non-empty (line 115), and it has an
  entry for every shared non-key column even when that entry is 0. So any two
  tables that share a non-key column get a red tab (`ExcelCompare.TabAfterRun`).
- The highlighted range is the one `_get_excel_range` builds at line 117,
  which reaches one column past the data and raises IndexError at 702 or more
  result columns (`ExcelCompare.Compare.SaveAsExcel`; see "## Findings").

The rows below name the lemmas and methods whose contracts state each
property. The defining functions they speak about model the cited lines too,
and the lemma rows stand for them: `Tables.SortRows`,
`Normalize.ApplyConfig`, `Normalize.Stringify`, `Normalize.ProcessTable`,
`Normalize.ProcessAll`, `Alignment.KeyJoin`, `Alignment.IndexJoin`,
`Alignment.Merge`, `CellCompare.SplitString` (line 21),
`CellCompare.FillValue`, `CellCompare.CollapseColumn`,
`CellCompare.CollapsePrefix`, `ExcelCompare.CompResult`,
`ExcelCompare.AddCounts`, `ExcelCompare.SheetNameFor` (line 18),
`ExcelCompare.TabColourFor` (line 115), and the other functions these rows
name.

## Model

| member | source | states |
|---|---|---|
| `Tables.SortRowsPermutation` | df_excel_compare.py:38 | `sort_values` returns the same rows, as a multiset |
| `Tables.SortRowsSorted` | df_excel_compare.py:38 | the sorted rows are in ascending join-key order (Python string order, NaN last) |
| `Tables.SortRowsNoKeys` | df_excel_compare.py:38 | with no join keys the row order is unchanged |
| `Tables.KeyLeTotal` | df_excel_compare.py:38 | any two key tuples of equal length are comparable |
| `Tables.KeyLeTransitive` | df_excel_compare.py:38 | the key order is transitive |
| `Normalize.FirstMissing` | df_excel_compare.py:38 | reports a join key that is not a column exactly when one exists, and that key |
| `Normalize.ApplyConfigShape` | df_excel_compare.py:34-36 | transforms keep the labels and the row count; a rectangular table stays rectangular |
| `Normalize.ApplyConfigFails` | df_excel_compare.py:34-36 | the transforms raise KeyError iff some configured column is absent, and name such a column |
| `Normalize.ApplyConfigRows` | df_excel_compare.py:34-36 | after the transforms every cell is the original cell passed through that column's transforms in order |
| `Normalize.ProcessTableSpec` | df_excel_compare.py:34-38 | one table fails (KeyError) iff a configured column or join key is absent, and then keeps the transforms applied before the error; on success its rows are the normalized input rows (same multiset), sorted by the keys, all text, and in input order with no keys |
| `Normalize.ProcessAllShape` | df_excel_compare.py:32-38 | processing keeps the table names, each table's labels, and rectangularity |
| `Normalize.ProcessAllOutcome` | df_excel_compare.py:32-38 | all tables succeed iff each one's own normalization does; a failure is a KeyError; tables outside the processed names are untouched; on success each table is its own normalized table |
| `Normalize.ProcessAllFailure` | df_excel_compare.py:32-38 | when the j-th table is the first to fail, that KeyError is the outcome, that table keeps what was applied before the error, the tables before it are normalized and the tables after it are as they were |
| `Alignment.KeysOfRows` | df_excel_compare.py:68 | each merged row carries the key tuple of the input row(s) it came from |
| `Alignment.InnerCellsOfBothRow` | df_excel_compare.py:64-68 | a matched row holds the left value in `c_df1` and the right value in `c_df2` |
| `Alignment.InnerCellsOfLeftOnlyRow` | df_excel_compare.py:64-68 | a left-only row holds the left value and NaN |
| `Alignment.InnerCellsOfRightOnlyRow` | df_excel_compare.py:64-68 | a right-only row holds NaN and the right value |
| `Alignment.TagsOfRows` | df_excel_compare.py:68-70 | the `_merge` indicator is `both`, `left_only` or `right_only` by the row's origin |
| `Alignment.MergeCoversBoth` | df_excel_compare.py:67-70 | the outer merge has at least as many rows as each table; on the index exactly the larger count |
| `Alignment.KeyJoinMultiplicity` | df_excel_compare.py:68 | for each key tuple: `lc * rc` matched rows, `lc` left-only rows iff `rc == 0`, `rc` right-only rows iff `lc == 0` |
| `Alignment.MergeRowsAreJoinRows` | df_excel_compare.py:67-70 | every merged row is a matched pair or a padded row of one input |
| `Alignment.KeyJoinSelf` | df_excel_compare.py:67-68 | a table merged with itself on keys no two of its rows share pairs each row with itself, and gives nothing else |
| `Alignment.MergeKeepsInputRows` | df_excel_compare.py:67-70 | conversely, every row of each table reaches the merge, padded or paired with a row of the other table |
| `CellCompare.MarkerIffConflict` | df_excel_compare.py:53-59 | a collapsed cell contains the separator iff the values differ (when neither value contains it), and a marker starts with the left and ends with the right value |
| `CellCompare.FillValueSwap` | df_excel_compare.py:53-59 | swapping the two tables (and so the two names of the separator) keeps equality, and swaps a marker's values together with their names, so each name stays next to its own table's value |
| `CellCompare.KeyJoinConflicts` | df_excel_compare.py:58-77 | on keys, a column's conflicts are the differing matched pairs plus the unmatched rows of each table |
| `CellCompare.PairSumSymmetric` | df_excel_compare.py:68 | the differing matched pairs are the same in number whichever table is on the left |
| `CellCompare.ConflictSymmetry` | df_excel_compare.py:58-77 | a column's conflict count in the merge is the same whichever table comes first, on keys and on the index |
| `CellCompare.StatusOf` | df_excel_compare.py:94-95 | `OK` iff all three row counts are 1, else `NOT OK` |
| `CellCompare.StatusIgnoresAgreement` | df_excel_compare.py:94-95 | 2,2,2 and 0,0,0 give `NOT OK`; 1,1,1 gives `OK` |
| `CellCompare.CollapsePrefixRows` | df_excel_compare.py:72-75 | collapsing keeps the number of rows |
| `CellCompare.CollapsePrefixCells` | df_excel_compare.py:72-75 | after the loop each collapsed column holds `_fill_func` of its two original temporaries, which are gone |
| `CellCompare.CollapsePrefixLabels` | df_excel_compare.py:72-75 | after the loop a temporary remains iff its column was not collapsed; each collapsed column is a label |
| `CellCompare.CollapsePrefixOthers` | df_excel_compare.py:72-77 | the loop leaves every other label of each row as it was: join keys, one-table columns, `_merge`, temporaries not yet collapsed |
| `CellCompare.CollapsePrefixCount` | df_excel_compare.py:72-75 | collapsing other columns first does not change a column's conflict count |
| `CellCompare.ConflictCountBounds` | df_excel_compare.py:58 | conflicts are at most the rows; all rows differing gives all rows, none gives 0 |
| `CellCompare.MergeConflictSplit` | df_excel_compare.py:58-77 | a column's conflicts are its one-sided rows plus its differing matched rows |
| `ExcelRange.ColumnLettersNumber` | df_excel_compare.py:43-45 | `letters[i]` is Excel's name of column i + 1 |
| `ExcelRange.ColumnLettersInjective` | df_excel_compare.py:43-45 | distinct positions of `letters` have distinct names |
| `ExcelRange.DecimalRoundTrip` | df_excel_compare.py:47 | the rendered row number reads back as the number |
| `ExcelRange.RangeRoundTrip` | df_excel_compare.py:47 | a range `c1r1:c2r2` parses back to its columns and rows |
| `ExcelRange.GetExcelRange` | df_excel_compare.py:41-47 | IndexError (ColumnOutOfRange) iff `width` is not below 702 |
| `ExcelRange.GetExcelRangeSpan` | df_excel_compare.py:47 | the range as written ends at column `width + 1`, one past the data |
| `ExcelRange.GetExcelRangeExample` | df_excel_compare.py:47 | a 2-row, 3-column table gives `A2:D3` |
| `ExcelRange.GetExcelRangeIntended` | df_excel_compare.py:41-47 | the corrected range fails iff the width is 0 or above 702 |
| `ExcelRange.GetExcelRangeIntendedSpan` | df_excel_compare.py:47 | the corrected range spans exactly the data cells |
| `ExcelCompare.SharedColumns` | df_excel_compare.py:22 | a column is shared iff both tables have it; no duplicates |
| `ExcelCompare.InnerColumns` | df_excel_compare.py:63 | the inner columns are the shared columns that are not join keys; no duplicates |
| `ExcelCompare.ZeroCounts` | df_excel_compare.py:89 | the counter starts with a 0 for each shared non-key column and nothing else |
| `ExcelCompare.AddCountsKeys` | df_excel_compare.py:72-75 | counting conflicts never adds or removes a counter entry |
| `ExcelCompare.AddCountsEntries` | df_excel_compare.py:72-75 | over distinct columns, an entry grows by its column's conflict count iff that column was counted |
| `ExcelCompare.AddCountsSnoc` | df_excel_compare.py:72-75 | counting one more column adds its conflicts to its own entry |
| `ExcelCompare.CountsFromZero` | df_excel_compare.py:89-92 | counting up from zero leaves each entry at its column's conflict count |
| `ExcelCompare.CompResultRows` | df_excel_compare.py:72-77 | `_comp`'s result has one row per merged row |
| `ExcelCompare.Compare.constructor` | df_excel_compare.py:11-22 | names in dict order, empty configs, the separator from the names, the shared columns, the default sheet name |
| `ExcelCompare.Compare.Create` | df_excel_compare.py:11-22 | fails (assertion) iff the dict does not hold exactly two tables; else a new object in the constructor's state, with nothing run yet |
| `ExcelCompare.Compare.SetConfig` | df_excel_compare.py:79-84 | fails iff a key is not a table name; else each given table's config is replaced |
| `ExcelCompare.Compare.FillFunc` | df_excel_compare.py:53-59 | returns `x` when equal, else the marker and one more conflict for `col`; nothing else changes |
| `ExcelCompare.Compare.ProcessTableAt` | df_excel_compare.py:32-38 | one table is replaced by its normalized table, and the KeyError if raised |
| `ExcelCompare.Compare.ProcessDfs` | df_excel_compare.py:30-38 | the tables and the failure are those of `ProcessAll` on the old tables |
| `ExcelCompare.Compare.FillColumn` | df_excel_compare.py:74-75 | one column collapsed row by row; the counter grows by that column's conflicts |
| `ExcelCompare.Compare.Comp` | df_excel_compare.py:61-77 | the result is every inner column collapsed in the merge; the counter is the old one with each inner column's conflicts in the merge counted |
| `ExcelCompare.Compare.FillInner` | df_excel_compare.py:72-76 | the loop collapses the given columns in order and counts each one's conflicts on top of the old counter |
| `ExcelCompare.Compare.CompareProcessed` | df_excel_compare.py:92-95 | the comparison result, the final counter, and the status of the processed tables |
| `ExcelCompare.Compare.Run` | df_excel_compare.py:87-95 | resets the counter; on a KeyError leaves result and status alone; else sets the result, counter and status of the processed tables |
| `ExcelCompare.Compare.SaveAsExcel` | df_excel_compare.py:97-127 | NotRun before a run, NotXlsx for another extension; red iff counter non-empty or `NOT OK`; the tab colour's hex code; a red tab highlights the separator over the range from column 1, row 2 to column width + 1 and the last row, and fails with IndexError iff it is red and the result has at least 702 columns |
| `ExcelCompare.CompResultKeeps` | df_excel_compare.py:61-77 | each row of `_comp`'s result keeps the merged row's key tuple, `_merge` value and one-table columns |
| `ExcelCompare.TabAfterRun` | df_excel_compare.py:115 | after a run the tab is green iff there is no shared non-key column and all row counts are 1 |
| `ExcelCompare.IdenticalCopy` | df_excel_compare.py:61-95 | a normalized table against a copy of itself, on the index or on keys no two rows share: one merged row per row, no one-sided rows, no conflicts, `OK` iff one row; red tab if any inner column (on the index, if any column) |
| `ExcelCompare.CountsSymmetric` | df_excel_compare.py:58-92 | the counter a run leaves is the same whichever table comes first in `df_dict` |
| `ExcelCompare.RunCountsSplit` | df_excel_compare.py:58-92 | after a run a column's count is its one-sided rows plus its differing matched rows |

## Left out

- Writing the workbook (lines 102-113, the `to_excel` call, and 129-136): the Excel bytes, the file write and the `out_data` attribute. The model stops at the decisions `save_as_excel` makes: the guards, sheet name, tab colour, highlighted range and highlighted text.
- `SaveAsExcel`: its failure cases are those of the decisions it keeps. Writing the sheet can also fail in ways that are not modelled; for example, the Excel writer rejects sheet names longer than 31 characters, which the default `"<left> - <right>_comparison"` exceeds once the two table names together are longer than 17 characters.
- `_excel_column_width` (lines 49-51): floating-point widths that only size columns.
- `__add__` (lines 24-28): it builds nothing.
- The `copy` argument and `deepcopy` import: the code never copies, so `_process_dfs` also changes the caller's data frames. The model holds the tables as values and does not model that aliasing.
- The `isinstance` assertions (lines 13, 16, 26, 81): Dafny's types enforce them.
- The assertion messages: errors are constructors of `Tables.Error`.
- `astype(str)`: it is a parameter `toStr` of the class, so number formatting and dtype rules are not modelled. A transform is any function from cell to cell.
- Pandas' row order of the key merge: the model lists left rows in order, each with its matches, then the unmatched right rows. The lemmas speak about counts and cells, not positions.
- Stability of `sort_values` on a single join key: pandas' default quicksort lets tied rows come out in any order, while the model keeps them in input order. With several keys pandas sorts stably (lexsort), as the model does.
- The index merge assumes the default integer index (row i pairs with row i). The index `sort_values` leaves behind is not modelled.
- Label collisions: merged labels are a datatype, so a user column literally named `c_df1` or `_merge` cannot clash with the temporaries or the indicator.
- `Run`: when the merge has no rows, the model collapses it to no rows and counts 0 conflicts per inner column. pandas' `apply(axis = 1)` on an empty frame may call the function once on an all-NaN row to infer the result; `_fill_func` would then count one conflict for every inner column, so the program's counter may read 1 where `Run`'s `errors == ConflictCounts(...)` gives 0.
- `SharedColumns`: `list(set(...) & set(...))` has no defined order. The model keeps the first table's order. That order fixes the order of the collapsing loop, and with it the order in which the collapsed columns are appended to `_comp_results`, which is the column order of the saved sheet.
- Tables with duplicate column labels: pandas accepts them, but the model's tables require distinct labels (`Tables.WellFormed`), since a row maps each label to one cell.
- `GetExcelRange`: negative arguments are not modelled, because the source only ever passes a shape.

## Findings

| source | as written | input that shows it | evidently intended | confidence | as-written member | corrected member |
|---|---|---|---|---|---|---|
| df_excel_compare.py:47 | the range ends at `letters[width]`, the column after the last data column | `_get_excel_range(2, 3)` gives `A2:D3` for data in columns A to C | end at `letters[width - 1]`, so the highlighted range is exactly the data | high (not executed) | `ExcelRange.GetExcelRangeSpan` | `ExcelRange.GetExcelRangeIntendedSpan` |

`ExcelCompare.Compare.SaveAsExcel` follows the code as written; the corrected
range is stated only by the `ExcelRange.GetExcelRangeIntended` members.
