# Test plan copy, modelled in Dafny

This project models the core of a small spreadsheet utility. The utility copies
test plan attributes from a source "TestPlan" worksheet into a destination
one. It matches rows by their test case ID (column 1) and ignores row
positions. Data rows start at row 17. For every destination data row whose ID
is present, is not the header label `Test Case ID` and does not contain the
test-suite marker `.TS.`, it scans the source data rows from row 17 down. At
the first source row carrying the same ID, it overwrites destination columns
11..17 with that row's values. The source sheet is only read.

The program has two implementations of this copy. `_solution1` addresses cells by
(row, column) and scans with a `while` loop that a `not_found` flag ends.
`_solution2` walks `iter_rows` tuples and ends the scan with `break`. Both are
modelled as methods that update the destination worksheet in place:

- `strings.dfy`, module `Strings`: Python's `str.find`, fully characterised.
- `sheets.dfy`, module `Sheets`: a cell (`Option<string>`, `None` for an
  empty cell) and a `Worksheet` class. Its `grid` field holds the rows, and its
  cells are read with `Value` / `IterRow` and overwritten one at a time with
  `SetValue`.
- `test_plan.dfy`, module `TestPlan`: the layout constants (row 17, key column
  1, payload columns 11..17, the header label, the suite marker). It also
  holds the specification of the copy as functions on grids: `Eligible`,
  `FirstMatch`, `CopyPayload`, `RowResult` and `CopyResult`. The lemmas state
  the properties of that result.
- `excel.dfy`, module `Excel`: `Solution1` and `Solution2`. Each is proved to
  leave exactly `CopyResult(old grid, source grid)` behind. Ghost counters in
  their inner scans show that at most one 7-cell copy happens per row.

## Model

| member | source | states |
|---|---|---|
| `Strings.Find` | excel.py:73 | `s.find(sub)` is -1 exactly when `sub` does not occur in `s`; otherwise it is the lowest index where it occurs |
| `Sheets.Worksheet.IterRow` | excel.py:113-114 | the tuple `iter_rows(min_col=1, max_col=17)` yields holds 17 values, and index `i` is the value of column `i + 1` |
| `Sheets.Worksheet.SetValue` | excel.py:79-80 | assigning `cell(row, column).value` changes that one cell and nothing else |
| `TestPlan.Eligible` | excel.py:73 | a row takes part exactly when its key is present, differs from `Test Case ID` and does not contain `.TS.` |
| `TestPlan.ScanFrom` | excel.py:74-82 | scanning source rows from `pos` yields a row with the key and no earlier row from `pos` on having it, or `None` when no row from `pos` to `max_row` has it |
| `TestPlan.FirstMatch` | excel.py:76-82 | the source row chosen is the lowest data row (17..`max_row`) whose key equals the destination key, or there is none |
| `TestPlan.CopyPayload` | excel.py:78-80 | after the copy, columns 11..17 hold the source row's values and every other column keeps the destination's |
| `TestPlan.RowResult` | excel.py:73-82 | processing a data row keeps its length and its key cell |
| `TestPlan.CopyResult` | excel.py:69-82 | the copy keeps the number of rows and every row's length |
| `TestPlan.FirstMatchExactly` | excel.py:76-82 | `FirstMatch` gives `p` if and only if `p` is the lowest matching data row, and gives nothing if and only if no data row matches |
| `TestPlan.SkippedRowUnchanged` | excel.py:73 | a row whose key is absent, the header label or a suite marker keeps every cell |
| `TestPlan.MatchedRowCopiesFirstMatch` | excel.py:76-82 | an eligible row takes columns 11..17 from the lowest-indexed matching source row (first match wins over duplicates); its other cells are kept |
| `TestPlan.UnmatchedRowUnchanged` | excel.py:76-82 | an eligible row whose key matches no source data row keeps every cell |
| `TestPlan.OnlyPayloadChanges` | excel.py:69-80 | cells in header rows 1..16 and cells outside columns 11..17 (the key column among them) keep their values |
| `TestPlan.RowResultIdempotent` | excel.py:73-82 | processing an already processed row again changes nothing |
| `TestPlan.CopyIdempotent` | excel.py:73-82 | copying into the result of a copy gives that result again |
| `Excel.Solution1` | excel.py:69-82 | the destination ends up as `CopyResult` of its old contents and the source; the source is untouched; the `not_found` scan copies at most once per row |
| `Excel.Solution2` | excel.py:108-117 | the destination ends up as `CopyResult` of its old contents and the source; the source is untouched; the `break` scan copies at most once per row |
| `Excel.CopiedSpan` | excel.py:115-116 | the seven single-cell assignments of the `delta` loop together produce `CopyPayload` of the row |
| `Excel.SolutionsAgree` | excel.py:24-27 | whichever solution is selected, identical inputs give identical destination sheets |
| `Excel.SecondRunChangesNothing` | excel.py:108-117 | running the copy on its own output leaves the sheet as the first run left it |

## Left out

- Opening the workbooks and selecting the `TestPlan` sheet (`_open_test_plan`, `openpyxl.load_workbook`) and saving the destination: file I/O in a foreign library. Sheets are in-memory grids here.
- `copy_test_plan` only opens the two files and dispatches on `solution2`. The dispatch is not modelled; `Excel.SolutionsAgree` shows that the choice does not change the result.
- Timing with `time.time()` and the returned elapsed seconds: wall-clock floats.
- The `print` calls: console output only.
- The command line: argparse, the fallback to the script's directory and the `FileNotFoundError` report.
- Cell values other than text: every cell is a text or `None`. A non-text key in the destination makes `find` raise in Python; the model does not represent that crash. Payload values of other types (numbers, dates) are copied unchanged in the program. Here they are texts.
- Column extent: openpyxl reads a cell that was never written as `None` and creates it on access. The model materialises columns 1..17 of every row (`Worksheet.Valid`), with `None` in empty cells. openpyxl's creation of empty cells on access is not modelled, since it changes no value.
- `max_row` of an empty sheet is 1 in openpyxl and 0 here. Both lie below row 17, so no row is processed either way.
- The two sheets are separate objects (`dst != src`), as two separate `load_workbook` calls make them. Aliasing between them is not modelled.
- A hashed key-to-row index and a per-row outcome report: neither exists in the program.
