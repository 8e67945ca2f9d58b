# Worksheet region locator of the election-results converter

This project models the worksheet region locator in
`user_defined/pemilu_xlsx_to_csv.py` in Dafny and proves what it computes.
The converter reads one worksheet of an election-results workbook. On that
worksheet the same block of four tables is repeated once per subdivision
(kecamatan): table I, table II, table III and the party table. The locator
does the following:

- It finds the leftmost column that holds a value.
- In that column it collects the anchor cells of the four table kinds: "I.",
  "II.", "III." and a "No … Urut" header.
- It turns the anchors into one rectangle per table, using the row width of
  each anchor and fixed gaps of one or two rows.
- It lists the subdivision names in the column above the first table.
- It reads each rectangle into a matrix of raw values.

The worksheet is an immutable value. It is a grid of `nrows` rows of `ncols`
cell values, each in its string form. Reading outside the grid is an explicit
error, `OutOfSheet(at)`. The source raises an exception there.

Modules, one per file:

- `Outcomes` (`outcomes.dfy`): `Option` and `Result`.
- `Sheets` (`sheets.dfy`): `Coordinate`, `Range`, `Cell`, the sheet, `hmove`,
  `vmove`, `is_in_sheet_range` and walks in the four directions.
- `Patterns` (`patterns.dfy`): the regular expressions the locator passes to
  `re.match`, written as recognisers, and `is_cell_empty`. For each anchor
  pattern there is a proof that its recogniser accepts exactly the pattern's
  language.
- `Scans` (`scans.dfy`): the corner scans, `get_row_width`,
  `find_first_nonempty_cell_from` and the two run walks. Each is a method
  with loops, proved against a specification function.
- `Extract` (`extract.dfy`): `get_match_cells`, `get_range_cells` and
  `build_matrix`. Each is a loop over the range, row by row, proved against
  a specification.
- `Locate` (`locate.dfy`): the anchor search, the corner loop, the range
  loop and the subdivision-name list of `process_file`.
- `Process` (`process.dfy`): the rest of `process_file` that the model keeps:
  - the choice of sheet;
  - the per-subdivision loop that builds the matrices;
  - the counts in the data-quality summary row;
  - the name of the table-I CSV file.

Two notions of "empty" are kept apart:

- `is_cell_empty` holds for a value made only of spaces and tabs
  (`Patterns.IsCellEmpty`).
- The scans at lines 34, 43, 63 and 76 compare the value with `''`. For
  those scans a blank-only cell has a value.

## Model

| member | source | states |
|---|---|---|
| `Sheets.MovesCommute` | user_defined/pemilu_xlsx_to_csv.py:101-105 | `hmove` and `vmove` commute and add up, and each move is undone by its opposite; the corner arithmetic and the name-search start use it to read their moves as one shift |
| `Sheets.WalkStep` | user_defined/pemilu_xlsx_to_csv.py:109-116 | one step of a directional walk followed by `k` more steps is `k + 1` steps; a north/south walk keeps its column and an east/west walk keeps its row |
| `Patterns.EmptinessNotions` | user_defined/pemilu_xlsx_to_csv.py:17-22 | `is_cell_empty` holds for `''`, for blanks only, and for a lone newline (because `$` matches before a final newline); it fails for " x" |
| `Patterns.MatchesChomped` | user_defined/pemilu_xlsx_to_csv.py:85 | for every pattern except `""`, `re.match` succeeds exactly when the pattern's body matches the whole value with one final newline removed |
| `Patterns.RomanCoreIsLanguage` | user_defined/pemilu_xlsx_to_csv.py:160-164 | the recogniser for `^[ \t]*N[ \t]*\.[ \t]*$` accepts a string exactly when the string splits into blanks, the numeral, blanks, a period and blanks |
| `Patterns.PartyCoreIsLanguage` | user_defined/pemilu_xlsx_to_csv.py:166 | the recogniser for the party anchor accepts a string exactly when the string splits into blanks, `No` in any case, a line without a newline, `Urut` in any case and blanks |
| `Patterns.AnchorPatternsDisjoint` | user_defined/pemilu_xlsx_to_csv.py:160-166 | no value matches two of the four anchor patterns; a value that matches an anchor pattern is neither `''` nor an `is_cell_empty` value |
| `Patterns.TableIAnchorAccepts` | user_defined/pemilu_xlsx_to_csv.py:160 | the table-I pattern accepts "I." and "I. " |
| `Patterns.TableIAnchorAcceptsSpaced` | user_defined/pemilu_xlsx_to_csv.py:160 | the table-I pattern accepts " I . " |
| `Patterns.TableIIAnchorAccepts` | user_defined/pemilu_xlsx_to_csv.py:162 | the table-II pattern accepts "II." |
| `Patterns.TableIIIAnchorAccepts` | user_defined/pemilu_xlsx_to_csv.py:164 | the table-III pattern accepts "III." and "\tIII." |
| `Patterns.RomanAnchorsSeparate` | user_defined/pemilu_xlsx_to_csv.py:160-164 | the table-I pattern rejects "II." and "III."; the table-II pattern rejects "I." and "III." |
| `Patterns.PartyAnchorAccepts` | user_defined/pemilu_xlsx_to_csv.py:166 | the party pattern accepts "No. Urut" |
| `Scans.TopLeftNonEmpty` | user_defined/pemilu_xlsx_to_csv.py:30-37 | returns the sheet's cell that comes first in row-major order with a value other than `''`, and no cell before it has one; returns None exactly when no cell has one |
| `Scans.LeftTopNonEmpty` | user_defined/pemilu_xlsx_to_csv.py:39-46 | the same in column-major order: no earlier column, and no earlier row of its own column, holds a value; None exactly when the sheet has no value |
| `Scans.SpanWidthIsRightmost` | user_defined/pemilu_xlsx_to_csv.py:92-99 | the width ends at the rightmost cell that is not `is_cell_empty`: that cell is non-empty and every cell after it is empty |
| `Scans.SpanWidthSkipsGaps` | user_defined/pemilu_xlsx_to_csv.py:92-99 | non-empty cells at offsets 0, 2 and 4 only give width 5, not 3 |
| `Scans.RowWidth` | user_defined/pemilu_xlsx_to_csv.py:92-99 | `get_row_width` gives 0 when `left.col >= ncols`; it fails exactly when `left.col < ncols` and `left` lies outside the sheet, that is in a row outside the sheet or at a negative column; otherwise it gives the width up to the rightmost non-empty cell of the row, with only empty cells after it |
| `Scans.BottomRightNonEmpty` | user_defined/pemilu_xlsx_to_csv.py:48-57 | None exactly when `nrows < 2`; otherwise a cell of the last row whose column is the rightmost non-empty column of that row, or 0, with only empty cells to its right |
| `Scans.FirstNonEmptyFromMeaning` | user_defined/pemilu_xlsx_to_csv.py:24-28 | the directional search of lines 107-120 passes `k` cells, each in the sheet in the sense of `is_in_sheet_range` (`Sheet.InSheet`: row in `0..nrows-1` and column in `0..ncols-1`) and empty, then returns the next cell, which is non-empty, or fails exactly where the walk leaves the sheet |
| `Scans.FindFirstNonEmptyFrom` | user_defined/pemilu_xlsx_to_csv.py:107-120 | the loop computes the search's specification; a non-empty start is returned at once |
| `Scans.RunFromMeaning` | user_defined/pemilu_xlsx_to_csv.py:59-79 | a run passes `k` cells with a value and stops at a cell whose value is `''`, giving those `k` cells in sheet order; or it fails where the walk leaves the sheet |
| `Scans.CollectRun` | user_defined/pemilu_xlsx_to_csv.py:59-79 | the run loop, which appends on south and east walks and inserts at the front on north walks, computes the run's specification |
| `Scans.VConsecutiveNonEmpty` | user_defined/pemilu_xlsx_to_csv.py:59-70 | the cells lie in the start column in consecutive rows, top to bottom in both directions, and each has a value; the result is empty when the start's value is `''` |
| `Scans.HConsecutiveNonEmpty` | user_defined/pemilu_xlsx_to_csv.py:72-79 | cell `i` of the result is the sheet's cell `i` columns right of the start, and each has a value; the result is empty when the start's value is `''` |
| `Extract.FilterMembers` | user_defined/pemilu_xlsx_to_csv.py:85-86 | a cell is kept exactly when it was visited and its value is accepted |
| `Extract.FilterKeepsOrder` | user_defined/pemilu_xlsx_to_csv.py:83-86 | keeping some cells of a row-major list leaves them in row-major order |
| `Extract.RangeCellsContents` | user_defined/pemilu_xlsx_to_csv.py:83-84 | the two loops of a readable range visit `Height * Width` cells: each cell of the range once, nothing else, in row-major order |
| `Extract.RangeCellAt` | user_defined/pemilu_xlsx_to_csv.py:83-84 | the visit of row `i` and column `j` of the range comes at position `i * Width + j` |
| `Extract.FirstOutside` | user_defined/pemilu_xlsx_to_csv.py:83-85 | for a range that reaches outside the sheet, the first visited cell outside the sheet; every cell visited before it is in the sheet |
| `Extract.FirstFailedRead` | user_defined/pemilu_xlsx_to_csv.py:83-85 | a visit outside the sheet after only visits inside it is the visit at `FirstOutside` |
| `Extract.MatchSpecMeaning` | user_defined/pemilu_xlsx_to_csv.py:81-87 | `get_match_cells` fails exactly when the range reaches outside the sheet, at a cell of the range; otherwise it returns, in row-major order and each once, exactly the sheet's cells of the range whose value the pattern matches |
| `Extract.MatchCells` | user_defined/pemilu_xlsx_to_csv.py:81-87 | `get_match_cells` computes its specification |
| `Extract.KeepCells` | user_defined/pemilu_xlsx_to_csv.py:83-86 | the outer loop over the rows keeps, row after row, the accepted cells of the range; it stops at the first visit outside the sheet |
| `Extract.MatchRow` | user_defined/pemilu_xlsx_to_csv.py:84-86 | the inner loop over one row keeps the accepted cells of that row; it fails at the first cell outside the sheet, and every cell before it is inside |
| `Extract.GetRangeCells` | user_defined/pemilu_xlsx_to_csv.py:89-90 | `get_range_cells` returns all `Height * Width` cells of a readable range in visiting order, and fails at `FirstOutside` otherwise |
| `Extract.FilterAnything` | user_defined/pemilu_xlsx_to_csv.py:90 | the empty pattern keeps every cell |
| `Extract.BuildMatrix` | user_defined/pemilu_xlsx_to_csv.py:122-129 | `build_matrix` succeeds exactly on a readable range and returns `Height` rows of `Width` values, entry `[i][j]` being the value at `(tl.row + i, tl.col + j)`; the result depends only on the sheet and the range, so building it twice gives equal matrices; it fails at `FirstOutside` otherwise |
| `Extract.MatrixAgreesWithRangeCells` | user_defined/pemilu_xlsx_to_csv.py:122-129 | entry `[i][j]` of the matrix is the value of the cell at position `i * Width + j` of the range's cell list |
| `Locate.LeftmostColumnFrom` | user_defined/pemilu_xlsx_to_csv.py:154-155 | the leftmost column that holds a value; no column to its left holds one |
| `Locate.FindAnchors` | user_defined/pemilu_xlsx_to_csv.py:154-166 | the anchor search fails with `EmptySheet` exactly when no cell has a value; otherwise it finds the anchors of the leftmost column that holds a value |
| `Locate.ColumnAnchors` | user_defined/pemilu_xlsx_to_csv.py:156-166 | the four `get_match_cells` calls over the whole column give the four anchor lists |
| `Locate.AnchorsMeaning` | user_defined/pemilu_xlsx_to_csv.py:156-166 | each anchor list holds exactly the cells of the anchor column that its pattern matches, top to bottom |
| `Locate.AnchorGroupsDisjoint` | user_defined/pemilu_xlsx_to_csv.py:159-166 | no cell is an anchor of two kinds, and no anchor is empty in either sense |
| `Locate.TwoAnchorRows` | user_defined/pemilu_xlsx_to_csv.py:159-166 | a sheet with a table-I anchor and a party anchor has at least two rows |
| `Locate.MissingAnchorOf` | user_defined/pemilu_xlsx_to_csv.py:180-191 | the corner loop fails exactly when table II, table III or the party group has fewer anchors than table I; the error names the first list that pass `k` reads past its end |
| `Locate.BlockCorners` | user_defined/pemilu_xlsx_to_csv.py:181-195 | pass `k` of the corner loop gives the four corners of block `k`, or that IndexError |
| `Locate.DeriveCorners` | user_defined/pemilu_xlsx_to_csv.py:180-195 | the corner loop gives one set of corners per table-I anchor, or the first missing-anchor error |
| `Locate.CornerAboveMeaning` | user_defined/pemilu_xlsx_to_csv.py:183 | the corner `gap` rows above the next anchor in the same column, shifted right by `width - 1`, gives a range in the sheet that spans the anchor row up to its rightmost non-empty cell |
| `Locate.CornersMeaning` | user_defined/pemilu_xlsx_to_csv.py:180-195 | table I of block `k` ends 2 rows above anchor II of block `k`, table II 1 row above anchor III, table III 1 row above the party anchor, and the party table 2 rows above anchor I of block `k + 1`; the last party table ends at `get_bottomright_nonempty_cell`; each table is as wide as its anchor row and lies in the sheet |
| `Locate.BottomRightInSheet` | user_defined/pemilu_xlsx_to_csv.py:195 | the corner of the last party table lies in the sheet |
| `Locate.RangesAt` | user_defined/pemilu_xlsx_to_csv.py:205-213 | the range of each table of block `k` runs from its anchor to its corner |
| `Locate.BuildRanges` | user_defined/pemilu_xlsx_to_csv.py:200-213 | the range loop gives one set of ranges per block, entry `k` being that of block `k` |
| `Locate.SubdivisionsMeaning` | user_defined/pemilu_xlsx_to_csv.py:223-227 | the name list is non-empty and runs, top to bottom, over consecutive cells with a value in the column right of the first table-I anchor; its last cell is the first non-empty cell at or above two rows over that anchor; the list is maximal, since the cell right above its first name is in the sheet and holds `''` |
| `Locate.ListSubdivisions` | user_defined/pemilu_xlsx_to_csv.py:223-227 | the name block gives no names without a table-I anchor; otherwise it gives the north search followed by the north run, or the failed read of either |
| `Process.IndexOf` | user_defined/pemilu_xlsx_to_csv.py:144 | the position of the first sheet with the given name, or None exactly when no sheet has that name |
| `Process.SelectSheet` | user_defined/pemilu_xlsx_to_csv.py:143-149 | the sheet called "Model DA"; failing that, index 1 with two or more sheets, else index 0; none without sheets |
| `Process.ExtractTables` | user_defined/pemilu_xlsx_to_csv.py:237-268 | the subdivision loop builds `min(names, blocks)` entries; entry `k` holds name `k` and the four matrices of block `k` |
| `Process.RangesReadable` | user_defined/pemilu_xlsx_to_csv.py:244-268 | every range the corner and range loops produce lies in the sheet, so no `build_matrix` call in the loop fails |
| `Process.LocateBlocks` | user_defined/pemilu_xlsx_to_csv.py:171-291 | from the anchors to the tables and the summary counts; the number of blocks of tables is the smaller of the name count and the table-I count |
| `Process.LocateTables` | user_defined/pemilu_xlsx_to_csv.py:142-291 | `process_file` up to the tables computes its specification; the summary row counts all sheets of the workbook, and the table count is the smaller of the subdivision and table-I counts |
| `Process.LastIndexOf` | user_defined/pemilu_xlsx_to_csv.py:273 | `rfind`: the last position of the character, with no later occurrence; -1 exactly when the character does not occur |
| `Process.TableICsvNameOfPath` | user_defined/pemilu_xlsx_to_csv.py:273 | for a path with a '/', the CSV name is '/', the base name and ".table_i.csv" |
| `Process.TableICsvNameOfBareName` | user_defined/pemilu_xlsx_to_csv.py:273 | for a path without '/', `rfind` gives -1, so the CSV name keeps only the last character of the path (nothing for an empty path), followed by ".table_i.csv" |

## Left out

- The pandas clean-up of each matrix at lines 244-268 is left out. The loop
  keeps the raw matrices. The left-out steps are blank replacement, `dropna`,
  `fillna`, header promotion by `pd_convert_first_row_as_header` (lines
  131-135), row and column selection, transpose and `append`. They are
  library behaviour that the file does not define.
- Opening the workbook with xlrd, `os.makedirs`, `to_csv`, writing the
  summary file (modes `'wb'`/`'ab'`) and the `print` lines are left out.
  They are I/O. A workbook is a value: its sheet names and its sheets.
  `Process.Summary` holds the counts of the summary row after the file name.
- The pandas clean-up can raise, and then the summary row at line 291 is
  never written. `df['Data Pemilih dan Pengguna Hak Pilih']` (line 250)
  raises KeyError when the header lacks that column. The column assignment
  at line 256 raises ValueError unless exactly two columns remain. So an
  `Ok` from `Process.LocateTables` and its `Summary` mean that the source
  reaches the pandas steps with those tables. They do not mean that it
  reaches the summary row.
- `sheet_by_name` is modelled as the first sheet with that name, which is
  what xlrd does. xlrd itself is not part of this model.
- Cell values are strings, as in `str(cell.value)`. xlrd cell types
  (numbers, dates, booleans) and Python 2 unicode conversion are not
  modelled.
- Python reads a negative index from the end of a list. Every read of the
  source at a negative row or column therefore reads another cell of the
  sheet. Here every such read is a failed read, `OutOfSheet`. This covers
  the walks of `get_vconsecutive_nonempty_cells` and
  `find_first_nonempty_cell_from` above row 0. It also covers
  `get_row_width`, `get_match_cells` and `build_matrix` from a negative
  column or row: the source returns a width or cells there, the model an
  error (`Extract.FirstOutside` can be a negative corner). So
  `find_first_nonempty_cell_from`'s `return None` branch, which only such a
  read reaches, has no counterpart. The AttributeError that follows that
  `None` is not modelled either.
- `find_first_nonempty_cell_from` loops forever on an empty cell when it is
  given an unknown direction string. Directions are an enum with the four
  known values, and the locator only walks north.
  `get_vconsecutive_nonempty_cells` walks north for any direction other
  than "south"; `Scans.Vertical` models that.
- `re.match` is modelled only for the six patterns the file uses. It is not
  a general regular-expression engine.
- The source fills lists of `None` allocated up front, index by index, each
  sized by its own anchor group (lines 171-178, 200-203, 232-235). The model
  appends, so its lists are the source's first `|tableI|` entries (the first
  min(names, tableI) entries for the matrices). When a group is longer than
  table I, or there are fewer names than table-I anchors, the source's lists
  keep `None` in their remaining entries. The source never reads those.
- `Extract.MatchRow` is the inner loop of `get_match_cells`, not a function
  of the source. The loops are verified for any acceptance test `keep`.
  `get_match_cells` is that loop with the pattern's recogniser.
- `Process.ExtractTables` requires every range to lie in the sheet, so that
  `build_matrix` never fails inside it. `Process.RangesReadable` proves
  that the ranges the locator derives always do.
- `user_defined/copy.py` and `gcs_selective_upload.py` are not part of this
  model. They are file copying, directory walking and cloud upload.
- A sheet is assumed to have rows exactly when it has columns
  (`Sheet.Valid`). xlrd gives such sheets. A sheet with two or more rows and
  no column would make `get_bottomright_nonempty_cell` raise IndexError
  reading column 0 (lines 55-56). The model does not cover that case.

## Source behaviour the model keeps

- The corner loop reads `tableII[k]`, `tableIII[k]` and `party[k]` (lines
  183, 186, 189). A group shorter than table I raises IndexError there, and
  the subdivision is not skipped. Anchors of a longer group beyond the
  table-I count are never used.
- The run walks and the directional search read a cell before any bounds
  test (lines 63, 76, 108). A walk that reaches the sheet's edge fails
  there, and it does not stop there.
- The last party table ends in the last row, at that row's rightmost
  non-empty column or at column 0, because the loop at lines 49-56 returns
  on its first pass.
- The CSV name (line 273) keeps the leading '/'. Without a '/', `rfind`
  gives -1 and only the last character of the path is kept.
- `$` also matches before a final newline, so an anchor pattern (lines
  160-166) also matches a value that ends with a newline.
- Derived coordinates (lines 183-193, 224) may be negative.
