/** The sequential scans of the region locator over a read-only sheet:
    corner cells, row width, runs of cells with a value, directional search. */
module Scans {
  import opened Outcomes
  import opened Sheets
  import opened Patterns

  /** `get_topleft_nonempty_cell`: the first cell in row-major order whose value
      is not '' (a blank-only value counts as a value here), or None. */
  method TopLeftNonEmpty(sheet: Sheet) returns (found: Option<Cell>)
    requires sheet.Valid()
    ensures found.None? <==> forall c :: sheet.InSheet(c) ==> sheet.ValueAt(c) == ""
    ensures found.Some? ==>
      var at := found.value.coordinate;
      sheet.InSheet(at) && found.value == sheet.CellAt(at) && found.value.value != ""
      && forall c :: sheet.InSheet(c) && RowMajorBefore(c, at) ==> sheet.ValueAt(c) == ""
  {
    for row := 0 to sheet.nrows
      invariant forall c :: sheet.InSheet(c) && c.row < row ==> sheet.ValueAt(c) == ""
    {
      for col := 0 to sheet.ncols
        invariant forall c :: sheet.InSheet(c) && RowMajorBefore(c, Coordinate(row, col)) ==> sheet.ValueAt(c) == ""
      {
        if sheet.ValueAt(Coordinate(row, col)) != "" {
          return Some(sheet.CellAt(Coordinate(row, col)));
        }
      }
    }
    return None;
  }

  /** `get_lefttop_nonempty_cell`: the first cell in column-major order whose
      value is not '', or None. */
  method LeftTopNonEmpty(sheet: Sheet) returns (found: Option<Cell>)
    requires sheet.Valid()
    ensures found.None? <==> forall c :: sheet.InSheet(c) ==> sheet.ValueAt(c) == ""
    ensures found.Some? ==>
      var at := found.value.coordinate;
      sheet.InSheet(at) && found.value == sheet.CellAt(at) && found.value.value != ""
      && forall c :: sheet.InSheet(c) && ColumnMajorBefore(c, at) ==> sheet.ValueAt(c) == ""
  {
    for col := 0 to sheet.ncols
      invariant forall c :: sheet.InSheet(c) && c.col < col ==> sheet.ValueAt(c) == ""
    {
      for row := 0 to sheet.nrows
        invariant forall c :: sheet.InSheet(c) && ColumnMajorBefore(c, Coordinate(row, col)) ==> sheet.ValueAt(c) == ""
      {
        if sheet.ValueAt(Coordinate(row, col)) != "" {
          return Some(sheet.CellAt(Coordinate(row, col)));
        }
      }
    }
    return None;
  }

  /** The width, counted from column `from`, of a row up to and including its
      rightmost cell that is not empty in the `is_cell_empty` sense; 0 when
      every cell from `from` on is empty. */
  function SpanWidth(values: seq<string>, from: nat): nat
    decreases |values|
  {
    if |values| <= from then 0
    else if !IsCellEmpty(values[|values| - 1]) then |values| - from
    else SpanWidth(values[..|values| - 1], from)
  }

  /** The span ends exactly at the rightmost non-empty cell: the cell at its last
      offset is not empty and every cell after it is. */
  lemma {:induction false} SpanWidthIsRightmost(values: seq<string>, from: nat)
    ensures 0 < SpanWidth(values, from) ==>
      from + SpanWidth(values, from) <= |values| && !IsCellEmpty(values[from + SpanWidth(values, from) - 1])
    ensures forall j :: from + SpanWidth(values, from) <= j < |values| ==> IsCellEmpty(values[j])
  {
    if from < |values| && IsCellEmpty(values[|values| - 1]) {
      var prefix := values[..|values| - 1];
      SpanWidthIsRightmost(prefix, from);
      assert forall j :: 0 <= j < |prefix| ==> prefix[j] == values[j];
    }
  }

  /** Empty cells between non-empty ones do not end the span: with non-empty
      cells at offsets 0, 2 and 4 only, the width is 5, not 3. */
  lemma SpanWidthSkipsGaps(values: seq<string>)
    requires 5 <= |values|
    requires forall j :: 0 <= j < |values| ==> (IsCellEmpty(values[j]) <==> j !in {0, 2, 4})
    ensures SpanWidth(values, 0) == 5
  {
    SpanWidthIsRightmost(values, 0);
  }

  /** `get_row_width`: scans columns `left.col .. ncols-1` of row `left.row` and
      returns the width up to the rightmost non-empty cell. No column is read
      when `left.col >= ncols`; otherwise the first read is `left` itself. */
  method RowWidth(sheet: Sheet, left: Coordinate) returns (r: Result<nat, ReadError>)
    requires sheet.Valid()
    ensures r.Err? <==> left.col < sheet.ncols && !sheet.InSheet(left)
    ensures r.Err? ==> r.error == OutOfSheet(left)
    ensures sheet.ncols <= left.col ==> r == Ok(0)
    ensures sheet.InSheet(left) ==> r == Ok(SpanWidth(sheet.cells[left.row], left.col))
    ensures sheet.InSheet(left) ==>
      var w := r.value;
      left.col + w <= sheet.ncols
      && (0 < w ==> !IsCellEmpty(sheet.ValueAt(HMove(left, w - 1))))
      && forall col :: left.col + w <= col < sheet.ncols ==> IsCellEmpty(sheet.ValueAt(Coordinate(left.row, col)))
  {
    if sheet.ncols <= left.col {
      return Ok(0);
    }
    if !sheet.InSheet(left) {
      return Err(OutOfSheet(left));
    }
    var values := sheet.cells[left.row];
    var width: nat := 0;
    var candidate: nat := 0;
    for col := left.col to sheet.ncols
      invariant candidate == col - left.col
      invariant width == SpanWidth(values[..col], left.col)
    {
      candidate := candidate + 1;
      if !IsCellEmpty(sheet.ValueAt(Coordinate(left.row, col))) {
        width := candidate;
      }
      assert values[..col + 1][..col] == values[..col];
    }
    assert values[..sheet.ncols] == values;
    SpanWidthIsRightmost(values, left.col);
    return Ok(width);
  }

  /** The column `get_bottomright_nonempty_cell` settles on: the rightmost
      column whose cell is not empty, or 0 when every cell is. */
  function LastNonEmptyColumn(values: seq<string>): nat {
    var w := SpanWidth(values, 0);
    if w == 0 then 0 else w - 1
  }

  /** The cell `get_bottomright_nonempty_cell` returns: in the last row, since
      its loop returns on its first pass. */
  function BottomRightCorner(sheet: Sheet): Coordinate
    requires sheet.Valid() && 2 <= sheet.nrows
  {
    Coordinate(sheet.nrows - 1, LastNonEmptyColumn(sheet.cells[sheet.nrows - 1]))
  }

  /** `get_bottomright_nonempty_cell`. Its loop runs over rows `nrows-1` down to
      1 and returns on its first pass, so it always answers with the last row
      when there are two rows or more and with None otherwise; the model
      writes that single pass as an `if`. */
  method BottomRightNonEmpty(sheet: Sheet) returns (found: Option<Cell>)
    requires sheet.Valid()
    ensures found.None? <==> sheet.nrows < 2
    ensures found.Some? ==> sheet.InSheet(BottomRightCorner(sheet)) && found.value == sheet.CellAt(BottomRightCorner(sheet))
    ensures found.Some? ==>
      var at := found.value.coordinate;
      at.row == sheet.nrows - 1 && sheet.InSheet(at)
      && (at.col == 0 || !IsCellEmpty(found.value.value))
      && forall col :: at.col < col < sheet.ncols ==> IsCellEmpty(sheet.ValueAt(Coordinate(at.row, col)))
  {
    var row := sheet.nrows - 1;
    if 0 < row {
      var values := sheet.cells[row];
      var lastCol: nat := 0;
      for col := 0 to sheet.ncols
        invariant lastCol == LastNonEmptyColumn(values[..col])
      {
        if !IsCellEmpty(sheet.ValueAt(Coordinate(row, col))) {
          lastCol := col;
        }
        assert values[..col + 1][..col] == values[..col];
      }
      assert values[..sheet.ncols] == values;
      SpanWidthIsRightmost(values, 0);
      return Some(sheet.CellAt(Coordinate(row, lastCol)));
    }
    return None;
  }

  /** Every cell of the first `k` steps of a walk lies in the sheet and is empty. */
  predicate EmptyStretch(sheet: Sheet, start: Coordinate, dir: Direction, k: nat)
    requires sheet.Valid()
  {
    forall i :: 0 <= i < k ==>
      sheet.InSheet(Walk(start, dir, i)) && IsCellEmpty(sheet.ValueAt(Walk(start, dir, i)))
  }

  /** Specification of `find_first_nonempty_cell_from`: walk from `at` towards
      `dir` over empty cells to the first cell that is not empty; reading
      outside the sheet ends the walk with an error. */
  function FirstNonEmptyFrom(sheet: Sheet, at: Coordinate, dir: Direction): Result<Cell, ReadError>
    requires sheet.Valid()
    decreases Remaining(sheet, at, dir)
  {
    if !sheet.InSheet(at) then Err(OutOfSheet(at))
    else if !IsCellEmpty(sheet.ValueAt(at)) then Ok(sheet.CellAt(at))
    else FirstNonEmptyFrom(sheet, Walk(at, dir, 1), dir)
  }

  /** The walk took `k` steps over empty cells and then either found a
      non-empty cell or stepped off the sheet. */
  predicate FoundAfter(sheet: Sheet, start: Coordinate, dir: Direction, k: nat, r: Result<Cell, ReadError>)
    requires sheet.Valid()
  {
    EmptyStretch(sheet, start, dir, k)
    && var at := Walk(start, dir, k);
    match r
    case Ok(cell) => sheet.InSheet(at) && cell == sheet.CellAt(at) && !IsCellEmpty(cell.value)
    case Err(e) => !sheet.InSheet(at) && e == OutOfSheet(at)
  }

  /** The search returns the first non-empty cell along its direction, with every
      cell before it in the sheet and empty, or fails where it leaves the sheet. */
  lemma {:induction false} FirstNonEmptyFromMeaning(sheet: Sheet, start: Coordinate, dir: Direction)
    requires sheet.Valid()
    ensures exists k: nat :: FoundAfter(sheet, start, dir, k, FirstNonEmptyFrom(sheet, start, dir))
    decreases Remaining(sheet, start, dir)
  {
    if !sheet.InSheet(start) || !IsCellEmpty(sheet.ValueAt(start)) {
      assert FoundAfter(sheet, start, dir, 0, FirstNonEmptyFrom(sheet, start, dir));
    } else {
      var next := Walk(start, dir, 1);
      FirstNonEmptyFromMeaning(sheet, next, dir);
      var k: nat :| FoundAfter(sheet, next, dir, k, FirstNonEmptyFrom(sheet, next, dir));
      forall j | 1 <= j <= k + 1
        ensures Walk(start, dir, j) == Walk(next, dir, j - 1)
      {
        WalkStep(start, dir, j - 1);
      }
      assert Walk(start, dir, 0) == start;
      assert FoundAfter(sheet, start, dir, k + 1, FirstNonEmptyFrom(sheet, start, dir));
    }
  }

  /** `find_first_nonempty_cell_from`. The source reads a cell before checking
      that it lies in the sheet, so leaving the sheet is a failed read here; its
      `return None` branch is reachable only through that read. */
  method FindFirstNonEmptyFrom(sheet: Sheet, start: Coordinate, dir: Direction) returns (r: Result<Cell, ReadError>)
    requires sheet.Valid()
    ensures r == FirstNonEmptyFrom(sheet, start, dir)
    ensures exists k: nat :: FoundAfter(sheet, start, dir, k, r)
    ensures sheet.InSheet(start) && !IsCellEmpty(sheet.ValueAt(start)) ==> r == Ok(sheet.CellAt(start))
  {
    var at := start;
    while sheet.InSheet(at) && IsCellEmpty(sheet.ValueAt(at))
      invariant FirstNonEmptyFrom(sheet, at, dir) == FirstNonEmptyFrom(sheet, start, dir)
      decreases Remaining(sheet, at, dir)
    {
      at := Walk(at, dir, 1);
    }
    if !sheet.InSheet(at) {
      r := Err(OutOfSheet(at));
    } else {
      r := Ok(sheet.CellAt(at));
    }
    FirstNonEmptyFromMeaning(sheet, start, dir);
  }

  /** Walks north and west list what they find in front of what they found before. */
  predicate Backwards(dir: Direction) {
    dir == North || dir == West
  }

  /** Specification of the run walks: the cells whose value is not '' from `at`
      onwards towards `dir`, listed top to bottom (left to right); the walk
      stops at the first cell whose value is '' and fails when it reads outside
      the sheet. */
  function RunFrom(sheet: Sheet, at: Coordinate, dir: Direction): Result<seq<Cell>, ReadError>
    requires sheet.Valid()
    decreases Remaining(sheet, at, dir)
  {
    if !sheet.InSheet(at) then Err(OutOfSheet(at))
    else if sheet.ValueAt(at) == "" then Ok([])
    else match RunFrom(sheet, Walk(at, dir, 1), dir)
      case Err(e) => Err(e)
      case Ok(rest) => Ok(Combine([sheet.CellAt(at)], rest, dir))
  }

  /** Where the `i`-th of `n` cells found from `start` towards `dir` lies, counting
      top to bottom (left to right). */
  function RunPosition(start: Coordinate, dir: Direction, n: nat, i: nat): Coordinate
    requires i < n
  {
    if Backwards(dir) then Walk(start, dir, n - 1 - i) else Walk(start, dir, i)
  }

  /** The walk passed `k` cells that all have a value and then stopped: at a cell
      whose value is '' with those `k` cells as its result, or off the sheet. */
  predicate RunEndsAfter(sheet: Sheet, start: Coordinate, dir: Direction, k: nat, r: Result<seq<Cell>, ReadError>)
    requires sheet.Valid()
  {
    (forall i :: 0 <= i < k ==>
      sheet.InSheet(Walk(start, dir, i)) && sheet.ValueAt(Walk(start, dir, i)) != "")
    && var stop := Walk(start, dir, k);
    match r
    case Ok(cells) =>
      |cells| == k && sheet.InSheet(stop) && sheet.ValueAt(stop) == ""
      && forall i :: 0 <= i < k ==>
        sheet.InSheet(RunPosition(start, dir, k, i)) && cells[i] == sheet.CellAt(RunPosition(start, dir, k, i))
    case Err(e) => !sheet.InSheet(stop) && e == OutOfSheet(stop)
  }

  /** A run is the maximal stretch of cells with a value starting at `start`, in
      sheet order, or a failure exactly where the stretch reaches the edge. */
  lemma {:induction false} RunFromMeaning(sheet: Sheet, start: Coordinate, dir: Direction)
    requires sheet.Valid()
    ensures exists k: nat :: RunEndsAfter(sheet, start, dir, k, RunFrom(sheet, start, dir))
    decreases Remaining(sheet, start, dir)
  {
    if !sheet.InSheet(start) || sheet.ValueAt(start) == "" {
      assert Walk(start, dir, 0) == start;
      assert RunEndsAfter(sheet, start, dir, 0, RunFrom(sheet, start, dir));
    } else {
      var next := Walk(start, dir, 1);
      RunFromMeaning(sheet, next, dir);
      var k: nat :| RunEndsAfter(sheet, next, dir, k, RunFrom(sheet, next, dir));
      RunStep(sheet, start, dir, k, RunFrom(sheet, next, dir));
      assert RunFrom(sheet, start, dir) == Joined([sheet.CellAt(start)], RunFrom(sheet, next, dir), dir);
      assert RunEndsAfter(sheet, start, dir, k + 1, RunFrom(sheet, start, dir));
    }
  }

  /** One more cell with a value in front of a run extends the run by one. */
  lemma RunStep(sheet: Sheet, start: Coordinate, dir: Direction, k: nat, r: Result<seq<Cell>, ReadError>)
    requires sheet.Valid() && sheet.InSheet(start) && sheet.ValueAt(start) != ""
    requires RunEndsAfter(sheet, Walk(start, dir, 1), dir, k, r)
    ensures RunEndsAfter(sheet, start, dir, k + 1, Joined([sheet.CellAt(start)], r, dir))
  {
    var next := Walk(start, dir, 1);
    RunStepStretch(sheet, start, dir, k);
    WalkStep(start, dir, k);
    var stop := Walk(start, dir, k + 1);
    assert stop == Walk(next, dir, k);
    match r
    case Err(e) =>
      assert !sheet.InSheet(stop) && e == OutOfSheet(stop);
    case Ok(rest) =>
      assert |rest| == k && sheet.InSheet(stop) && sheet.ValueAt(stop) == "";
      RunStepCells(sheet, start, dir, k, k + 1, rest);
  }

  lemma RunStepStretch(sheet: Sheet, start: Coordinate, dir: Direction, k: nat)
    requires sheet.Valid() && sheet.InSheet(start) && sheet.ValueAt(start) != ""
    requires forall i :: 0 <= i < k ==>
      sheet.InSheet(Walk(Walk(start, dir, 1), dir, i)) && sheet.ValueAt(Walk(Walk(start, dir, 1), dir, i)) != ""
    ensures forall i :: 0 <= i < k + 1 ==>
      sheet.InSheet(Walk(start, dir, i)) && sheet.ValueAt(Walk(start, dir, i)) != ""
  {
    forall i | 0 <= i < k + 1
      ensures sheet.InSheet(Walk(start, dir, i)) && sheet.ValueAt(Walk(start, dir, i)) != ""
    {
      if 0 < i {
        WalkStep(start, dir, i - 1);
      } else {
        assert Walk(start, dir, 0) == start;
      }
    }
  }

  lemma RunStepCells(sheet: Sheet, start: Coordinate, dir: Direction, k: nat, n: nat, rest: seq<Cell>)
    requires sheet.Valid() && sheet.InSheet(start)
    requires |rest| == k && n == k + 1
    requires forall i :: 0 <= i < k ==>
      sheet.InSheet(RunPosition(Walk(start, dir, 1), dir, k, i))
      && rest[i] == sheet.CellAt(RunPosition(Walk(start, dir, 1), dir, k, i))
    ensures forall i :: 0 <= i < n ==>
      sheet.InSheet(RunPosition(start, dir, n, i))
      && Combine([sheet.CellAt(start)], rest, dir)[i] == sheet.CellAt(RunPosition(start, dir, n, i))
  {
    var next := Walk(start, dir, 1);
    var cells := Combine([sheet.CellAt(start)], rest, dir);
    forall i | 0 <= i < n
      ensures sheet.InSheet(RunPosition(start, dir, n, i))
      ensures cells[i] == sheet.CellAt(RunPosition(start, dir, n, i))
    {
      if Backwards(dir) {
        if i < k {
          WalkStep(start, dir, k - 1 - i);
          assert RunPosition(start, dir, n, i) == RunPosition(next, dir, k, i);
        } else {
          assert RunPosition(start, dir, n, i) == Walk(start, dir, 0) == start;
        }
      } else {
        if 0 < i {
          WalkStep(start, dir, i - 1);
          assert RunPosition(start, dir, n, i) == RunPosition(next, dir, k, i - 1);
        } else {
          assert RunPosition(start, dir, n, i) == Walk(start, dir, 0) == start;
        }
      }
    }
  }

  /** The cells collected so far, put in front of or behind what the rest of
      the walk collects. */
  function Joined(done: seq<Cell>, rest: Result<seq<Cell>, ReadError>, dir: Direction): Result<seq<Cell>, ReadError> {
    match rest
    case Err(e) => Err(e)
    case Ok(more) => Ok(Combine(done, more, dir))
  }

  /** Cells already collected, put behind (north, west) or in front of (south,
      east) the cells collected after them, so that the result is in sheet order. */
  function Combine(done: seq<Cell>, more: seq<Cell>, dir: Direction): seq<Cell> {
    if Backwards(dir) then more + done else done + more
  }

  /** Taking one more cell of a run into the collected part does not change the result. */
  lemma JoinedStep(sheet: Sheet, at: Coordinate, dir: Direction, cells: seq<Cell>)
    requires sheet.Valid() && sheet.InSheet(at) && sheet.ValueAt(at) != ""
    ensures Joined(cells, RunFrom(sheet, at, dir), dir)
         == Joined(if Backwards(dir) then [sheet.CellAt(at)] + cells else cells + [sheet.CellAt(at)],
                   RunFrom(sheet, Walk(at, dir, 1), dir), dir)
  {
    var cell := sheet.CellAt(at);
    match RunFrom(sheet, Walk(at, dir, 1), dir)
    case Err(e) =>
    case Ok(rest) =>
      assert (rest + [cell]) + cells == rest + ([cell] + cells);
      assert cells + ([cell] + rest) == (cells + [cell]) + rest;
  }

  /** Walks from `start` towards `dir`, collecting the cells whose value is not ''. */
  method CollectRun(sheet: Sheet, start: Coordinate, dir: Direction) returns (r: Result<seq<Cell>, ReadError>)
    requires sheet.Valid()
    ensures r == RunFrom(sheet, start, dir)
  {
    var at := start;
    var cells: seq<Cell> := [];
    match RunFrom(sheet, start, dir) {
      case Err(e) =>
      case Ok(found) => assert [] + found == found + [] == found;
    }
    while sheet.InSheet(at) && sheet.ValueAt(at) != ""
      invariant RunFrom(sheet, start, dir) == Joined(cells, RunFrom(sheet, at, dir), dir)
      decreases Remaining(sheet, at, dir)
    {
      JoinedStep(sheet, at, dir, cells);
      if Backwards(dir) {
        cells := [sheet.CellAt(at)] + cells;
      } else {
        cells := cells + [sheet.CellAt(at)];
      }
      at := Walk(at, dir, 1);
    }
    if !sheet.InSheet(at) {
      r := Err(OutOfSheet(at));
    } else {
      assert cells + [] == [] + cells == cells;
      r := Ok(cells);
    }
  }

  /** The direction `get_vconsecutive_nonempty_cells` walks: south when asked
      for south, north for anything else. */
  function Vertical(dir: Direction): Direction {
    if dir == South then South else North
  }

  /** `get_vconsecutive_nonempty_cells`: the run of cells with a value in the
      column of `start`, listed top to bottom whichever way it walks (the north
      walk inserts at the front). The source's `cur_row_idx <= nrows` test comes
      after the read and never stops the walk; a read below the last row or above
      row 0 is a failure. */
  method VConsecutiveNonEmpty(sheet: Sheet, start: Coordinate, dir: Direction) returns (r: Result<seq<Cell>, ReadError>)
    requires sheet.Valid()
    ensures r == RunFrom(sheet, start, Vertical(dir))
    ensures exists k: nat :: RunEndsAfter(sheet, start, Vertical(dir), k, r)
    ensures r.Ok? ==> forall i :: 0 <= i < |r.value| ==> r.value[i].coordinate.col == start.col && r.value[i].value != ""
    ensures r.Ok? ==> forall i :: 0 < i < |r.value| ==> r.value[i].coordinate.row == r.value[i - 1].coordinate.row + 1
    ensures sheet.InSheet(start) && sheet.ValueAt(start) == "" ==> r == Ok([])
  {
    r := CollectRun(sheet, start, Vertical(dir));
    RunFromMeaning(sheet, start, Vertical(dir));
  }

  /** `get_hconsecutive_nonempty_cells`: the run of cells with a value in the
      row of `start`, left to right. The `cur_col_idx <= ncols` test comes after
      the read; a read past the last column is a failure. */
  method HConsecutiveNonEmpty(sheet: Sheet, start: Coordinate) returns (r: Result<seq<Cell>, ReadError>)
    requires sheet.Valid()
    ensures r == RunFrom(sheet, start, East)
    ensures exists k: nat :: RunEndsAfter(sheet, start, East, k, r)
    ensures r.Ok? ==> forall i :: 0 <= i < |r.value| ==> r.value[i] == sheet.CellAt(HMove(start, i)) && r.value[i].value != ""
    ensures sheet.InSheet(start) && sheet.ValueAt(start) == "" ==> r == Ok([])
  {
    r := CollectRun(sheet, start, East);
    RunFromMeaning(sheet, start, East);
  }
}
