/** Reading a rectangular range of the sheet: the cells that match a pattern
    (`get_match_cells`, `get_range_cells`) and the grid of values
    (`build_matrix`). Both visit the range row by row, left to right, and a
    visit to a cell outside the sheet is a failed read. */
module Extract {
  import opened Outcomes
  import opened Sheets
  import opened Patterns

  /** Every cell comes strictly before each later one in row-major order. */
  predicate RowMajorSorted(cells: seq<Cell>) {
    forall i, j :: 0 <= i < j < |cells| ==> RowMajorBefore(cells[i].coordinate, cells[j].coordinate)
  }

  /** Every cell of row `row` in columns `from .. from+count-1` lies in the sheet. */
  predicate RowCellsDefined(sheet: Sheet, row: int, from: int, count: nat) {
    forall col :: from <= col < from + count ==> sheet.InSheet(Coordinate(row, col))
  }

  /** Every cell of the first `count` rows of `rng` lies in the sheet. */
  predicate RowsCellsDefined(sheet: Sheet, rng: Range, count: nat) {
    forall row, col :: rng.topleft.row <= row < rng.topleft.row + count && rng.topleft.col <= col <= rng.bottomright.col ==>
      sheet.InSheet(Coordinate(row, col))
  }

  /** The `count` cells of row `row` from column `from` on, left to right. */
  function RowCells(sheet: Sheet, row: int, from: int, count: nat): seq<Cell>
    requires sheet.Valid() && RowCellsDefined(sheet, row, from, count)
  {
    if count == 0 then []
    else RowCells(sheet, row, from, count - 1) + [sheet.CellAt(Coordinate(row, from + count - 1))]
  }

  /** The cells of the first `count` rows of `rng`, row by row. */
  function RowsCells(sheet: Sheet, rng: Range, count: nat): seq<Cell>
    requires sheet.Valid() && RowsCellsDefined(sheet, rng, count)
  {
    if count == 0 then []
    else RowsCells(sheet, rng, count - 1) + RowCells(sheet, rng.topleft.row + count - 1, rng.topleft.col, rng.Width())
  }

  /** Every cell of a readable range, in the order the source visits them. */
  function RangeCells(sheet: Sheet, rng: Range): seq<Cell>
    requires sheet.Valid() && sheet.Readable(rng)
  {
    RowsCells(sheet, rng, rng.Height())
  }

  /** Whether `keep` accepts the value of cell `c`. */
  predicate Keeps(keep: string -> bool, c: Cell) {
    keep(c.value)
  }

  /** The cells whose value `keep` accepts, in their original order. */
  function Filter(keep: string -> bool, cells: seq<Cell>): seq<Cell>
  {
    if cells == [] then []
    else
      var last := cells[|cells| - 1];
      Filter(keep, cells[..|cells| - 1]) + (if Keeps(keep, last) then [last] else [])
  }

  /** Filtering keeps exactly the cells whose value `keep` accepts. */
  lemma {:induction false} FilterMembers(keep: string -> bool, cells: seq<Cell>)
    ensures forall c :: c in Filter(keep, cells) <==> c in cells && keep(c.value)
  {
    if cells != [] {
      var prefix := cells[..|cells| - 1];
      FilterMembers(keep, prefix);
      assert cells == prefix + [cells[|cells| - 1]];
    }
  }

  lemma {:induction false} FilterAppend(keep: string -> bool, a: seq<Cell>, b: seq<Cell>)
    ensures Filter(keep, a + b) == Filter(keep, a) + Filter(keep, b)
    decreases |b|
  {
    if b == [] {
      assert a + b == a;
    } else {
      var last := b[|b| - 1];
      assert (a + b)[..|a + b| - 1] == a + b[..|b| - 1];
      FilterAppend(keep, a, b[..|b| - 1]);
    }
  }

  /** Filtering a list with one more cell at its end. */
  lemma FilterSnoc(keep: string -> bool, cells: seq<Cell>, c: Cell)
    ensures Filter(keep, cells + [c]) == Filter(keep, cells) + (if Keeps(keep, c) then [c] else [])
  {
    assert (cells + [c])[..|cells|] == cells;
  }

  /** The empty pattern keeps every cell: `get_range_cells` lists the whole range. */
  lemma {:induction false} FilterAnything(cells: seq<Cell>)
    ensures Filter(Matcher(Anything), cells) == cells
  {
    if cells != [] {
      var last := cells[|cells| - 1];
      FilterAnything(cells[..|cells| - 1]);
      assert Keeps(Matcher(Anything), last);
      assert cells == cells[..|cells| - 1] + [last];
    }
  }

  /** Filtering keeps cells in the order it found them. */
  lemma {:induction false} FilterKeepsOrder(keep: string -> bool, cells: seq<Cell>)
    requires RowMajorSorted(cells)
    ensures RowMajorSorted(Filter(keep, cells))
  {
    if cells != [] {
      var prefix := cells[..|cells| - 1];
      var last := cells[|cells| - 1];
      assert RowMajorSorted(prefix);
      FilterKeepsOrder(keep, prefix);
      FilterMembers(keep, prefix);
      var kept := Filter(keep, prefix);
      forall c | c in kept
        ensures RowMajorBefore(c.coordinate, last.coordinate)
      {
        var i :| 0 <= i < |prefix| && prefix[i] == c;
      }
    }
  }

  /** A row's cells are the `count` cells of that row from `from` on, left to right. */
  lemma {:induction false} RowCellsContents(sheet: Sheet, row: int, from: int, count: nat)
    requires sheet.Valid() && RowCellsDefined(sheet, row, from, count)
    ensures |RowCells(sheet, row, from, count)| == count
    ensures forall k :: 0 <= k < count ==>
              (sheet.InSheet(Coordinate(row, from + k))
               && RowCells(sheet, row, from, count)[k] == sheet.CellAt(Coordinate(row, from + k)))
  {
    if 0 < count {
      RowCellsContents(sheet, row, from, count - 1);
    }
  }

  /** One more row of `w` cells. */
  lemma MultiplyStep(n: nat, w: nat)
    requires 0 < n
    ensures n * w == (n - 1) * w + w
  {
  }

  /** Cell `j` of row `i` comes before the end of `n` rows of `w` cells. */
  lemma OffsetBelow(i: nat, j: nat, w: nat, n: nat)
    requires i < n && j < w
    ensures i * w + j < n * w
  {
    MultiplyStep(n - i, w);
    assert n * w == i * w + (n - i) * w;
  }

  /** The first `count` rows of a range hold `count * Width` cells. */
  lemma {:induction false} RowsCellsLength(sheet: Sheet, rng: Range, count: nat)
    requires sheet.Valid() && RowsCellsDefined(sheet, rng, count)
    ensures |RowsCells(sheet, rng, count)| == count * rng.Width()
  {
    if 0 < count {
      RowsCellsLength(sheet, rng, count - 1);
      RowCellsContents(sheet, rng.topleft.row + count - 1, rng.topleft.col, rng.Width());
      MultiplyStep(count, rng.Width());
    }
  }

  /** The cell in row `i` and column `j` of the range sits at offset `i * Width + j`. */
  lemma {:induction false} RowsCellAt(sheet: Sheet, rng: Range, count: nat, i: nat, j: nat)
    requires sheet.Valid() && RowsCellsDefined(sheet, rng, count)
    requires i < count && j < rng.Width()
    ensures i * rng.Width() + j < |RowsCells(sheet, rng, count)|
    ensures sheet.InSheet(Coordinate(rng.topleft.row + i, rng.topleft.col + j))
    ensures RowsCells(sheet, rng, count)[i * rng.Width() + j] == sheet.CellAt(Coordinate(rng.topleft.row + i, rng.topleft.col + j))
  {
    var w := rng.Width();
    RowsCellsLength(sheet, rng, count - 1);
    if i < count - 1 {
      RowsCellAt(sheet, rng, count - 1, i, j);
      OffsetBelow(i, j, w, count - 1);
      RowsCellsKeepEarlier(sheet, rng, count, i * w + j);
    } else {
      RowsCellsLastRow(sheet, rng, count, j);
    }
  }

  /** Adding a row leaves the cells of the rows before it where they were. */
  lemma RowsCellsKeepEarlier(sheet: Sheet, rng: Range, count: nat, k: nat)
    requires sheet.Valid() && RowsCellsDefined(sheet, rng, count) && 0 < count
    requires k < |RowsCells(sheet, rng, count - 1)|
    ensures k < |RowsCells(sheet, rng, count)|
    ensures RowsCells(sheet, rng, count)[k] == RowsCells(sheet, rng, count - 1)[k]
  {
  }

  /** The cells of the last row follow those of the rows before it. */
  lemma RowsCellsLastRow(sheet: Sheet, rng: Range, count: nat, j: nat)
    requires sheet.Valid() && RowsCellsDefined(sheet, rng, count) && 0 < count && j < rng.Width()
    requires |RowsCells(sheet, rng, count - 1)| == (count - 1) * rng.Width()
    ensures (count - 1) * rng.Width() + j < |RowsCells(sheet, rng, count)|
    ensures sheet.InSheet(Coordinate(rng.topleft.row + count - 1, rng.topleft.col + j))
    ensures RowsCells(sheet, rng, count)[(count - 1) * rng.Width() + j] ==
      sheet.CellAt(Coordinate(rng.topleft.row + count - 1, rng.topleft.col + j))
  {
    var before: seq<Cell> := RowsCells(sheet, rng, count - 1);
    var last: seq<Cell> := RowCells(sheet, rng.topleft.row + count - 1, rng.topleft.col, rng.Width());
    RowCellsContents(sheet, rng.topleft.row + count - 1, rng.topleft.col, rng.Width());
    assert RowsCells(sheet, rng, count) == before + last;
    assert (before + last)[|before| + j] == last[j];
  }

  /** A cell belongs to a row's cells exactly when it is the sheet's cell at
      one of the columns listed. */
  lemma RowCellsMembers(sheet: Sheet, row: int, from: int, count: nat)
    requires sheet.Valid() && RowCellsDefined(sheet, row, from, count)
    ensures forall c :: c in RowCells(sheet, row, from, count) <==>
      c.coordinate.row == row && from <= c.coordinate.col < from + count
      && sheet.InSheet(c.coordinate) && c == sheet.CellAt(c.coordinate)
  {
    var cells := RowCells(sheet, row, from, count);
    RowCellsContents(sheet, row, from, count);
    forall c: Cell
      ensures c in cells <==>
        c.coordinate.row == row && from <= c.coordinate.col < from + count
        && sheet.InSheet(c.coordinate) && c == sheet.CellAt(c.coordinate)
    {
      if c in cells {
        var k :| 0 <= k < |cells| && cells[k] == c;
      }
      if c.coordinate.row == row && from <= c.coordinate.col < from + count {
        assert cells[c.coordinate.col - from].coordinate == c.coordinate;
      }
    }
  }

  /** A cell belongs to the first `count` rows' cells exactly when it is the
      sheet's cell at a coordinate of the range in one of those rows. */
  lemma {:induction false} RowsCellsMembers(sheet: Sheet, rng: Range, count: nat)
    requires sheet.Valid() && RowsCellsDefined(sheet, rng, count) && count <= rng.Height()
    ensures forall c :: c in RowsCells(sheet, rng, count) <==>
      rng.Contains(c.coordinate) && c.coordinate.row < rng.topleft.row + count
      && sheet.InSheet(c.coordinate) && c == sheet.CellAt(c.coordinate)
  {
    if 0 < count {
      var tl := rng.topleft;
      var before: seq<Cell> := RowsCells(sheet, rng, count - 1);
      var last: seq<Cell> := RowCells(sheet, tl.row + count - 1, tl.col, rng.Width());
      RowsCellsMembers(sheet, rng, count - 1);
      RowCellsMembers(sheet, tl.row + count - 1, tl.col, rng.Width());
      assert RowsCells(sheet, rng, count) == before + last;
      forall c: Cell
        ensures c in before + last <==>
          rng.Contains(c.coordinate) && c.coordinate.row < tl.row + count
          && sheet.InSheet(c.coordinate) && c == sheet.CellAt(c.coordinate)
      {
        assert c in before + last <==> c in before || c in last;
        assert tl.col <= c.coordinate.col < tl.col + rng.Width() <==> tl.col <= c.coordinate.col <= rng.bottomright.col;
      }
    }
  }

  /** The first `count` rows' cells lie above row `count` of the range. */
  lemma {:induction false} RowsCellsBefore(sheet: Sheet, rng: Range, count: nat)
    requires sheet.Valid() && RowsCellsDefined(sheet, rng, count)
    ensures forall c :: c in RowsCells(sheet, rng, count) ==> c.coordinate.row < rng.topleft.row + count
  {
    if 0 < count {
      RowsCellsBefore(sheet, rng, count - 1);
      RowCellsMembers(sheet, rng.topleft.row + count - 1, rng.topleft.col, rng.Width());
    }
  }

  /** The first `count` rows' cells come in row-major order. */
  lemma {:induction false} RowsCellsSorted(sheet: Sheet, rng: Range, count: nat)
    requires sheet.Valid() && RowsCellsDefined(sheet, rng, count)
    ensures RowMajorSorted(RowsCells(sheet, rng, count))
  {
    if 0 < count {
      var tl := rng.topleft;
      var row := tl.row + count - 1;
      var before: seq<Cell> := RowsCells(sheet, rng, count - 1);
      var last: seq<Cell> := RowCells(sheet, row, tl.col, rng.Width());
      RowsCellsSorted(sheet, rng, count - 1);
      RowsCellsBefore(sheet, rng, count - 1);
      RowCellsContents(sheet, row, tl.col, rng.Width());
      forall i, j | 0 <= i < j < |before + last|
        ensures RowMajorBefore((before + last)[i].coordinate, (before + last)[j].coordinate)
      {
        if j < |before| {
        } else if i < |before| {
          assert (before + last)[i] in before;
        }
      }
    }
  }

  /** A readable range lists each of its cells exactly once, row by row:
      `Height * Width` cells, nothing outside the range, in row-major order. */
  lemma RangeCellsContents(sheet: Sheet, rng: Range)
    requires sheet.Valid() && sheet.Readable(rng)
    ensures |RangeCells(sheet, rng)| == rng.Height() * rng.Width()
    ensures forall c :: c in RangeCells(sheet, rng) <==>
      rng.Contains(c.coordinate) && sheet.InSheet(c.coordinate) && c == sheet.CellAt(c.coordinate)
    ensures RowMajorSorted(RangeCells(sheet, rng))
  {
    RowsCellsLength(sheet, rng, rng.Height());
    RowsCellsMembers(sheet, rng, rng.Height());
    RowsCellsSorted(sheet, rng, rng.Height());
  }

  /** Where the cell in row `i` and column `j` of a range sits when the range
      is read row by row. */
  function Offset(rng: Range, i: nat, j: nat): (k: nat)
    requires i < rng.Height() && j < rng.Width()
    ensures k < rng.Height() * rng.Width()
  {
    assert (i + 1) * rng.Width() <= rng.Height() * rng.Width();
    i * rng.Width() + j
  }

  /** The cell in row `i` and column `j` of a readable range sits at offset
      `i * Width + j` of its cell list. */
  lemma RangeCellAt(sheet: Sheet, rng: Range, i: nat, j: nat)
    requires sheet.Valid() && sheet.Readable(rng)
    requires i < rng.Height() && j < rng.Width()
    ensures Offset(rng, i, j) < |RangeCells(sheet, rng)|
    ensures RangeCells(sheet, rng)[Offset(rng, i, j)] == sheet.CellAt(Coordinate(rng.topleft.row + i, rng.topleft.col + j))
  {
    RowsCellAt(sheet, rng, rng.Height(), i, j);
  }

  /** The first cell, in visiting order, of a range that is not readable which
      lies outside the sheet: where the source's read fails. */
  function FirstOutside(sheet: Sheet, rng: Range): (at: Coordinate)
    requires !sheet.Readable(rng)
    ensures rng.Contains(at) && !sheet.InSheet(at)
    ensures forall d :: rng.Contains(d) && RowMajorBefore(d, at) ==> sheet.InSheet(d)
  {
    if !sheet.InSheet(rng.topleft) then rng.topleft
    else if sheet.ncols <= rng.bottomright.col then Coordinate(rng.topleft.row, sheet.ncols)
    else Coordinate(sheet.nrows, rng.topleft.col)
  }

  /** A read that fails after every earlier cell of the range was read is the
      read at `FirstOutside`, and the range is not readable. */
  lemma FirstFailedRead(sheet: Sheet, rng: Range, at: Coordinate)
    requires rng.Contains(at) && !sheet.InSheet(at)
    requires forall d :: rng.Contains(d) && RowMajorBefore(d, at) ==> sheet.InSheet(d)
    ensures !sheet.Readable(rng) && at == FirstOutside(sheet, rng)
  {
    assert !sheet.Readable(rng);
    var first := FirstOutside(sheet, rng);
    if RowMajorBefore(at, first) {
    } else if RowMajorBefore(first, at) {
    }
  }

  /** The cells of the range, in visiting order, whose value `keep` accepts,
      or the failed read at the first cell outside the sheet. */
  function KeepSpec(sheet: Sheet, rng: Range, keep: string -> bool): Result<seq<Cell>, ReadError>
    requires sheet.Valid()
  {
    if sheet.Readable(rng) then Ok(Filter(keep, RangeCells(sheet, rng)))
    else Err(OutOfSheet(FirstOutside(sheet, rng)))
  }

  /** Specification of `get_match_cells`: the cells of the range whose value
      the pattern matches. */
  function MatchSpec(sheet: Sheet, rng: Range, p: Pattern): Result<seq<Cell>, ReadError>
    requires sheet.Valid()
  {
    KeepSpec(sheet, rng, Matcher(p))
  }

  /** What `get_match_cells` promises: it fails exactly when the range reaches
      outside the sheet, and otherwise finds exactly the range's cells whose
      value the pattern matches, each once, in row-major order. */
  lemma MatchSpecMeaning(sheet: Sheet, rng: Range, p: Pattern)
    requires sheet.Valid()
    ensures MatchSpec(sheet, rng, p).Ok? <==> sheet.Readable(rng)
    ensures MatchSpec(sheet, rng, p).Err? ==>
      var at := MatchSpec(sheet, rng, p).error.at;
      rng.Contains(at) && !sheet.InSheet(at)
    ensures MatchSpec(sheet, rng, p).Ok? ==>
      var cells := MatchSpec(sheet, rng, p).value;
      RowMajorSorted(cells)
      && forall c :: c in cells <==>
        rng.Contains(c.coordinate) && sheet.InSheet(c.coordinate) && c == sheet.CellAt(c.coordinate) && Matches(p, c.value)
  {
    if sheet.Readable(rng) {
      RangeCellsContents(sheet, rng);
      FilterKeepsOrder(Matcher(p), RangeCells(sheet, rng));
      FilterMembers(Matcher(p), RangeCells(sheet, rng));
    }
  }

  /** Every cell of the range read so far (those before `at`) lies in the sheet. */
  ghost predicate ReadSoFar(sheet: Sheet, rng: Range, at: Coordinate) {
    forall d :: rng.Contains(d) && RowMajorBefore(d, at) ==> sheet.InSheet(d)
  }

  /** Rows that can be listed were read in full. */
  lemma RowsRead(sheet: Sheet, rng: Range, n: nat)
    requires RowsCellsDefined(sheet, rng, n)
    ensures ReadSoFar(sheet, rng, Coordinate(rng.topleft.row + n, rng.topleft.col))
  {
    forall d | rng.Contains(d) && RowMajorBefore(d, Coordinate(rng.topleft.row + n, rng.topleft.col))
      ensures sheet.InSheet(d)
    {
      assert d.row < rng.topleft.row + n;
    }
  }

  /** A complete row of the range extends the rows that can be listed. */
  lemma RowsCellsExtend(sheet: Sheet, rng: Range, n: nat)
    requires RowsCellsDefined(sheet, rng, n)
    requires RowCellsDefined(sheet, rng.topleft.row + n, rng.topleft.col, rng.Width())
    ensures RowsCellsDefined(sheet, rng, n + 1)
  {
    forall r, c | rng.topleft.row <= r < rng.topleft.row + n + 1 && rng.topleft.col <= c <= rng.bottomright.col
      ensures sheet.InSheet(Coordinate(r, c))
    {
      if r == rng.topleft.row + n {
        assert c < rng.topleft.col + rng.Width();
      }
    }
  }

  /** Once the first `n` cells of the current row were read, the cell after them is due. */
  lemma ReadRowPrefix(sheet: Sheet, rng: Range, row: int, n: nat)
    requires ReadSoFar(sheet, rng, Coordinate(row, rng.topleft.col))
    requires RowCellsDefined(sheet, row, rng.topleft.col, n)
    ensures ReadSoFar(sheet, rng, Coordinate(row, rng.topleft.col + n))
  {
    forall d | rng.Contains(d) && RowMajorBefore(d, Coordinate(row, rng.topleft.col + n))
      ensures sheet.InSheet(d)
    {
      if d.row == row {
        assert rng.topleft.col <= d.col < rng.topleft.col + n;
      } else {
        assert RowMajorBefore(d, Coordinate(row, rng.topleft.col));
      }
    }
  }

  /** Past the last row of the range, every cell was read: the range is readable. */
  lemma ReadAll(sheet: Sheet, rng: Range, row: int)
    requires ReadSoFar(sheet, rng, Coordinate(row, rng.topleft.col)) && rng.bottomright.row < row
    ensures sheet.Readable(rng)
  {
    if !rng.IsEmpty() {
      assert rng.Contains(rng.topleft) && rng.Contains(rng.bottomright);
    }
  }

  /** One more cell at the end of a row. */
  lemma RowCellsNext(sheet: Sheet, row: int, from: int, n: nat)
    requires sheet.Valid() && RowCellsDefined(sheet, row, from, n) && sheet.InSheet(Coordinate(row, from + n))
    ensures RowCellsDefined(sheet, row, from, n + 1)
    ensures RowCells(sheet, row, from, n + 1) == RowCells(sheet, row, from, n) + [sheet.CellAt(Coordinate(row, from + n))]
  {
  }

  /** One more row at the end of the rows read. */
  lemma RowsCellsNext(sheet: Sheet, rng: Range, n: nat)
    requires sheet.Valid() && RowsCellsDefined(sheet, rng, n + 1)
    ensures RowsCellsDefined(sheet, rng, n)
    ensures RowsCells(sheet, rng, n + 1) == RowsCells(sheet, rng, n) + RowCells(sheet, rng.topleft.row + n, rng.topleft.col, rng.Width())
  {
  }

  /** A read that fails in a row of the range after every earlier cell of the
      range was read is the read at `FirstOutside`. */
  lemma RowFailed(sheet: Sheet, rng: Range, n: nat, at: Coordinate)
    requires RowsCellsDefined(sheet, rng, n) && n < rng.Height()
    requires at.row == rng.topleft.row + n && rng.topleft.col <= at.col <= rng.bottomright.col && !sheet.InSheet(at)
    requires RowCellsDefined(sheet, at.row, rng.topleft.col, at.col - rng.topleft.col)
    ensures !sheet.Readable(rng) && at == FirstOutside(sheet, rng)
  {
    RowsRead(sheet, rng, n);
    ReadRowPrefix(sheet, rng, at.row, at.col - rng.topleft.col);
    FirstFailedRead(sheet, rng, at);
  }

  /** `get_match_cells`: keeps each cell of the range whose value the pattern matches. */
  method MatchCells(sheet: Sheet, rng: Range, p: Pattern) returns (r: Result<seq<Cell>, ReadError>)
    requires sheet.Valid()
    ensures r == MatchSpec(sheet, rng, p)
  {
    r := KeepCells(sheet, rng, Matcher(p));
  }

  /** The loops of `get_match_cells`: visit the range row by row and keep each
      cell whose value `keep` accepts. */
  method KeepCells(sheet: Sheet, rng: Range, keep: string -> bool) returns (r: Result<seq<Cell>, ReadError>)
    requires sheet.Valid()
    ensures r == KeepSpec(sheet, rng, keep)
  {
    var tl, br := rng.topleft, rng.bottomright;
    var found: seq<Cell> := [];
    var row := tl.row;
    ghost var rowsDone: nat := 0;
    ghost var seen: seq<Cell> := [];
    while row <= br.row
      invariant row == tl.row + rowsDone && rowsDone <= rng.Height()
      invariant RowsCellsDefined(sheet, rng, rowsDone)
      invariant seen == RowsCells(sheet, rng, rowsDone)
      invariant found == Filter(keep, seen)
    {
      var kept := MatchRow(sheet, rng, keep, row);
      if kept.Err? {
        RowFailed(sheet, rng, rowsDone, kept.error.at);
        return Err(kept.error);
      }
      RowsCellsExtend(sheet, rng, rowsDone);
      RowsCellsNext(sheet, rng, rowsDone);
      FilterAppend(keep, seen, RowCells(sheet, row, tl.col, rng.Width()));
      found := found + kept.value;
      seen := seen + RowCells(sheet, row, tl.col, rng.Width());
      row := row + 1;
      rowsDone := rowsDone + 1;
    }
    assert rowsDone == rng.Height();
    RowsRead(sheet, rng, rowsDone);
    ReadAll(sheet, rng, row);
    return Ok(found);
  }

  /** The inner loop of `get_match_cells`: one row of the range, left to right,
      keeping the cells whose value `keep` accepts; it fails at the first cell
      of the row that lies outside the sheet. */
  method MatchRow(sheet: Sheet, rng: Range, keep: string -> bool, row: int) returns (r: Result<seq<Cell>, ReadError>)
    requires sheet.Valid()
    ensures r.Ok? ==>
      RowCellsDefined(sheet, row, rng.topleft.col, rng.Width())
      && r.value == Filter(keep, RowCells(sheet, row, rng.topleft.col, rng.Width()))
    ensures r.Err? ==>
      var at := r.error.at;
      at.row == row && rng.topleft.col <= at.col <= rng.bottomright.col && !sheet.InSheet(at)
      && RowCellsDefined(sheet, row, rng.topleft.col, at.col - rng.topleft.col)
  {
    var tl, br := rng.topleft, rng.bottomright;
    var found: seq<Cell> := [];
    var col := tl.col;
    ghost var colsDone: nat := 0;
    ghost var seen: seq<Cell> := [];
    while col <= br.col
      invariant col == tl.col + colsDone && colsDone <= rng.Width()
      invariant RowCellsDefined(sheet, row, tl.col, colsDone)
      invariant seen == RowCells(sheet, row, tl.col, colsDone)
      invariant found == Filter(keep, seen)
    {
      if !sheet.InSheet(Coordinate(row, col)) {
        return Err(OutOfSheet(Coordinate(row, col)));
      }
      var cell := sheet.CellAt(Coordinate(row, col));
      RowCellsNext(sheet, row, tl.col, colsDone);
      FilterSnoc(keep, seen, cell);
      found := found + (if Keeps(keep, cell) then [cell] else []);
      seen := seen + [cell];
      col := col + 1;
      colsDone := colsDone + 1;
    }
    assert colsDone == rng.Width();
    return Ok(found);
  }

  /** `get_range_cells`: every cell of the range, `Height * Width` of them. */
  method GetRangeCells(sheet: Sheet, rng: Range) returns (r: Result<seq<Cell>, ReadError>)
    requires sheet.Valid()
    ensures r.Ok? <==> sheet.Readable(rng)
    ensures r.Ok? ==> r.value == RangeCells(sheet, rng) && |r.value| == rng.Height() * rng.Width()
    ensures r.Err? ==> r.error == OutOfSheet(FirstOutside(sheet, rng))
  {
    r := MatchCells(sheet, rng, Anything);
    if r.Ok? {
      FilterAnything(RangeCells(sheet, rng));
      RangeCellsContents(sheet, rng);
    }
  }

  /** Specification of `build_matrix`: one list of values per row of the range. */
  function Matrix(sheet: Sheet, rng: Range): seq<seq<string>>
    requires sheet.Valid() && sheet.Readable(rng)
  {
    seq(rng.Height(), i requires 0 <= i < rng.Height() =>
      seq(rng.Width(), j requires 0 <= j < rng.Width() =>
        sheet.ValueAt(Coordinate(rng.topleft.row + i, rng.topleft.col + j))))
  }

  /** The matrix holds, row after row, the values of the range's cell list:
      `Height` rows of `Width` values, the `(i, j)`-th being the value of the
      cell at offset `i * Width + j`. */
  lemma MatrixAgreesWithRangeCells(sheet: Sheet, rng: Range)
    requires sheet.Valid() && sheet.Readable(rng)
    ensures |Matrix(sheet, rng)| == rng.Height() && |RangeCells(sheet, rng)| == rng.Height() * rng.Width()
    ensures forall i :: 0 <= i < rng.Height() ==> |Matrix(sheet, rng)[i]| == rng.Width()
    ensures forall i: nat, j: nat :: i < rng.Height() && j < rng.Width() ==>
              Matrix(sheet, rng)[i][j] == RangeCells(sheet, rng)[Offset(rng, i, j)].value
  {
    RangeCellsContents(sheet, rng);
    forall i: nat, j: nat | i < rng.Height() && j < rng.Width()
      ensures Matrix(sheet, rng)[i][j] == RangeCells(sheet, rng)[Offset(rng, i, j)].value
    {
      RangeCellAt(sheet, rng, i, j);
    }
  }

  /** `build_matrix`: visits the range row by row and collects the values. */
  method BuildMatrix(sheet: Sheet, rng: Range) returns (r: Result<seq<seq<string>>, ReadError>)
    requires sheet.Valid()
    ensures r.Ok? <==> sheet.Readable(rng)
    ensures r.Ok? ==> r.value == Matrix(sheet, rng)
    ensures r.Err? ==> r.error == OutOfSheet(FirstOutside(sheet, rng))
  {
    var tl, br := rng.topleft, rng.bottomright;
    var rows: seq<seq<string>> := [];
    var row := tl.row;
    while row <= br.row
      invariant tl.row <= row && row - tl.row <= rng.Height()
      invariant |rows| == row - tl.row
      invariant ReadSoFar(sheet, rng, Coordinate(row, tl.col))
      invariant forall i :: 0 <= i < |rows| ==> |rows[i]| == rng.Width()
      invariant forall i, j :: 0 <= i < |rows| && 0 <= j < |rows[i]| ==>
                  (sheet.InSheet(Coordinate(tl.row + i, tl.col + j))
                   && rows[i][j] == sheet.ValueAt(Coordinate(tl.row + i, tl.col + j)))
    {
      var cols: seq<string> := [];
      var col := tl.col;
      while col <= br.col
        invariant tl.col <= col && col - tl.col <= rng.Width()
        invariant |cols| == col - tl.col
        invariant ReadSoFar(sheet, rng, Coordinate(row, col))
        invariant forall j :: 0 <= j < |cols| ==>
                    (sheet.InSheet(Coordinate(row, tl.col + j)) && cols[j] == sheet.ValueAt(Coordinate(row, tl.col + j)))
      {
        var at := Coordinate(row, col);
        if !sheet.InSheet(at) {
          FirstFailedRead(sheet, rng, at);
          return Err(OutOfSheet(at));
        }
        cols := cols + [sheet.ValueAt(at)];
        col := col + 1;
      }
      rows := rows + [cols];
      row := row + 1;
    }
    assert sheet.Readable(rng);
    forall i | 0 <= i < |rows|
      ensures rows[i] == Matrix(sheet, rng)[i]
    {
    }
    return Ok(rows);
  }
}
