/** The read-only worksheet and the coordinate arithmetic of the region locator
    (`Coordinate`, `Range`, `Cell`, `is_in_sheet_range`, `hmove`, `vmove`). */
module Sheets {

  /** A 0-based cell address. Derived coordinates may fall outside the sheet,
      even below zero, so both components are plain integers. */
  datatype Coordinate = Coordinate(row: int, col: int)

  /** An inclusive rectangle; the source calls its second corner `rightbottom`. */
  datatype Range = Range(topleft: Coordinate, bottomright: Coordinate) {

    /** True when iterating over the range visits no cell at all. */
    predicate IsEmpty() {
      topleft.row > bottomright.row || topleft.col > bottomright.col
    }

    /** Number of rows visited by `range(topleft.row, bottomright.row + 1)`. */
    function Height(): nat {
      if topleft.row <= bottomright.row then bottomright.row - topleft.row + 1 else 0
    }

    /** Number of columns visited by `range(topleft.col, bottomright.col + 1)`. */
    function Width(): nat {
      if topleft.col <= bottomright.col then bottomright.col - topleft.col + 1 else 0
    }

    predicate Contains(c: Coordinate) {
      topleft.row <= c.row <= bottomright.row && topleft.col <= c.col <= bottomright.col
    }
  }

  /** A cell copied out of the sheet: where it is and its value in string form. */
  datatype Cell = Cell(coordinate: Coordinate, value: string)

  /** Reading a cell outside the sheet. */
  datatype ReadError = OutOfSheet(at: Coordinate)

  /** An immutable worksheet of `nrows` rows of `ncols` string-form cell values. */
  datatype Sheet = Sheet(cells: seq<seq<string>>, nrows: nat, ncols: nat) {

    /** A rectangular grid; a sheet has rows exactly when it has columns. */
    predicate Valid() {
      |cells| == nrows
      && (nrows == 0 <==> ncols == 0)
      && forall r :: 0 <= r < nrows ==> |cells[r]| == ncols
    }

    /** `is_in_sheet_range`. */
    predicate InSheet(c: Coordinate) {
      0 <= c.row < nrows && 0 <= c.col < ncols
    }

    function ValueAt(c: Coordinate): string
      requires Valid() && InSheet(c)
    {
      cells[c.row][c.col]
    }

    function CellAt(c: Coordinate): Cell
      requires Valid() && InSheet(c)
    {
      Cell(c, ValueAt(c))
    }

    /** Every cell that iterating over `rng` visits lies in the sheet. */
    predicate Readable(rng: Range) {
      rng.IsEmpty() || (InSheet(rng.topleft) && InSheet(rng.bottomright))
    }
  }

  /** `hmove`: shift a coordinate horizontally. */
  function HMove(c: Coordinate, steps: int): Coordinate {
    Coordinate(c.row, c.col + steps)
  }

  /** `vmove`: shift a coordinate vertically. */
  function VMove(c: Coordinate, steps: int): Coordinate {
    Coordinate(c.row + steps, c.col)
  }

  /** `a` comes before `b` when the sheet is read row by row. */
  predicate RowMajorBefore(a: Coordinate, b: Coordinate) {
    a.row < b.row || (a.row == b.row && a.col < b.col)
  }

  /** `a` comes before `b` when the sheet is read column by column. */
  predicate ColumnMajorBefore(a: Coordinate, b: Coordinate) {
    a.col < b.col || (a.col == b.col && a.row < b.row)
  }

  /** The four directions a walk over the sheet can take. */
  datatype Direction = North | South | West | East

  /** The coordinate `k` steps away from `c` in direction `dir`. */
  function Walk(c: Coordinate, dir: Direction, k: nat): Coordinate {
    match dir
    case North => VMove(c, -(k as int))
    case South => VMove(c, k)
    case West => HMove(c, -(k as int))
    case East => HMove(c, k)
  }

  /** How many cells a walk from `c` towards `dir` visits before it leaves the sheet. */
  function Remaining(sheet: Sheet, c: Coordinate, dir: Direction): nat {
    if !sheet.InSheet(c) then 0
    else match dir
      case North => c.row + 1
      case South => sheet.nrows - c.row
      case West => c.col + 1
      case East => sheet.ncols - c.col
  }

  /** Moving one step is the next point of the walk, and the walk stays in one line. */
  lemma WalkStep(c: Coordinate, dir: Direction, k: nat)
    ensures Walk(Walk(c, dir, 1), dir, k) == Walk(c, dir, k + 1)
    ensures dir == North || dir == South ==> Walk(c, dir, k).col == c.col
    ensures dir == West || dir == East ==> Walk(c, dir, k).row == c.row
  {
  }

  /** Horizontal and vertical moves commute and add up, and each move is undone
      by the opposite move. */
  lemma MovesCommute(c: Coordinate, dr: int, dc: int)
    ensures HMove(VMove(c, dr), dc) == VMove(HMove(c, dc), dr) == Coordinate(c.row + dr, c.col + dc)
    ensures VMove(VMove(c, dr), -dr) == c && HMove(HMove(c, dc), -dc) == c
  {
  }
}
