/** The region locator of `process_file`: the anchor cells of the four table
    kinds in the leftmost non-empty column, the corner arithmetic that turns
    them into table ranges, and the list of subdivision names above the first
    table. */
module Locate {
  import opened Outcomes
  import opened Sheets
  import opened Patterns
  import opened Scans
  import opened Extract

  /** The four kinds of table of one subdivision's block, in sheet order. */
  datatype Group = TableI | TableII | TableIII | Party

  /** The anchor pattern that marks the top-left cell of a table of kind `g`. */
  function AnchorPattern(g: Group): Pattern {
    match g
    case TableI => TableIAnchor
    case TableII => TableIIAnchor
    case TableIII => TableIIIAnchor
    case Party => PartyAnchor
  }

  /** The anchor cells found in `column`, per table kind, top to bottom. */
  datatype Anchors = Anchors(column: nat, tableI: seq<Cell>, tableII: seq<Cell>, tableIII: seq<Cell>, party: seq<Cell>) {
    function Cells(g: Group): seq<Cell> {
      match g
      case TableI => tableI
      case TableII => tableII
      case TableIII => tableIII
      case Party => party
    }
  }

  /** Why locating the tables stops; each one is an exception in the source. */
  datatype LocateError =
    | NoSheet                                  // the workbook has no sheet at index 0
    | EmptySheet                               // no cell has a value, so `lefttop` is None
    | MissingAnchor(group: Group, index: nat)  // fewer anchors of `group` than of table I
    | ReadFailed(error: ReadError)             // a read outside the sheet

  function Min(x: int, y: int): int {
    if x <= y then x else y
  }

  // ------------------------------------------------------------------------
  // Anchors
  // ------------------------------------------------------------------------

  /** Some cell of column `col` has a value other than ''. */
  predicate ColumnHasValue(sheet: Sheet, col: nat)
    requires sheet.Valid() && col < sheet.ncols
  {
    exists row :: 0 <= row < sheet.nrows && sheet.cells[row][col] != ""
  }

  /** The leftmost column from `from` on that holds a value, if any. */
  function LeftmostColumnFrom(sheet: Sheet, from: nat): (r: Option<nat>)
    requires sheet.Valid()
    ensures r.Some? ==> from <= r.value < sheet.ncols && ColumnHasValue(sheet, r.value)
    ensures forall col :: from <= col < sheet.ncols && (r.None? || col < r.value) ==> !ColumnHasValue(sheet, col)
    decreases sheet.ncols - from
  {
    if sheet.ncols <= from then None
    else if ColumnHasValue(sheet, from) then Some(from)
    else LeftmostColumnFrom(sheet, from + 1)
  }

  /** `first_col_range`: the whole of column `col`. */
  function FirstColumn(sheet: Sheet, col: int): Range {
    Range(Coordinate(0, col), Coordinate(sheet.nrows - 1, col))
  }

  /** The cells of column `col` that the anchor pattern of `g` matches. */
  function GroupIn(sheet: Sheet, col: nat, g: Group): seq<Cell>
    requires sheet.Valid() && col < sheet.ncols
  {
    Filter(Matcher(AnchorPattern(g)), RangeCells(sheet, FirstColumn(sheet, col)))
  }

  function AnchorsIn(sheet: Sheet, col: nat): Anchors
    requires sheet.Valid() && col < sheet.ncols
  {
    Anchors(col, GroupIn(sheet, col, TableI), GroupIn(sheet, col, TableII),
      GroupIn(sheet, col, TableIII), GroupIn(sheet, col, Party))
  }

  /** Specification of the anchor search (the "TOP LEFTs" block): the anchors
      of the leftmost column that holds a value, or `EmptySheet`. */
  function AnchorsSpec(sheet: Sheet): Result<Anchors, LocateError>
    requires sheet.Valid()
  {
    match LeftmostColumnFrom(sheet, 0)
    case None => Err(EmptySheet)
    case Some(col) => Ok(AnchorsIn(sheet, col))
  }

  /** `a` is what the anchor search finds in its column of `sheet`. */
  predicate Anchored(sheet: Sheet, a: Anchors) {
    sheet.Valid() && a.column < sheet.ncols && a == AnchorsIn(sheet, a.column)
  }

  /** Every cell of `cells` is the sheet's own cell at its coordinate, in column `col`. */
  predicate InColumn(sheet: Sheet, cells: seq<Cell>, col: int)
    requires sheet.Valid()
  {
    forall i :: 0 <= i < |cells| ==>
      sheet.InSheet(cells[i].coordinate) && cells[i].coordinate.col == col && cells[i] == sheet.CellAt(cells[i].coordinate)
  }

  predicate Placed(sheet: Sheet, a: Anchors)
    requires sheet.Valid()
  {
    InColumn(sheet, a.tableI, a.column) && InColumn(sheet, a.tableII, a.column)
    && InColumn(sheet, a.tableIII, a.column) && InColumn(sheet, a.party, a.column)
  }

  /** Each anchor list holds exactly the cells of the anchor column that its
      pattern matches, each once, top to bottom. */
  lemma AnchorsMeaning(sheet: Sheet, a: Anchors, g: Group)
    requires Anchored(sheet, a)
    ensures RowMajorSorted(a.Cells(g))
    ensures forall c :: c in a.Cells(g) <==>
      sheet.InSheet(c.coordinate) && c.coordinate.col == a.column && c == sheet.CellAt(c.coordinate)
      && Matches(AnchorPattern(g), c.value)
  {
    MatchSpecMeaning(sheet, FirstColumn(sheet, a.column), AnchorPattern(g));
  }

  /** No cell is an anchor of two kinds, and no anchor is an empty cell. */
  lemma AnchorGroupsDisjoint(sheet: Sheet, a: Anchors, g: Group, h: Group)
    requires Anchored(sheet, a) && g != h
    ensures forall c :: c in a.Cells(g) ==> c !in a.Cells(h) && c.value != "" && !IsCellEmpty(c.value)
  {
    AnchorsMeaning(sheet, a, g);
    AnchorsMeaning(sheet, a, h);
    forall c | c in a.Cells(g)
      ensures c !in a.Cells(h) && c.value != "" && !IsCellEmpty(c.value)
    {
      AnchorPatternsDisjoint(c.value);
      assert IsAnchor(AnchorPattern(g));
    }
  }

  lemma AnchorsPlaced(sheet: Sheet, a: Anchors)
    requires Anchored(sheet, a)
    ensures Placed(sheet, a)
  {
    AnchorsMeaning(sheet, a, TableI);
    AnchorsMeaning(sheet, a, TableII);
    AnchorsMeaning(sheet, a, TableIII);
    AnchorsMeaning(sheet, a, Party);
  }

  /** A table-I anchor and a party anchor are two different cells of one
      column, so a sheet that has both has at least two rows. */
  lemma TwoAnchorRows(sheet: Sheet, a: Anchors)
    requires Anchored(sheet, a)
    ensures 0 < |a.tableI| && 0 < |a.party| ==> 2 <= sheet.nrows
  {
    if 0 < |a.tableI| && 0 < |a.party| && sheet.nrows < 2 {
      AnchorsMeaning(sheet, a, TableI);
      AnchorsMeaning(sheet, a, Party);
      var first, party := a.tableI[0], a.party[0];
      assert first.coordinate == party.coordinate;
      AnchorPatternsDisjoint(first.value);
      assert false;
    }
  }

  /** What the corner arithmetic relies on: every anchor is the sheet's own cell
      in the anchor column, and a sheet with a table-I anchor and a party
      anchor has at least two rows. */
  predicate Arranged(sheet: Sheet, a: Anchors) {
    sheet.Valid() && a.column < sheet.ncols && Placed(sheet, a)
    && (0 < |a.tableI| && 0 < |a.party| ==> 2 <= sheet.nrows)
  }

  lemma AnchoredArranged(sheet: Sheet, a: Anchors)
    requires Anchored(sheet, a)
    ensures Arranged(sheet, a)
  {
    AnchorsPlaced(sheet, a);
    TwoAnchorRows(sheet, a);
  }

  /** The anchor search. `get_lefttop_nonempty_cell` picks the column; a None
      there is the `EmptySheet` error; the four `get_match_cells` calls over
      the whole column cannot fail. */
  method FindAnchors(sheet: Sheet) returns (r: Result<Anchors, LocateError>)
    requires sheet.Valid()
    ensures r == AnchorsSpec(sheet)
    ensures r.Ok? ==> Anchored(sheet, r.value)
  {
    var lefttop := LeftTopNonEmpty(sheet);
    if lefttop.None? {
      forall col | 0 <= col < sheet.ncols
        ensures !ColumnHasValue(sheet, col)
      {
        forall row | 0 <= row < sheet.nrows
          ensures sheet.cells[row][col] == ""
        {
          assert sheet.InSheet(Coordinate(row, col));
        }
      }
      assert LeftmostColumnFrom(sheet, 0).None?;
      return Err(EmptySheet);
    }
    var at := lefttop.value.coordinate;
    var col: nat := at.col;
    assert sheet.cells[at.row][col] != "";
    assert ColumnHasValue(sheet, col);
    forall other | 0 <= other < col
      ensures !ColumnHasValue(sheet, other)
    {
      forall row | 0 <= row < sheet.nrows
        ensures sheet.cells[row][other] == ""
      {
        assert sheet.InSheet(Coordinate(row, other)) && ColumnMajorBefore(Coordinate(row, other), at);
      }
    }
    assert LeftmostColumnFrom(sheet, 0) == Some(col);
    var anchors := ColumnAnchors(sheet, col);
    r := Ok(anchors);
  }

  /** The four `get_match_cells` calls over `first_col_range`; the column lies
      in the sheet, so none of them fails. */
  method ColumnAnchors(sheet: Sheet, col: nat) returns (a: Anchors)
    requires sheet.Valid() && col < sheet.ncols
    ensures a == AnchorsIn(sheet, col)
  {
    var firstColumn := FirstColumn(sheet, col);
    var tableI := MatchCells(sheet, firstColumn, TableIAnchor);
    var tableII := MatchCells(sheet, firstColumn, TableIIAnchor);
    var tableIII := MatchCells(sheet, firstColumn, TableIIIAnchor);
    var party := MatchCells(sheet, firstColumn, PartyAnchor);
    a := Anchors(col, tableI.value, tableII.value, tableIII.value, party.value);
  }

  // ------------------------------------------------------------------------
  // Corners
  // ------------------------------------------------------------------------

  /** Rows left between a table and the anchor below it: two under table I and
      under the party table, one under tables II and III. */
  function Gap(g: Group): nat {
    match g
    case TableI => 2
    case TableII => 1
    case TableIII => 1
    case Party => 2
  }

  /** `hmove(vmove(next, -gap), width - 1)`: the bottom-right corner of a table
      whose last row lies `gap` rows above the anchor `next` below it and which
      is as wide as its own anchor row. */
  function CornerAbove(next: Coordinate, gap: nat, width: nat): Coordinate {
    HMove(VMove(next, -(gap as int)), width - 1)
  }

  /** `get_row_width` of an anchor cell. */
  function WidthOf(sheet: Sheet, cell: Cell): nat
    requires sheet.Valid() && sheet.InSheet(cell.coordinate)
  {
    SpanWidth(sheet.cells[cell.coordinate.row], cell.coordinate.col)
  }

  /** The bottom-right corners of the four tables of one block. */
  datatype Corners = Corners(tableI: Coordinate, tableII: Coordinate, tableIII: Coordinate, party: Coordinate) {
    function Of(g: Group): Coordinate {
      match g
      case TableI => tableI
      case TableII => tableII
      case TableIII => tableIII
      case Party => party
    }
  }

  /** The IndexError of the corner loop. Pass `k` reads `tableII[k]`, then
      `tableIII[k]`, then `party[k]`, so the loop stops at the first pass where
      one of those lists has run out, naming the first list that has. */
  function MissingAnchorOf(a: Anchors): (e: Option<LocateError>)
    ensures e.None? <==> |a.tableI| <= |a.tableII| && |a.tableI| <= |a.tableIII| && |a.tableI| <= |a.party|
    ensures e.Some? ==>
      e.value.MissingAnchor? && e.value.group != TableI && e.value.index < |a.tableI|
      && |a.Cells(e.value.group)| == e.value.index
      && (forall g :: e.value.index <= |a.Cells(g)|)
      && (e.value.group == TableIII ==> e.value.index < |a.tableII|)
      && (e.value.group == Party ==> e.value.index < |a.tableII| && e.value.index < |a.tableIII|)
  {
    var k := Min(Min(|a.tableII|, |a.tableIII|), |a.party|);
    if |a.tableI| <= k then None
    else if |a.tableII| == k then Some(MissingAnchor(TableII, k))
    else if |a.tableIII| == k then Some(MissingAnchor(TableIII, k))
    else Some(MissingAnchor(Party, k))
  }

  /** The corners computed by pass `k` of the corner loop. The last block's
      party table ends at the corner `get_bottomright_nonempty_cell` reports. */
  function CornersAt(sheet: Sheet, a: Anchors, k: nat): Corners
    requires sheet.Valid() && Placed(sheet, a)
    requires k < |a.tableI| && k < |a.tableII| && k < |a.tableIII| && k < |a.party|
    requires 2 <= sheet.nrows
  {
    Corners(
      CornerAbove(a.tableII[k].coordinate, Gap(TableI), WidthOf(sheet, a.tableI[k])),
      CornerAbove(a.tableIII[k].coordinate, Gap(TableII), WidthOf(sheet, a.tableII[k])),
      CornerAbove(a.party[k].coordinate, Gap(TableIII), WidthOf(sheet, a.tableIII[k])),
      if k + 1 <= |a.tableI| - 1 then CornerAbove(a.tableI[k + 1].coordinate, Gap(Party), WidthOf(sheet, a.party[k]))
      else BottomRightCorner(sheet))
  }

  /** Specification of the corner loop ("BOTTOM RIGHTs"): one set of corners
      per table-I anchor, or the IndexError of the first missing anchor. */
  function CornersSpec(sheet: Sheet, a: Anchors): Result<seq<Corners>, LocateError>
    requires Arranged(sheet, a)
  {
    match MissingAnchorOf(a)
    case Some(e) => Err(e)
    case None =>
      Ok(seq(|a.tableI|, k requires 0 <= k < |a.tableI| => CornersAt(sheet, a, k)))
  }

  /** Pass `k` of the corner loop: the widths and corners of block `k`, or the
      IndexError of the first of `tableII[k]`, `tableIII[k]`, `party[k]` that
      does not exist. */
  method BlockCorners(sheet: Sheet, a: Anchors, k: nat) returns (r: Result<Corners, LocateError>)
    requires Arranged(sheet, a)
    requires k < |a.tableI| && k <= |a.tableII| && k <= |a.tableIII| && k <= |a.party|
    ensures r.Ok? <==> k < |a.tableII| && k < |a.tableIII| && k < |a.party|
    ensures r.Ok? ==> r.value == CornersAt(sheet, a, k)
    ensures r.Err? ==> Some(r.error) == MissingAnchorOf(a)
  {
    var widthI := RowWidth(sheet, a.tableI[k].coordinate);
    if |a.tableII| <= k {
      return Err(MissingAnchor(TableII, k));
    }
    var cornerI := CornerAbove(a.tableII[k].coordinate, Gap(TableI), widthI.value);
    var widthII := RowWidth(sheet, a.tableII[k].coordinate);
    if |a.tableIII| <= k {
      return Err(MissingAnchor(TableIII, k));
    }
    var cornerII := CornerAbove(a.tableIII[k].coordinate, Gap(TableII), widthII.value);
    var widthIII := RowWidth(sheet, a.tableIII[k].coordinate);
    if |a.party| <= k {
      return Err(MissingAnchor(Party, k));
    }
    var cornerIII := CornerAbove(a.party[k].coordinate, Gap(TableIII), widthIII.value);
    var widthParty := RowWidth(sheet, a.party[k].coordinate);
    var cornerParty;
    if k + 1 <= |a.tableI| - 1 {
      cornerParty := CornerAbove(a.tableI[k + 1].coordinate, Gap(Party), widthParty.value);
    } else {
      var last := BottomRightNonEmpty(sheet);
      cornerParty := last.value.coordinate;
    }
    return Ok(Corners(cornerI, cornerII, cornerIII, cornerParty));
  }

  /** The corner loop. The source fills lists allocated up front, each sized by
      its own anchor group; the model appends, so its list is the source's
      first `|tableI|` entries, and the source never reads the rest. */
  method DeriveCorners(sheet: Sheet, a: Anchors) returns (r: Result<seq<Corners>, LocateError>)
    requires Arranged(sheet, a)
    ensures r == CornersSpec(sheet, a)
  {
    var corners: seq<Corners> := [];
    var k := 0;
    while k < |a.tableI|
      invariant k <= |a.tableI| && k <= |a.tableII| && k <= |a.tableIII| && k <= |a.party|
      invariant |corners| == k
      invariant forall j :: 0 <= j < k ==> corners[j] == CornersAt(sheet, a, j)
    {
      var block := BlockCorners(sheet, a, k);
      if block.Err? {
        return Err(block.error);
      }
      corners := corners + [block.value];
      k := k + 1;
    }
    assert corners == seq(|a.tableI|, j requires 0 <= j < |a.tableI| => CornersAt(sheet, a, j));
    return Ok(corners);
  }

  // ------------------------------------------------------------------------
  // Ranges
  // ------------------------------------------------------------------------

  /** The four table ranges of one block. */
  datatype TableRanges = TableRanges(tableI: Range, tableII: Range, tableIII: Range, party: Range) {
    function Of(g: Group): Range {
      match g
      case TableI => tableI
      case TableII => tableII
      case TableIII => tableIII
      case Party => party
    }
  }

  /** Pass `k` of the range loop: each table runs from its anchor to its corner. */
  function RangesAt(a: Anchors, corners: seq<Corners>, k: nat): (r: TableRanges)
    requires k < |corners| && k < |a.tableI| && k < |a.tableII| && k < |a.tableIII| && k < |a.party|
    ensures forall g :: r.Of(g) == Range(a.Cells(g)[k].coordinate, corners[k].Of(g))
  {
    TableRanges(
      Range(a.tableI[k].coordinate, corners[k].tableI),
      Range(a.tableII[k].coordinate, corners[k].tableII),
      Range(a.tableIII[k].coordinate, corners[k].tableIII),
      Range(a.party[k].coordinate, corners[k].party))
  }

  /** The range loop ("RANGEs"). */
  method BuildRanges(a: Anchors, corners: seq<Corners>) returns (ranges: seq<TableRanges>)
    requires |corners| == |a.tableI| <= |a.tableII| && |a.tableI| <= |a.tableIII| && |a.tableI| <= |a.party|
    ensures |ranges| == |corners|
    ensures forall k :: 0 <= k < |ranges| ==> ranges[k] == RangesAt(a, corners, k)
  {
    ranges := [];
    for k := 0 to |corners|
      invariant |ranges| == k
      invariant forall j :: 0 <= j < k ==> ranges[j] == RangesAt(a, corners, j)
    {
      ranges := ranges + [RangesAt(a, corners, k)];
    }
  }

  /** The anchor right below table `g` of block `k`, which fixes where the table ends. */
  function NextAnchor(a: Anchors, g: Group, k: nat): Coordinate
    requires k < |a.tableI| && k < |a.tableII| && k < |a.tableIII| && k < |a.party|
    requires g == Party ==> k + 1 < |a.tableI|
  {
    match g
    case TableI => a.tableII[k].coordinate
    case TableII => a.tableIII[k].coordinate
    case TableIII => a.party[k].coordinate
    case Party => a.tableI[k + 1].coordinate
  }

  /** Where each derived table lies: it starts at its anchor; it ends `Gap`
      rows above the next anchor (the last party table at the last row); it is
      as wide as its anchor row, up to that row's rightmost non-empty cell,
      with nothing but empty cells to its right; and it lies in the sheet, so
      `build_matrix` over it never fails. */
  lemma CornersMeaning(sheet: Sheet, a: Anchors, k: nat, g: Group)
    requires Arranged(sheet, a) && CornersSpec(sheet, a).Ok? && k < |a.tableI|
    ensures k < |a.Cells(g)|
    ensures
      var anchor := a.Cells(g)[k].coordinate;
      var rng := Range(anchor, CornersSpec(sheet, a).value[k].Of(g));
      sheet.Readable(rng) && sheet.InSheet(anchor) && anchor.col == a.column
      && (g == Party && k + 1 == |a.tableI| ==>
            2 <= sheet.nrows && rng.bottomright == BottomRightCorner(sheet))
      && (g != Party || k + 1 < |a.tableI| ==>
            rng.bottomright.row == NextAnchor(a, g, k).row - Gap(g)
            && rng.Width() == WidthOf(sheet, a.Cells(g)[k])
            && rng.bottomright.col == anchor.col + rng.Width() - 1
            && anchor.col + rng.Width() <= sheet.ncols
            && (0 < rng.Width() ==> !IsCellEmpty(sheet.ValueAt(Coordinate(anchor.row, rng.bottomright.col))))
            && forall col :: rng.bottomright.col < col < sheet.ncols ==>
                 IsCellEmpty(sheet.ValueAt(Coordinate(anchor.row, col))))
  {
    var corner := CornersSpec(sheet, a).value[k].Of(g);
    assert corner == CornersAt(sheet, a, k).Of(g);
    if g == Party && k + 1 == |a.tableI| {
      BottomRightInSheet(sheet);
    } else {
      assert corner == CornerAbove(NextAnchor(a, g, k), Gap(g), WidthOf(sheet, a.Cells(g)[k]));
      CornerAboveMeaning(sheet, a.Cells(g)[k], NextAnchor(a, g, k), Gap(g));
    }
  }

  /** The corner arithmetic for one table: the anchor `next` below it is in the
      same column, so the range from `anchor` to the corner `gap` rows above
      `next` lies in the sheet and spans the anchor
      row up to its rightmost non-empty cell. */
  lemma CornerAboveMeaning(sheet: Sheet, anchor: Cell, next: Coordinate, gap: nat)
    requires sheet.Valid() && sheet.InSheet(anchor.coordinate) && sheet.InSheet(next)
    requires next.col == anchor.coordinate.col
    ensures
      var at := anchor.coordinate;
      var rng := Range(at, CornerAbove(next, gap, WidthOf(sheet, anchor)));
      sheet.Readable(rng)
      && rng.bottomright.row == next.row - gap
      && rng.Width() == WidthOf(sheet, anchor)
      && rng.bottomright.col == at.col + rng.Width() - 1
      && at.col + rng.Width() <= sheet.ncols
      && (0 < rng.Width() ==> !IsCellEmpty(sheet.ValueAt(Coordinate(at.row, rng.bottomright.col))))
      && forall col :: rng.bottomright.col < col < sheet.ncols ==> IsCellEmpty(sheet.ValueAt(Coordinate(at.row, col)))
  {
    MovesCommute(next, -(gap as int), WidthOf(sheet, anchor) - 1);
    var values := sheet.cells[anchor.coordinate.row];
    assert |values| == sheet.ncols;
    SpanWidthIsRightmost(values, anchor.coordinate.col);
  }

  lemma BottomRightInSheet(sheet: Sheet)
    requires sheet.Valid() && 2 <= sheet.nrows
    ensures sheet.InSheet(BottomRightCorner(sheet))
  {
    var values := sheet.cells[sheet.nrows - 1];
    assert |values| == sheet.ncols;
    SpanWidthIsRightmost(values, 0);
  }

  // ------------------------------------------------------------------------
  // Subdivision names
  // ------------------------------------------------------------------------

  /** Where the name search starts: one column right of and two rows above the
      first table-I anchor. */
  function NameSearchStart(a: Anchors): Coordinate
    requires 0 < |a.tableI|
  {
    VMove(HMove(a.tableI[0].coordinate, 1), -2)
  }

  /** Specification of the "LIST KECAMATAN" block: walk north from the search
      start to the first non-empty cell, then collect the run of cells with a
      value ending there; no table-I anchor means no names. */
  function SubdivisionsSpec(sheet: Sheet, a: Anchors): Result<seq<Cell>, LocateError>
    requires sheet.Valid()
  {
    if |a.tableI| == 0 then Ok([])
    else match FirstNonEmptyFrom(sheet, NameSearchStart(a), North)
      case Err(e) => Err(ReadFailed(e))
      case Ok(found) =>
        match RunFrom(sheet, found.coordinate, North)
        case Err(e) => Err(ReadFailed(e))
        case Ok(names) => Ok(names)
  }

  /** The name list is the column of consecutive cells with a value that ends,
      at the bottom, with the first non-empty cell above the search start; it
      is maximal, since the cell right above its first name holds ''. */
  lemma SubdivisionsMeaning(sheet: Sheet, a: Anchors)
    requires sheet.Valid() && 0 < |a.tableI| && SubdivisionsSpec(sheet, a).Ok?
    ensures FirstNonEmptyFrom(sheet, NameSearchStart(a), North).Ok?
    ensures
      var found := FirstNonEmptyFrom(sheet, NameSearchStart(a), North).value;
      var names := SubdivisionsSpec(sheet, a).value;
      0 < |names| && names[|names| - 1] == found
      && found.coordinate.col == a.tableI[0].coordinate.col + 1
      && found.coordinate.row <= a.tableI[0].coordinate.row - 2
      && (forall i :: 0 <= i < |names| ==>
            sheet.InSheet(names[i].coordinate) && names[i] == sheet.CellAt(names[i].coordinate)
            && names[i].coordinate.col == found.coordinate.col && names[i].value != "")
      && (forall i :: 0 < i < |names| ==> names[i].coordinate.row == names[i - 1].coordinate.row + 1)
      && var above := Coordinate(names[0].coordinate.row - 1, found.coordinate.col);
      sheet.InSheet(above) && sheet.ValueAt(above) == ""
  {
    var start := NameSearchStart(a);
    MovesCommute(a.tableI[0].coordinate, -2, 1);
    FirstNonEmptyFromMeaning(sheet, start, North);
    var found := FirstNonEmptyFrom(sheet, start, North).value;
    var steps: nat :| FoundAfter(sheet, start, North, steps, Ok(found));
    WalkStep(start, North, steps);
    EmptinessNotions(found.value);
    RunFromMeaning(sheet, found.coordinate, North);
    var names := SubdivisionsSpec(sheet, a).value;
    var k: nat :| RunEndsAfter(sheet, found.coordinate, North, k, Ok(names));
    assert 0 < k by {
      assert sheet.InSheet(Walk(found.coordinate, North, 0));
    }
    forall i | 0 <= i < k
      ensures RunPosition(found.coordinate, North, k, i) == Coordinate(found.coordinate.row - (k - 1 - i), found.coordinate.col)
    {
    }
    assert Walk(found.coordinate, North, k) == Coordinate(names[0].coordinate.row - 1, found.coordinate.col);
  }

  /** The "LIST KECAMATAN" block. */
  method ListSubdivisions(sheet: Sheet, a: Anchors) returns (r: Result<seq<Cell>, LocateError>)
    requires sheet.Valid()
    ensures r == SubdivisionsSpec(sheet, a)
  {
    if 0 < |a.tableI| {
      var topleft := FindFirstNonEmptyFrom(sheet, NameSearchStart(a), North);
      if topleft.Err? {
        return Err(ReadFailed(topleft.error));
      }
      var names := VConsecutiveNonEmpty(sheet, topleft.value.coordinate, North);
      if names.Err? {
        return Err(ReadFailed(names.error));
      }
      return Ok(names.value);
    }
    return Ok([]);
  }
}
