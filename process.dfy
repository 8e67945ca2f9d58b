/** The part of `process_file` that ties the locator together: which sheet it
    reads, the per-subdivision loop that turns table ranges into matrices, the
    counts of the data-quality summary row and the name of the table-I CSV. */
module Process {
  import opened Outcomes
  import opened Sheets
  import opened Extract
  import opened Locate

  // ------------------------------------------------------------------------
  // Sheet selection
  // ------------------------------------------------------------------------

  /** The sheet the tables are expected on. */
  const ModelSheetName: string := "Model DA"

  /** The position of the first sheet called `name`, if any. */
  function IndexOf(names: seq<string>, name: string): (r: Option<nat>)
    ensures r.None? <==> name !in names
    ensures r.Some? ==> r.value < |names| && names[r.value] == name && name !in names[..r.value]
  {
    if |names| == 0 then None
    else if names[0] == name then Some(0)
    else match IndexOf(names[1..], name)
      case None => None
      case Some(i) =>
        assert names[..i + 1] == [names[0]] + names[1..][..i];
        Some(i + 1)
  }

  /** The sheet `process_file` reads: the one called "Model DA"; failing that
      the second sheet when there are two or more, else the first; a workbook
      without sheets has none to read. */
  function SelectSheet(names: seq<string>): (r: Option<nat>)
    ensures r.None? <==> |names| == 0
    ensures r.Some? ==> r.value < |names|
    ensures ModelSheetName in names ==> r.Some? && names[r.value] == ModelSheetName && ModelSheetName !in names[..r.value]
    ensures ModelSheetName !in names && 2 <= |names| ==> r == Some(1)
    ensures ModelSheetName !in names && |names| == 1 ==> r == Some(0)
  {
    match IndexOf(names, ModelSheetName)
    case Some(i) => Some(i)
    case None => if 2 <= |names| then Some(1) else if |names| == 1 then Some(0) else None
  }

  // ------------------------------------------------------------------------
  // Tables
  // ------------------------------------------------------------------------

  /** The raw matrices of one subdivision's four tables, with its name. */
  datatype SubdivisionTables = SubdivisionTables(
    name: string, tableI: seq<seq<string>>, tableII: seq<seq<string>>,
    tableIII: seq<seq<string>>, party: seq<seq<string>>)

  predicate AllReadable(sheet: Sheet, ranges: seq<TableRanges>) {
    forall k :: 0 <= k < |ranges| ==>
      sheet.Readable(ranges[k].tableI) && sheet.Readable(ranges[k].tableII)
      && sheet.Readable(ranges[k].tableIII) && sheet.Readable(ranges[k].party)
  }

  /** What the loop builds for subdivision `k`. */
  function TablesAt(sheet: Sheet, names: seq<Cell>, ranges: seq<TableRanges>, k: nat): SubdivisionTables
    requires sheet.Valid() && AllReadable(sheet, ranges) && k < |names| && k < |ranges|
  {
    SubdivisionTables(names[k].value,
      Matrix(sheet, ranges[k].tableI), Matrix(sheet, ranges[k].tableII),
      Matrix(sheet, ranges[k].tableIII), Matrix(sheet, ranges[k].party))
  }

  /** The "TABLEs / DATAFRAMEs" loop: one entry per subdivision name that has
      a block of tables; names beyond the number of blocks are skipped. */
  method ExtractTables(sheet: Sheet, names: seq<Cell>, ranges: seq<TableRanges>) returns (tables: seq<SubdivisionTables>)
    requires sheet.Valid() && AllReadable(sheet, ranges)
    ensures |tables| == Min(|names|, |ranges|)
    ensures forall k :: 0 <= k < |tables| ==> tables[k] == TablesAt(sheet, names, ranges, k)
  {
    tables := [];
    for k := 0 to |names|
      invariant |tables| == Min(k, |ranges|)
      invariant forall j :: 0 <= j < |tables| ==> tables[j] == TablesAt(sheet, names, ranges, j)
    {
      if k > |ranges| - 1 {
        continue;
      }
      var tableI := BuildMatrix(sheet, ranges[k].tableI);
      var tableII := BuildMatrix(sheet, ranges[k].tableII);
      var tableIII := BuildMatrix(sheet, ranges[k].tableIII);
      var party := BuildMatrix(sheet, ranges[k].party);
      tables := tables + [SubdivisionTables(names[k].value, tableI.value, tableII.value, tableIII.value, party.value)];
    }
  }

  // ------------------------------------------------------------------------
  // The whole flow
  // ------------------------------------------------------------------------

  /** The sheet names of a workbook and the sheets themselves. */
  datatype Workbook = Workbook(names: seq<string>, sheets: seq<Sheet>) {
    predicate Valid() {
      |names| == |sheets| && forall i :: 0 <= i < |sheets| ==> sheets[i].Valid()
    }
  }

  /** The counts of the data-quality summary row, after the file name. */
  datatype Summary = Summary(sheets: nat, subdivisions: nat, tableI: nat, tableII: nat, tableIII: nat, party: nat)

  datatype Located = Located(summary: Summary, tables: seq<SubdivisionTables>)

  /** Every range derived from the corners lies in the sheet. */
  lemma RangesReadable(sheet: Sheet, a: Anchors, corners: seq<Corners>, ranges: seq<TableRanges>)
    requires Arranged(sheet, a) && CornersSpec(sheet, a) == Ok(corners)
    requires |corners| <= |a.tableII| && |corners| <= |a.tableIII| && |corners| <= |a.party|
    requires |ranges| == |corners| && forall k :: 0 <= k < |ranges| ==> ranges[k] == RangesAt(a, corners, k)
    ensures AllReadable(sheet, ranges)
  {
    forall k | 0 <= k < |ranges|
      ensures sheet.Readable(ranges[k].tableI) && sheet.Readable(ranges[k].tableII)
      && sheet.Readable(ranges[k].tableIII) && sheet.Readable(ranges[k].party)
    {
      CornersMeaning(sheet, a, k, TableI);
      CornersMeaning(sheet, a, k, TableII);
      CornersMeaning(sheet, a, k, TableIII);
      CornersMeaning(sheet, a, k, Party);
    }
  }

  /** The ranges loop as a value. */
  function RangesOf(a: Anchors, corners: seq<Corners>): (ranges: seq<TableRanges>)
    requires |corners| == |a.tableI| <= |a.tableII| && |a.tableI| <= |a.tableIII| && |a.tableI| <= |a.party|
    ensures |ranges| == |corners| && forall k :: 0 <= k < |ranges| ==> ranges[k] == RangesAt(a, corners, k)
  {
    seq(|corners|, k requires 0 <= k < |corners| => RangesAt(a, corners, k))
  }

  /** The tables of a sheet whose anchors are `a`: corners, ranges, subdivision
      names, one set of matrices per subdivision that has tables, and the
      counts of the summary row of a workbook with `sheets` sheets. */
  function BlocksSpec(sheet: Sheet, a: Anchors, sheets: nat): Result<Located, LocateError>
    requires Arranged(sheet, a)
  {
    match CornersSpec(sheet, a)
    case Err(e) => Err(e)
    case Ok(corners) =>
      var ranges := RangesOf(a, corners);
      RangesReadable(sheet, a, corners, ranges);
      match SubdivisionsSpec(sheet, a)
      case Err(e) => Err(e)
      case Ok(names) =>
        Ok(Located(
          Summary(sheets, |names|, |a.tableI|, |a.tableII|, |a.tableIII|, |a.party|),
          seq(Min(|names|, |ranges|), k requires 0 <= k < Min(|names|, |ranges|) => TablesAt(sheet, names, ranges, k))))
  }

  /** Specification of `process_file` up to the table-I CSV, without the pandas
      clean-up: select the sheet, find its anchors, then `BlocksSpec`. */
  function LocateSpec(book: Workbook): Result<Located, LocateError>
    requires book.Valid()
  {
    match SelectSheet(book.names)
    case None => Err(NoSheet)
    case Some(i) =>
      var sheet := book.sheets[i];
      match AnchorsSpec(sheet)
      case Err(e) => Err(e)
      case Ok(a) =>
        AnchoredArranged(sheet, a);
        BlocksSpec(sheet, a, |book.sheets|)
  }

  /** Everything `process_file` does with the anchors of its sheet, up to the
      counts of the summary row. */
  method LocateBlocks(sheet: Sheet, a: Anchors, sheets: nat) returns (r: Result<Located, LocateError>)
    requires Arranged(sheet, a)
    ensures r == BlocksSpec(sheet, a, sheets)
    ensures r.Ok? ==> |r.value.tables| == Min(r.value.summary.subdivisions, r.value.summary.tableI)
  {
    var corners := DeriveCorners(sheet, a);
    if corners.Err? {
      return Err(corners.error);
    }
    var ranges := BuildRanges(a, corners.value);
    RangesReadable(sheet, a, corners.value, ranges);
    var names := ListSubdivisions(sheet, a);
    if names.Err? {
      return Err(names.error);
    }
    var tables := ExtractTables(sheet, names.value, ranges);
    var summary := Summary(sheets, |names.value|, |a.tableI|, |a.tableII|, |a.tableIII|, |a.party|);
    assert ranges == RangesOf(a, corners.value);
    assert tables == seq(Min(|names.value|, |ranges|), k requires 0 <= k < Min(|names.value|, |ranges|) =>
      TablesAt(sheet, names.value, ranges, k));
    return Ok(Located(summary, tables));
  }

  /** `process_file` from opening the workbook to the tables, and the counts
      it writes to the summary row. */
  method LocateTables(book: Workbook) returns (r: Result<Located, LocateError>)
    requires book.Valid()
    ensures r == LocateSpec(book)
    ensures r.Ok? ==> r.value.summary.sheets == |book.sheets|
    ensures r.Ok? ==> |r.value.tables| == Min(r.value.summary.subdivisions, r.value.summary.tableI)
  {
    var index := SelectSheet(book.names);
    if index.None? {
      return Err(NoSheet);
    }
    var sheet := book.sheets[index.value];
    var anchors := FindAnchors(sheet);
    if anchors.Err? {
      return Err(anchors.error);
    }
    AnchoredArranged(sheet, anchors.value);
    r := LocateBlocks(sheet, anchors.value, |book.sheets|);
  }

  // ------------------------------------------------------------------------
  // The table-I CSV name
  // ------------------------------------------------------------------------

  /** Python's `s.rfind(ch)`: the last position of `ch` in `s`, or -1. */
  function LastIndexOf(s: string, ch: char): (i: int)
    ensures -1 <= i < |s|
    ensures i == -1 <==> ch !in s
    ensures 0 <= i ==> s[i] == ch && ch !in s[i + 1..]
  {
    if |s| == 0 then -1
    else if s[|s| - 1] == ch then |s| - 1
    else
      var i := LastIndexOf(s[..|s| - 1], ch);
      assert s == s[..|s| - 1] + [s[|s| - 1]];
      i
  }

  /** Python's `s[start:]` for `-1 <= start`: a start of -1 keeps the last
      character only. */
  function SliceFrom(s: string, start: int): string
    requires -1 <= start <= |s|
  {
    if 0 <= start then s[start..]
    else if |s| == 0 then ""
    else s[|s| - 1..]
  }

  const TableISuffix: string := ".table_i.csv"

  /** The table-I CSV name: the source path from its last '/' on, then the suffix. */
  function TableICsvName(path: string): string {
    SliceFrom(path, LastIndexOf(path, '/')) + TableISuffix
  }

  /** With a '/' in the path, the name is '/' followed by the file's base name
      (the text after the last '/') and the suffix. */
  lemma TableICsvNameOfPath(path: string)
    requires '/' in path
    ensures exists dir, base ::
      (path == dir + "/" + base && '/' !in base && TableICsvName(path) == "/" + base + TableISuffix)
  {
    var i := LastIndexOf(path, '/');
    var dir, base := path[..i], path[i + 1..];
    assert TableICsvName(path) == path[i..] + TableISuffix;
    SplitAt(path, i);
    assert path[i..] == "/" + base;
  }

  /** A string is its text before `i`, its character at `i`, and its text after `i`. */
  lemma SplitAt(s: string, i: nat)
    requires i < |s|
    ensures s[i..] == [s[i]] + s[i + 1..]
    ensures s == s[..i] + [s[i]] + s[i + 1..]
  {
    assert s == s[..i] + s[i..];
  }

  /** Without a '/', `rfind` answers -1 and the slice keeps only the last
      character of the path (nothing of an empty path). */
  lemma TableICsvNameOfBareName(path: string)
    requires '/' !in path
    ensures path != "" ==> TableICsvName(path) == [path[|path| - 1]] + TableISuffix
    ensures path == "" ==> TableICsvName(path) == TableISuffix
  {
  }
}
