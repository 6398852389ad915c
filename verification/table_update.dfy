/**
 The worksheet side of a table replacement: the data rows of an Excel table are
 deleted down to one anchor row, rows are inserted for the new data, the data is
 written row by row, and the catalog and the worksheet's table references follow
 the moved rows. Also the replacement of a whole sheet below its header row.
 */
module TableUpdate {
  import opened Strings
  import opened Cells
  import opened Outcomes
  import opened RangeCodec
  import opened Inventory
  import opened Resize
  import opened Frames

  /** A worksheet: its cells and the reference of each of its tables, by table name. */
  datatype Worksheet = Worksheet(grid: Grid, tables: map<string, string>)

  /** A workbook: its worksheets by sheet name. */
  type Workbook = map<string, Worksheet>

  /** A table the resize handles: a header row from row 1 on and at least one data row,
      as every Excel table has. */
  predicate Resizable(t: TableDesc) {
    1 <= t.startRow < t.endRow
  }

  /** The number of columns of a table, zero when its columns are reversed. */
  function Width(startCol: int, endCol: int): nat {
    if endCol < startCol then 0 else endCol - startCol + 1
  }

  /** The text of every cell, when every cell holds text. */
  function Texts(cells: seq<Value>): (r: Option<seq<string>>)
    ensures r.Some? <==> forall j :: 0 <= j < |cells| ==> cells[j].Text?
    ensures r.Some? ==> |r.value| == |cells| && forall j :: 0 <= j < |cells| ==> cells[j] == Text(r.value[j])
  {
    if cells == [] then Some([])
    else if !cells[0].Text? then None
    else
      match Texts(cells[1..])
      case None => None
      case Some(rest) => Some([cells[0].text] + rest)
  }

  /** The first row of a rectangle of cells, left to right. */
  function RowCells(g: Grid, r: int, left: int, width: nat): (cells: seq<Value>)
    ensures |cells| == width && forall j :: 0 <= j < width ==> cells[j] == CellAt(g, r, left + j)
  {
    seq(width, j => CellAt(g, r, left + j))
  }

  /** The cells of the first row of a table's range. */
  function HeaderCells(g: Grid, e: Extent): (cells: seq<Value>)
    ensures |cells| == Width(e.startCol, e.endCol)
    ensures forall j :: 0 <= j < |cells| ==> cells[j] == CellAt(g, e.startRow, e.startCol + j)
  {
    RowCells(g, e.startRow, e.startCol, Width(e.startCol, e.endCol))
  }

  /** The column labels `ws_table_to_df` (lines 206-219) gives a table: the cells of the
      first row of its current reference, which must hold text for `align_feed_data` to
      lower-case them (line 245). */
  function TableHeader(ws: Worksheet, name: string): (r: Result<seq<string>>)
    ensures name !in ws.tables ==> r == Err(TableNotFound(name))
    ensures name in ws.tables && DecodeRange(ws.tables[name]).Err? ==> r == Err(MalformedRange(ws.tables[name]))
    ensures r.Ok? <==> (name in ws.tables && DecodeRange(ws.tables[name]).Ok? &&
      var e := DecodeRange(ws.tables[name]).value;
      var cells := HeaderCells(ws.grid, e);
      e.startRow <= e.endRow && forall j :: 0 <= j < |cells| ==> cells[j].Text?)
    ensures r.Ok? ==> var e := DecodeRange(ws.tables[name]).value;
      var cells := HeaderCells(ws.grid, e);
      |r.value| == |cells| && forall j :: 0 <= j < |cells| ==> cells[j] == Text(r.value[j])
  {
    if name !in ws.tables then Err(TableNotFound(name))
    else
      var e :- DecodeRange(ws.tables[name]);
      if e.startRow > e.endRow then Err(EmptyTableRange(name))
      else
        match Texts(HeaderCells(ws.grid, e))
        case None => Err(NonTextHeader(name))
        case Some(header) => Ok(header)
  }

  /** Table names that no two catalog rows share, as the validation pass expects. */
  predicate UniqueNames(cat: Catalog) {
    forall a, b :: 0 <= a < b < |cat| ==> cat[a].name != cat[b].name
  }

  /** A worksheet table that no catalog row of `sheet` names. */
  predicate Uncatalogued(cat: Catalog, sheet: string, n: string) {
    forall j :: 0 <= j < |cat| && cat[j].sheet == sheet ==> cat[j].name != n
  }

  // ---------------------------------------------------------------- cells

  /** Lines 337-339: `None` written into one row across a table's columns. */
  function ClearCells(g: Grid, r: int, startCol: int, endCol: int): (g': Grid)
    requires r >= 1 && startCol >= 1
    ensures forall r', c :: CellAt(g', r', c) == if r' == r && startCol <= c <= endCol then Empty else CellAt(g, r', c)
  {
    WriteRow(g, r, startCol, seq(Width(startCol, endCol), _ => Empty))
  }

  /** The cell (r, c) after the data of table `t` is removed: the header and the rows above
      it stay, the anchor row under the header is blank across the table's columns and
      holds the table's last row elsewhere, and the rows further down move up by the
      number of rows removed. */
  function RemovedCell(g: Grid, t: TableDesc, r: int, c: int): Value {
    if r == t.startRow + 1 && t.startCol <= c <= t.endCol then Empty
    else if r <= t.startRow then CellAt(g, r, c)
    else CellAt(g, r + RowsRemoved(t), c)
  }

  /** The worksheet side of `remove_data_from_xl_table` (lines 306-339): every data row but
      one is deleted below the header, and the row left under the header is cleared across
      the table's columns. */
  method RemoveData(g: Grid, t: TableDesc) returns (g': Grid)
    requires Resizable(t) && t.startCol >= 1
    ensures forall r, c :: CellAt(g', r, c) == RemovedCell(g, t, r, c)
  {
    var k := RowsRemoved(t);
    g' := g;
    if k != 0 {
      g' := DeleteRows(g, t.startRow + 1, k);
    }
    g' := ClearCells(g', t.startRow + 1, t.startCol, t.endCol);
  }

  /** The cell (r, c) after `rows` is added under the header with the anchor row at `top`:
      the rows above stay, the data fills `width` columns from `left`, the anchor row
      keeps its other cells, the inserted rows are blank elsewhere, and the rows below
      move down by the number of rows inserted. */
  function AddedCell(g: Grid, top: int, left: int, rows: seq<Row>, width: nat, r: int, c: int): Value
    requires forall i :: 0 <= i < |rows| ==> |rows[i]| >= width
  {
    if r < top then CellAt(g, r, c)
    else if r < top + |rows| then
      if left <= c < left + width then rows[r - top][c - left]
      else if r == top then CellAt(g, r, c)
      else Empty
    else CellAt(g, r - (|rows| - 1), c)
  }

  /** The worksheet side of `add_data_to_xl_table` (lines 357-402) with the anchor row at
      `top`: one row is inserted under it for every data row after the first, and row i of
      the data is written from column `left` into row top + i. */
  method AddData(g: Grid, top: int, left: int, rows: seq<Row>, width: nat) returns (g': Grid)
    requires top >= 1 && left >= 1 && |rows| >= 1
    requires forall i :: 0 <= i < |rows| ==> |rows[i]| >= width
    ensures forall r, c :: CellAt(g', r, c) == AddedCell(g, top, left, rows, width, r, c)
  {
    var n := |rows| - 1;
    g' := g;
    if n != 0 {
      g' := InsertRows(g, top + 1, n);
    }
    g' := WriteBlock(g', top, left, rows, width);
  }

  /** The cell (r, c) after table `t` is emptied down to its anchor row and refilled with
      `rows`, `width` columns of each from the table's first column: the header and the
      rows above stay; the new rows hold the data in those columns, the table's old last
      row beside the table in the anchor row, and nothing elsewhere; the rows below the
      table move by the change in its height. */
  function ResizedCell(g: Grid, t: TableDesc, rows: seq<Row>, width: nat, r: int, c: int): Value
    requires forall i :: 0 <= i < |rows| ==> |rows[i]| >= width
  {
    var s := t.startRow;
    if r <= s then CellAt(g, r, c)
    else if r <= s + |rows| then
      if t.startCol <= c < t.startCol + width then rows[r - s - 1][c - t.startCol]
      else if r == s + 1 && !(t.startCol <= c <= t.endCol) then CellAt(g, t.endRow, c)
      else Empty
    else CellAt(g, r - |rows| + (t.endRow - s), c)
  }

  /** The removal followed by the addition, with the anchor row under the header. */
  method ResizeGrid(g: Grid, t: TableDesc, rows: seq<Row>, width: nat) returns (g': Grid)
    requires Resizable(t) && t.startCol >= 1
    requires |rows| >= 1 && forall k :: 0 <= k < |rows| ==> |rows[k]| >= width
    ensures forall r, c :: CellAt(g', r, c) == ResizedCell(g, t, rows, width, r, c)
  {
    var removed := RemoveData(g, t);
    g' := AddData(removed, t.startRow + 1, t.startCol, rows, width);
    ResizedCells(g, removed, g', t, rows, width);
  }

  /** What the removal and the addition do to the cells, composed. */
  lemma {:induction false} ResizedCells(g: Grid, removed: Grid, added: Grid, t: TableDesc, rows: seq<Row>, width: nat)
    requires forall k :: 0 <= k < |rows| ==> |rows[k]| >= width
    requires Resizable(t)
    requires forall r, c :: CellAt(removed, r, c) == RemovedCell(g, t, r, c)
    requires forall r, c :: CellAt(added, r, c) == AddedCell(removed, t.startRow + 1, t.startCol, rows, width, r, c)
    ensures forall r, c :: CellAt(added, r, c) == ResizedCell(g, t, rows, width, r, c)
  {
    forall r, c ensures CellAt(added, r, c) == ResizedCell(g, t, rows, width, r, c) {
      var s := t.startRow;
      if r > s + |rows| {
        assert CellAt(added, r, c) == CellAt(removed, r - (|rows| - 1), c);
        assert CellAt(removed, r - (|rows| - 1), c) == CellAt(g, r - |rows| + (t.endRow - s), c);
      } else if r == s + 1 {
        assert CellAt(removed, r, c) == RemovedCell(g, t, r, c);
      }
    }
  }

  // ---------------------------------------------------------------- table references

  /** The catalog's rows may be encoded, so the refresh loops may run over the resized catalog. */
  lemma {:induction false} ResizedEncodable(cat: Catalog, resized: Catalog, sheet: string, pivot: int)
    requires ColumnsNamed(cat) && |resized| == |cat|
    requires forall j :: 0 <= j < |cat| ==> SameTable(resized[j], cat[j])
    ensures RefreshEncodable(resized, sheet, pivot)
  {
    assert forall j :: 0 <= j < |cat| ==> ExtentOf(resized[j]).startCol == ExtentOf(cat[j]).startCol;
    assert forall j :: 0 <= j < |cat| ==> ExtentOf(resized[j]).endCol == ExtentOf(cat[j]).endCol;
  }

  /** The refresh leaves alone a worksheet table that no catalog row of the sheet names. */
  lemma {:induction false} SyncSkipsUncatalogued(refs: map<string, string>, cat: Catalog, resized: Catalog, sheet: string, pivot: int, n: string)
    requires |resized| == |cat| && forall j :: 0 <= j < |cat| ==> SameTable(resized[j], cat[j])
    requires RefreshEncodable(resized, sheet, pivot)
    requires n in refs && Uncatalogued(cat, sheet, n)
    ensures SyncRefs(refs, resized, sheet, pivot)[n] == refs[n]
  {
    if RefreshedName(resized, sheet, pivot, n) {
      assert false;
    }
  }

  /** The two refreshes of the worksheet's table references (lines 320-334 after the
      removal, lines 371-385 after the addition), each run only when its rows moved. */
  method ResizeTables(refs: map<string, string>, cat: Catalog, i: nat, count: nat) returns (r: map<string, string>)
    requires i < |cat| && ColumnsNamed(cat) && Locate(cat, cat[i].name) == Ok(i)
    ensures RefsReplaced(refs, cat, i, count, r)
  {
    var t := cat[i];
    var shrunk := Shrink(cat, t);
    var grown := Grow(shrunk, shrunk[i], count);
    assert ReplaceCatalog(cat, t.name, count) == Ok(grown);
    ResizedEncodable(cat, shrunk, t.sheet, t.startRow);
    ResizedEncodable(cat, grown, t.sheet, t.startRow);
    var removed := refs;
    if RowsRemoved(t) != 0 {
      removed := SyncRefs(refs, shrunk, t.sheet, t.startRow);
      forall n | n in refs && !RefreshedName(cat, t.sheet, t.startRow, n) ensures removed[n] == refs[n] {
        ResizeRefreshesNoOther(cat, i, count, n);
      }
    }
    r := removed;
    if count - 1 != 0 {
      r := SyncRefs(removed, grown, t.sheet, t.startRow);
      forall n | n in refs && !RefreshedName(cat, t.sheet, t.startRow, n) ensures r[n] == removed[n] {
        ResizeRefreshesNoOther(cat, i, count, n);
      }
    }
    if UniqueNames(cat) && (RowsRemoved(t) != 0 || count != 1) {
      assert UniqueNames(grown) by {
        assert forall j :: 0 <= j < |cat| ==> grown[j].name == cat[j].name;
      }
      if count - 1 != 0 {
        SyncUniqueNames(removed, grown, t.sheet, t.startRow);
      } else {
        SyncUniqueNames(refs, shrunk, t.sheet, t.startRow);
      }
    }
  }

  /** After a replacement whose refresh rewrote the sheet's ranges, the replaced table's
      reference, if the worksheet holds it, decodes to its header row through its last
      new data row. */
  lemma {:induction false} ReplacedRef(refs': map<string, string>, cat: Catalog, i: nat, count: nat)
    requires i < |cat| && Resizable(cat[i]) && ColumnsNamed(cat) && Locate(cat, cat[i].name) == Ok(i)
    requires RangesWritten(refs', ReplaceCatalog(cat, cat[i].name, count).value, cat[i].sheet, cat[i].startRow)
    requires cat[i].name in refs'
    ensures var d := DecodeRange(refs'[cat[i].name]);
      d.Ok? && d.value.startRow == cat[i].startRow && d.value.endRow == cat[i].startRow + count &&
      d.value.startCol == cat[i].startCol && d.value.endCol == cat[i].endCol
  {
    var t := cat[i];
    var cat' := ReplaceCatalog(cat, t.name, count).value;
    ReplaceTarget(cat, t.name, count, i);
    assert cat'[i] == t.(endRow := t.startRow + count);
    RowDecodes(refs', cat', t.sheet, t.startRow, i, t.name, Extent(t.startRow, t.startRow + count, t.startCol, t.endCol));
  }

  /** A refreshed row of a catalog whose ranges the refresh wrote has a reference that
      decodes to the row's extent. */
  lemma {:induction false} RowDecodes(refs': map<string, string>, cat': Catalog, sheet: string, pivot: int, j: nat, name: string, e: Extent)
    requires ColumnsNamed(cat') && RangesWritten(refs', cat', sheet, pivot)
    requires j < |cat'| && Refreshed(cat'[j], sheet, pivot) && cat'[j].name == name && name in refs'
    requires ExtentOf(cat'[j]) == e && e.startRow >= 1 && e.endRow >= 1
    ensures DecodeRange(refs'[name]) == Ok(e)
  {
    RangeWritten(refs', cat', sheet, pivot, j);
    DecodesTo(refs'[name], e);
  }

  /** A reference written from a decodable extent decodes to it. */
  lemma {:induction false} DecodesTo(ref: string, e: Extent)
    requires Decodable(e) && ref == EncodeRange(e)
    ensures DecodeRange(ref) == Ok(e)
  {
    RangeRoundTrip(e);
  }

  /** One row of a catalog whose ranges the refresh wrote. */
  lemma {:induction false} RangeWritten(refs': map<string, string>, cat': Catalog, sheet: string, pivot: int, j: nat)
    requires ColumnsNamed(cat') && RangesWritten(refs', cat', sheet, pivot)
    requires j < |cat'| && Refreshed(cat'[j], sheet, pivot) && cat'[j].name in refs'
    ensures refs'[cat'[j].name] == EncodeRange(ExtentOf(cat'[j]))
  {
  }

  // ---------------------------------------------------------------- replacement

  /** The checks `replace_table_data` makes on the table's worksheet (lines 506-512): the
      header is read and the data aligned to it; the write loop's `iloc` then fails when
      the table's columns outnumber the aligned ones (line 402). Gives the aligned data. */
  function ReplaceCheck(ws: Worksheet, t: TableDesc, data: Frame): (r: Result<Frame>)
    requires Rectangular(data)
    ensures TableHeader(ws, t.name).Err? ==> r == Err(TableHeader(ws, t.name).error)
    ensures TableHeader(ws, t.name).Ok? && Align(TableHeader(ws, t.name).value, data).Err? ==>
      r == Err(Align(TableHeader(ws, t.name).value, data).error)
    ensures r.Ok? <==> (TableHeader(ws, t.name).Ok? && Align(TableHeader(ws, t.name).value, data).Ok? &&
      Width(t.startCol, t.endCol) <= |TableHeader(ws, t.name).value|)
    ensures r.Err? && TableHeader(ws, t.name).Ok? && Align(TableHeader(ws, t.name).value, data).Ok? ==>
      r.error == DataIndexOutOfRange(t.name)
    ensures r.Ok? ==> Rectangular(r.value) && |r.value.rows| == |data.rows| && r.value.columns == TableHeader(ws, t.name).value
  {
    var header :- TableHeader(ws, t.name);
    var aligned :- Align(header, data);
    if Width(t.startCol, t.endCol) > |aligned.columns| then Err(DataIndexOutOfRange(t.name)) else Ok(aligned)
  }

  /** The cells of table `t` after it is emptied and refilled with `rows`, as `ResizedCell`
      gives them. */
  ghost predicate GridReplaced(g: Grid, t: TableDesc, rows: seq<Row>, g': Grid) {
    && (forall k :: 0 <= k < |rows| ==> |rows[k]| >= Width(t.startCol, t.endCol))
    && forall r, c :: CellAt(g', r, c) == ResizedCell(g, t, rows, Width(t.startCol, t.endCol), r, c)
  }

  /** Every refreshed table of `cat'` that the worksheet holds has its catalog range. */
  predicate RangesWritten(refs': map<string, string>, cat': Catalog, sheet: string, pivot: int)
    requires ColumnsNamed(cat')
  {
    forall j :: 0 <= j < |cat'| && Refreshed(cat'[j], sheet, pivot) && cat'[j].name in refs' ==>
      refs'[cat'[j].name] == EncodeRange(ExtentOf(cat'[j]))
  }

  /** The table references after table `cat[i]` is resized to `count` data rows: the names
      kept, nothing changed when no rows moved, a table that no catalog row of the sheet
      from the target's header down names left alone, and with unique names every
      refreshed table holding its new catalog range. */
  predicate RefsReplaced(refs: map<string, string>, cat: Catalog, i: nat, count: nat, refs': map<string, string>)
    requires i < |cat| && ColumnsNamed(cat) && Named(cat, cat[i].name)
  {
    && refs'.Keys == refs.Keys
    && (RowsRemoved(cat[i]) == 0 && count == 1 ==> refs' == refs)
    && (forall n :: n in refs && !RefreshedName(cat, cat[i].sheet, cat[i].startRow, n) ==> refs'[n] == refs[n])
    && (UniqueNames(cat) && (RowsRemoved(cat[i]) != 0 || count != 1) ==>
      RangesWritten(refs', ReplaceCatalog(cat, cat[i].name, count).value, cat[i].sheet, cat[i].startRow))
  }

  /** With unique names, a catalogued table the refresh does not rewrite keeps its
      reference: a table of another sheet, or one that starts above the target. */
  lemma {:induction false} KeptRef(refs: map<string, string>, cat: Catalog, i: nat, count: nat, refs': map<string, string>, j: nat)
    requires i < |cat| && ColumnsNamed(cat) && Named(cat, cat[i].name)
    requires RefsReplaced(refs, cat, i, count, refs') && UniqueNames(cat)
    requires j < |cat| && !Refreshed(cat[j], cat[i].sheet, cat[i].startRow) && cat[j].name in refs
    ensures refs'[cat[j].name] == refs[cat[j].name]
  {
    if RefreshedName(cat, cat[i].sheet, cat[i].startRow, cat[j].name) {
      assert false;
    }
  }

  /** A worksheet table that no catalog row of the sheet names keeps its reference. */
  lemma {:induction false} UncataloguedKept(refs: map<string, string>, cat: Catalog, i: nat, count: nat, refs': map<string, string>, n: string)
    requires i < |cat| && ColumnsNamed(cat) && Named(cat, cat[i].name)
    requires RefsReplaced(refs, cat, i, count, refs')
    requires n in refs && Uncatalogued(cat, cat[i].sheet, n)
    ensures refs'[n] == refs[n]
  {
    if RefreshedName(cat, cat[i].sheet, cat[i].startRow, n) {
      assert false;
    }
  }

  /** The removal and the addition on the worksheet of the table at catalog row `i`, with
      the catalog and the table references following the moved rows. */
  method ResizeTable(ws: Worksheet, cat: Catalog, i: nat, aligned: Frame) returns (ws': Worksheet, cat': Catalog)
    requires Rectangular(aligned) && |aligned.rows| >= 1 && ColumnsNamed(cat)
    requires i < |cat| && Resizable(cat[i]) && Locate(cat, cat[i].name) == Ok(i)
    requires Width(cat[i].startCol, cat[i].endCol) <= |aligned.columns|
    ensures ReplaceCatalog(cat, cat[i].name, |aligned.rows|) == Ok(cat')
    ensures GridReplaced(ws.grid, cat[i], aligned.rows, ws'.grid)
    ensures RefsReplaced(ws.tables, cat, i, |aligned.rows|, ws'.tables)
  {
    var t := cat[i];
    var grid := ResizeGrid(ws.grid, t, aligned.rows, Width(t.startCol, t.endCol));
    var tables := ResizeTables(ws.tables, cat, i, |aligned.rows|);
    assert Named(cat, t.name);
    ws' := Worksheet(grid, tables);
    cat' := ReplaceCatalog(cat, t.name, |aligned.rows|).value;
  }

  /** Worksheet `ws'` and catalog `cat'` are `ws` and `cat` after the table at catalog row
      `i` took the `rows` aligned from the feed: the catalog resized, the cells replaced
      and the references moved. */
  ghost predicate SheetRewritten(ws: Worksheet, cat: Catalog, i: nat, rows: seq<Row>, ws': Worksheet, cat': Catalog)
    requires i < |cat| && ColumnsNamed(cat) && Named(cat, cat[i].name)
  {
    && ReplaceCatalog(cat, cat[i].name, |rows|) == Ok(cat')
    && GridReplaced(ws.grid, cat[i], rows, ws'.grid)
    && RefsReplaced(ws.tables, cat, i, |rows|, ws'.tables)
  }

  /** Workbook `wb'` and catalog `cat'` are `wb` and `cat` after the table at catalog row
      `i` took `rows`: its sheet is rewritten and every other sheet is left as it was. */
  ghost predicate WorkbookRewritten(wb: Workbook, cat: Catalog, i: nat, rows: seq<Row>, wb': Workbook, cat': Catalog)
    requires i < |cat| && ColumnsNamed(cat) && Named(cat, cat[i].name)
  {
    var sheet := cat[i].sheet;
    && sheet in wb && sheet in wb'
    && wb'.Keys == wb.Keys
    && (forall s :: s in wb && s != sheet ==> wb'[s] == wb[s])
    && SheetRewritten(wb[sheet], cat, i, rows, wb'[sheet], cat')
  }

  /** Storing a rewritten worksheet under its sheet name rewrites the workbook. */
  lemma {:induction false} StoredSheet(wb: Workbook, cat: Catalog, i: nat, rows: seq<Row>, ws: Worksheet, cat': Catalog)
    requires i < |cat| && ColumnsNamed(cat) && Named(cat, cat[i].name) && cat[i].sheet in wb
    requires SheetRewritten(wb[cat[i].sheet], cat, i, rows, ws, cat')
    ensures WorkbookRewritten(wb, cat, i, rows, wb[cat[i].sheet := ws], cat')
  {
    var wb' := wb[cat[i].sheet := ws];
    assert wb'[cat[i].sheet] == ws && wb'.Keys == wb.Keys;
  }

  /** The part of `replace_table_data` (lines 506-515) that works on the worksheet of the
      table at catalog row `i`. */
  method ReplaceInSheet(ws: Worksheet, cat: Catalog, i: nat, data: Frame) returns (r: Result<(Worksheet, Catalog)>)
    requires Rectangular(data) && |data.rows| >= 1 && ColumnsNamed(cat)
    requires i < |cat| && Resizable(cat[i]) && Locate(cat, cat[i].name) == Ok(i)
    ensures r.Err? <==> ReplaceCheck(ws, cat[i], data).Err?
    ensures r.Err? ==> r.error == ReplaceCheck(ws, cat[i], data).error
    ensures r.Ok? ==> Named(cat, cat[i].name) && SheetRewritten(ws, cat, i, ReplaceCheck(ws, cat[i], data).value.rows, r.value.0, r.value.1)
  {
    var check := ReplaceCheck(ws, cat[i], data);
    if check.Err? {
      return Err(check.error);
    }
    var ws', cat' := ResizeTable(ws, cat, i, check.value);
    r := Ok((ws', cat'));
  }

  /** `replace_table_data` (lines 484-527): the table is looked up in the catalog, its sheet
      in the workbook, and the sheet's worksheet is rewritten. */
  method ReplaceTable(wb: Workbook, cat: Catalog, name: string, data: Frame) returns (r: Result<(Workbook, Catalog)>)
    requires Rectangular(data) && |data.rows| >= 1 && ColumnsNamed(cat)
    requires Locate(cat, name).Ok? ==> Resizable(cat[Locate(cat, name).value])
    ensures !Named(cat, name) ==> r == Err(TableNotFound(name))
    ensures Named(cat, name) ==> var i := Locate(cat, name).value; var t := cat[i];
      && (t.sheet !in wb ==> r == Err(SheetNotFound(t.sheet)))
      && (t.sheet in wb ==> (r.Err? <==> ReplaceCheck(wb[t.sheet], t, data).Err?))
      && (t.sheet in wb && r.Err? ==> r.error == ReplaceCheck(wb[t.sheet], t, data).error)
    ensures r.Ok? ==> Named(cat, name) && var i := Locate(cat, name).value; var t := cat[i];
      && t.sheet in wb
      && WorkbookRewritten(wb, cat, i, ReplaceCheck(wb[t.sheet], t, data).value.rows, r.value.0, r.value.1)
  {
    var located := Locate(cat, name);
    if located.Err? {
      return Err(located.error);
    }
    r := ReplaceInWorkbook(wb, cat, located.value, data);
  }

  /** The part of `replace_table_data` (lines 495-527) after the table was found at
      catalog row `i`: its sheet is looked up in the workbook and rewritten. */
  method ReplaceInWorkbook(wb: Workbook, cat: Catalog, i: nat, data: Frame) returns (r: Result<(Workbook, Catalog)>)
    requires Rectangular(data) && |data.rows| >= 1 && ColumnsNamed(cat)
    requires i < |cat| && Resizable(cat[i]) && Locate(cat, cat[i].name) == Ok(i)
    ensures cat[i].sheet !in wb ==> r == Err(SheetNotFound(cat[i].sheet))
    ensures cat[i].sheet in wb ==> (r.Err? <==> ReplaceCheck(wb[cat[i].sheet], cat[i], data).Err?)
    ensures cat[i].sheet in wb && r.Err? ==> r.error == ReplaceCheck(wb[cat[i].sheet], cat[i], data).error
    ensures r.Ok? ==> var t := cat[i];
      && t.sheet in wb && Named(cat, t.name)
      && WorkbookRewritten(wb, cat, i, ReplaceCheck(wb[t.sheet], t, data).value.rows, r.value.0, r.value.1)
  {
    if cat[i].sheet !in wb {
      return Err(SheetNotFound(cat[i].sheet));
    }
    r := ReplaceInPresentSheet(wb, cat, i, data);
  }

  /** `ReplaceInWorkbook` once the table's sheet is known to be in the workbook. */
  method ReplaceInPresentSheet(wb: Workbook, cat: Catalog, i: nat, data: Frame) returns (r: Result<(Workbook, Catalog)>)
    requires Rectangular(data) && |data.rows| >= 1 && ColumnsNamed(cat)
    requires i < |cat| && Resizable(cat[i]) && Locate(cat, cat[i].name) == Ok(i) && cat[i].sheet in wb
    ensures r.Err? <==> ReplaceCheck(wb[cat[i].sheet], cat[i], data).Err?
    ensures r.Err? ==> r.error == ReplaceCheck(wb[cat[i].sheet], cat[i], data).error
    ensures r.Ok? ==> var t := cat[i];
      && Named(cat, t.name)
      && WorkbookRewritten(wb, cat, i, ReplaceCheck(wb[t.sheet], t, data).value.rows, r.value.0, r.value.1)
  {
    var sheet := cat[i].sheet;
    var replaced := ReplaceInSheet(wb[sheet], cat, i, data);
    if replaced.Err? {
      return Err(replaced.error);
    }
    var (ws, cat') := replaced.value;
    StoredSheet(wb, cat, i, ReplaceCheck(wb[sheet], cat[i], data).value.rows, ws, cat');
    r := Ok((wb[sheet := ws], cat'));
  }

  /** After a replacement, the new data fills the table's columns from the row under the
      header, each cell coming from the feed column whose label matches the header label
      without regard to case. */
  lemma {:induction false} ReplacedCell(header: seq<string>, data: Frame, t: TableDesc, g: Grid, g': Grid, i: nat, j: nat)
    requires Rectangular(data) && Align(header, data).Ok? && Width(t.startCol, t.endCol) <= |header|
    requires GridReplaced(g, t, Align(header, data).value.rows, g')
    requires i < |data.rows| && j < Width(t.startCol, t.endCol)
    ensures exists k :: (0 <= k < |data.columns| && Lower(data.columns[k]) == Lower(header[j]) &&
      CellAt(g', t.startRow + 1 + i, t.startCol + j) == data.rows[i][k])
  {
    var aligned := Align(header, data).value;
    AlignedCells(header, data);
    ResizedDataCell(g, t, aligned.rows, Width(t.startCol, t.endCol), g', i, j);
    var k :| 0 <= k < |data.columns| && Lower(data.columns[k]) == Lower(header[j]) && aligned.rows[i][j] == data.rows[i][k];
    assert CellAt(g', t.startRow + 1 + i, t.startCol + j) == data.rows[i][k];
  }

  /** Cell j of data row i lands in column j from the table's first column, i rows under
      the header. */
  lemma {:induction false} ResizedDataCell(g: Grid, t: TableDesc, rows: seq<Row>, width: nat, g': Grid, i: nat, j: nat)
    requires forall k :: 0 <= k < |rows| ==> |rows[k]| >= width
    requires forall r, c :: CellAt(g', r, c) == ResizedCell(g, t, rows, width, r, c)
    requires i < |rows| && j < width
    ensures CellAt(g', t.startRow + 1 + i, t.startCol + j) == rows[i][j]
  {
    assert CellAt(g', t.startRow + 1 + i, t.startCol + j) == ResizedCell(g, t, rows, width, t.startRow + 1 + i, t.startCol + j);
  }

  // ---------------------------------------------------------------- whole sheets

  /** `ws.max_row`: the last stored row, and 1 for a sheet with none. */
  function LastRow(g: Grid): (n: nat)
    ensures n >= 1 && n >= |g|
  {
    if |g| == 0 then 1 else |g|
  }

  /** `ws.max_column`: the widest stored row, and 1 for a sheet with none. */
  function LastColumn(g: Grid): (n: nat)
    ensures n >= 1 && forall r :: 0 <= r < |g| ==> n >= |g[r]|
    ensures n == 1 || exists r :: 0 <= r < |g| && n == |g[r]|
  {
    if g == [] then 1
    else
      var rest := LastColumn(g[1..]);
      assert forall r :: 1 <= r < |g| ==> g[r] == g[1..][r - 1];
      if |g[0]| > rest then |g[0]| else rest
  }

  /** The header row `replace_sheet_data` reads (line 555): row 1 from column 1 to the last. */
  function SheetHeader(g: Grid): (h: seq<Value>)
    ensures |h| == LastColumn(g) && forall j :: 0 <= j < |h| ==> h[j] == CellAt(g, 1, j + 1)
  {
    RowCells(g, 1, 1, LastColumn(g))
  }

  /** A header cell the data can supply: a text label among the data's columns. */
  predicate Supplied(v: Value, columns: seq<string>) {
    v.Text? && v.text in columns
  }

  /** The position of the first header cell the data cannot supply (lines 563-565). */
  function FirstMissing(header: seq<Value>, columns: seq<string>): (r: Option<nat>)
    ensures r.None? <==> forall j :: 0 <= j < |header| ==> Supplied(header[j], columns)
    ensures r.Some? ==> r.value < |header| && !Supplied(header[r.value], columns)
    ensures r.Some? ==> forall j :: 0 <= j < r.value ==> Supplied(header[j], columns)
  {
    if header == [] then None
    else if !Supplied(header[0], columns) then Some(0)
    else
      match FirstMissing(header[1..], columns)
      case None => None
      case Some(j) => Some(j + 1)
  }

  /** The cell (r, c) after the sheet is rewritten with `sel`: row 1 stays, the data fills
      the rows from 2 and the columns from 1, and every other cell below row 1 is empty. */
  function SheetCell(g: Grid, sel: Frame, r: int, c: int): Value
    requires Rectangular(sel)
  {
    if r <= 1 then CellAt(g, r, c)
    else if r - 2 < |sel.rows| && 1 <= c <= |sel.columns| then sel.rows[r - 2][c - 1]
    else Empty
  }

  /** `replace_sheet_data` (lines 543-571): the header row must be full and every label in
      it a column of the data; the data's columns are selected in header order, every row
      below the header is deleted and the selection is written from row 2. */
  method ReplaceSheet(wb: Workbook, sheet: string, data: Frame) returns (r: Result<Workbook>)
    requires Rectangular(data)
    ensures sheet !in wb ==> r == Err(SheetNotFound(sheet))
    ensures sheet in wb && Empty in SheetHeader(wb[sheet].grid) ==> r == Err(EmptyHeader(sheet))
    ensures sheet in wb && Empty !in SheetHeader(wb[sheet].grid) ==> var header := SheetHeader(wb[sheet].grid);
      match FirstMissing(header, data.columns)
      case Some(j) => r == Err(MissingSheetColumn(header[j]))
      case None => r.Ok?
    ensures r.Ok? ==> sheet in wb && r.value.Keys == wb.Keys
    ensures r.Ok? ==> forall s :: s in wb && s != sheet ==> r.value[s] == wb[s]
    ensures r.Ok? ==> r.value[sheet].tables == wb[sheet].tables
    ensures r.Ok? ==> var header := SheetHeader(wb[sheet].grid);
      Texts(header).Some? &&
      forall row, c :: CellAt(r.value[sheet].grid, row, c) == SheetCell(wb[sheet].grid, Select(data, Texts(header).value), row, c)
  {
    if sheet !in wb {
      return Err(SheetNotFound(sheet));
    }
    var ws := wb[sheet];
    var header := SheetHeader(ws.grid);
    if Empty in header {
      return Err(EmptyHeader(sheet));
    }
    var missing := FirstMissing(header, data.columns);
    if missing.Some? {
      return Err(MissingSheetColumn(header[missing.value]));
    }
    var labels := Texts(header).value;
    var sel := Select(data, labels);
    var cleared := DeleteRows(ws.grid, 2, LastRow(ws.grid));
    var g := WriteBlock(cleared, 2, 1, sel.rows, |sel.columns|);
    forall row, c ensures CellAt(g, row, c) == SheetCell(ws.grid, sel, row, c) {
      if row >= 2 {
        assert CellAt(cleared, row, c) == CellAt(ws.grid, row + LastRow(ws.grid), c);
      }
    }
    r := Ok(wb[sheet := Worksheet(g, ws.tables)]);
  }

  /** When every header label names exactly one data column, each cell under the header
      comes from the data column of the same label, and the rows past the data are empty. */
  lemma {:induction false} SheetCells(g: Grid, labels: seq<string>, data: Frame, g': Grid)
    requires Rectangular(data)
    requires forall j :: 0 <= j < |labels| ==> UniquelyLabelled(data.columns, labels[j])
    requires forall row, c :: CellAt(g', row, c) == SheetCell(g, Select(data, labels), row, c)
    ensures forall c :: CellAt(g', 1, c) == CellAt(g, 1, c)
    ensures forall a, j :: 0 <= a < |data.rows| && 0 <= j < |labels| ==>
      exists k :: (0 <= k < |data.columns| && data.columns[k] == labels[j] && CellAt(g', a + 2, j + 1) == data.rows[a][k])
    ensures forall row, c :: row >= |data.rows| + 2 ==> CellAt(g', row, c) == Empty
  {
    var sel := Select(data, labels);
    SelectedCells(data, labels);
    assert sel.columns == labels;
    forall a, j | 0 <= a < |data.rows| && 0 <= j < |labels|
      ensures exists k :: (0 <= k < |data.columns| && data.columns[k] == labels[j] && CellAt(g', a + 2, j + 1) == data.rows[a][k])
    {
      assert CellAt(g', a + 2, j + 1) == sel.rows[a][j];
      var k :| 0 <= k < |data.columns| && data.columns[k] == sel.columns[j] && sel.rows[a][j] == data.rows[a][k];
    }
  }
}
