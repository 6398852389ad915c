/**
 The table catalog of one workbook: one descriptor per structured table, the
 overlap test, the validation pass (which only reports) and the sort by
 (file, sheet, start row).
 */
module Inventory {
  import opened Strings
  import opened Outcomes
  import opened RangeCodec
  import opened Sequences

  /** One row of the table-details frame. */
  datatype TableDesc = TableDesc(file: string, sheet: string, name: string,
                                 startRow: int, endRow: int, startCol: int, endCol: int)

  type Catalog = seq<TableDesc>

  function ExtentOf(t: TableDesc): Extent {
    Extent(t.startRow, t.endRow, t.startCol, t.endCol)
  }

  /** The distinct strings of `names`, in order of first appearance (`unique()`). */
  function Distinct(names: seq<string>): (r: seq<string>)
    ensures forall x :: x in r <==> x in names
    ensures forall i, j :: 0 <= i < j < |r| ==> r[i] != r[j]
  {
    if names == [] then []
    else
      var rest := Distinct(names[..|names| - 1]);
      assert names == names[..|names| - 1] + [names[|names| - 1]];
      if names[|names| - 1] in rest then rest else rest + [names[|names| - 1]]
  }

  function OnSheet(cat: Catalog, sheet: string): (r: Catalog)
    ensures forall t :: t in r <==> t in cat && t.sheet == sheet
  {
    Filter(cat, (t: TableDesc) => t.sheet == sheet)
  }

  // ---------------------------------------------------------------- scanning

  /** One structured table as the workbook lists it: its sheet, name and stored reference. */
  datatype TableEntry = TableEntry(sheet: string, name: string, ref: string)

  /** The decoding loop of lines 166-190 over the workbook's tables in sheet order. */
  function ScanTables(file: string, entries: seq<TableEntry>): (r: Result<Catalog>)
    ensures r.Ok? ==> |r.value| == |entries|
    ensures r.Ok? ==> forall i :: 0 <= i < |entries| ==> ScannedAs(file, entries[i], r.value[i])
    ensures r.Err? <==> exists i :: 0 <= i < |entries| && DecodeRange(entries[i].ref).Err?
  {
    if entries == [] then Ok([])
    else
      var head := DecodeRange(entries[0].ref);
      var rest := ScanTables(file, entries[1..]);
      if head.Err? then Err(head.error)
      else if rest.Err? then
        ScanErrorShifts(entries);
        Err(rest.error)
      else
        var t := TableDesc(file, entries[0].sheet, entries[0].name,
                           head.value.startRow, head.value.endRow, head.value.startCol, head.value.endCol);
        assert ExtentOf(t) == head.value;
        assert ScannedAs(file, entries[0], t);
        PointwiseCons((e, d) => ScannedAs(file, e, d), entries, t, rest.value);
        Ok([t] + rest.value)
  }

  /** `t` is the descriptor the scan makes of `e`: same sheet and name, decoded reference. */
  predicate ScannedAs(file: string, e: TableEntry, t: TableDesc) {
    t.file == file && t.sheet == e.sheet && t.name == e.name && DecodeRange(e.ref) == Ok(ExtentOf(t))
  }

  /** A relation that holds pointwise between two sequences still holds after one more
      related pair is put in front. */
  lemma {:induction false} PointwiseCons<A, B>(p: (A, B) -> bool, xs: seq<A>, y: B, ys: seq<B>)
    requires xs != [] && p(xs[0], y) && |ys| == |xs| - 1
    requires forall i :: 0 <= i < |ys| ==> p(xs[1..][i], ys[i])
    ensures forall i :: 0 <= i < |xs| ==> p(xs[i], ([y] + ys)[i])
  {
    forall i | 0 <= i < |xs| ensures p(xs[i], ([y] + ys)[i]) {
      if i > 0 {
        assert xs[i] == xs[1..][i - 1] && ([y] + ys)[i] == ys[i - 1];
      }
    }
  }

  lemma {:induction false} ScanErrorShifts(entries: seq<TableEntry>)
    requires entries != []
    requires exists i :: 0 <= i < |entries[1..]| && DecodeRange(entries[1..][i].ref).Err?
    ensures exists i :: 0 <= i < |entries| && DecodeRange(entries[i].ref).Err?
  {
    var j :| 0 <= j < |entries[1..]| && DecodeRange(entries[1..][j].ref).Err?;
    assert entries[j + 1] == entries[1..][j];
  }

  // ---------------------------------------------------------------- overlap

  /** The three-way test of lines 39-46: `other` is flagged against `t`. */
  predicate Hits(other: TableDesc, t: TableDesc) {
    && other.name != t.name
    && (|| t.startRow <= other.startRow <= t.endRow
        || t.startRow <= other.endRow <= t.endRow
        || (other.startRow <= t.startRow && other.endRow >= t.endRow))
  }

  predicate RowsOrdered(t: TableDesc) {
    t.startRow <= t.endRow
  }

  /** The closed row intervals of the two tables meet. */
  predicate RowsIntersect(a: TableDesc, b: TableDesc) {
    a.startRow <= b.endRow && b.startRow <= a.endRow
  }

  /** For ordered intervals the three-way test is exactly interval intersection. */
  lemma {:induction false} HitsIsIntersection(other: TableDesc, t: TableDesc)
    requires RowsOrdered(other) && RowsOrdered(t)
    ensures Hits(other, t) <==> other.name != t.name && RowsIntersect(other, t)
  {
  }

  predicate Flagged(tables: Catalog, t: TableDesc) {
    exists j :: 0 <= j < |tables| && Hits(tables[j], t)
  }

  /** What the error message lists of a flagged table. */
  datatype Span = Span(name: string, startRow: int, endRow: int)

  function SpanOf(t: TableDesc): Span {
    Span(t.name, t.startRow, t.endRow)
  }

  /** The flagged tables among `tables[k..]`, in order. */
  function FlaggedFrom(tables: Catalog, k: nat): (r: seq<Span>)
    requires k <= |tables|
    ensures forall s :: s in r <==> exists i :: k <= i < |tables| && Flagged(tables, tables[i]) && SpanOf(tables[i]) == s
    decreases |tables| - k
  {
    if k == |tables| then []
    else
      var rest := FlaggedFrom(tables, k + 1);
      if Flagged(tables, tables[k]) then [SpanOf(tables[k])] + rest else rest
  }

  datatype SheetCheck = NoOverlap | Overlapping(flagged: seq<Span>)

  /** `check_sheet_table_details`: the tables of one sheet, checked pairwise. */
  function CheckSheet(tables: Catalog): (r: SheetCheck)
    ensures r.Overlapping? <==> exists i, j :: 0 <= i < |tables| && 0 <= j < |tables| && Hits(tables[j], tables[i])
    ensures r.Overlapping? ==> forall s :: s in r.flagged <==>
      exists i :: 0 <= i < |tables| && Flagged(tables, tables[i]) && SpanOf(tables[i]) == s
  {
    var flagged := FlaggedFrom(tables, 0);
    if flagged == [] then
      assert forall i :: 0 <= i < |tables| ==> !Flagged(tables, tables[i]) by {
        forall i | 0 <= i < |tables| ensures !Flagged(tables, tables[i]) {
          assert SpanOf(tables[i]) !in flagged;
        }
      }
      NoOverlap
    else
      assert flagged[0] in flagged;
      Overlapping(flagged)
  }

  /** On a sheet whose row intervals are ordered, the check fails exactly when two
      differently named tables share a row. */
  lemma {:induction false} CheckSheetIffIntersection(tables: Catalog)
    requires forall i :: 0 <= i < |tables| ==> RowsOrdered(tables[i])
    ensures CheckSheet(tables).Overlapping? <==>
      exists i, j :: 0 <= i < |tables| && 0 <= j < |tables| && tables[i].name != tables[j].name && RowsIntersect(tables[i], tables[j])
  {
    if CheckSheet(tables).Overlapping? {
      var i, j :| 0 <= i < |tables| && 0 <= j < |tables| && Hits(tables[j], tables[i]);
      HitsIsIntersection(tables[j], tables[i]);
    }
    if exists i, j :: 0 <= i < |tables| && 0 <= j < |tables| && tables[i].name != tables[j].name && RowsIntersect(tables[i], tables[j]) {
      var i, j :| 0 <= i < |tables| && 0 <= j < |tables| && tables[i].name != tables[j].name && RowsIntersect(tables[i], tables[j]);
      HitsIsIntersection(tables[j], tables[i]);
    }
  }

  // ---------------------------------------------------------------- validation

  datatype SheetOverlap = SheetOverlap(sheet: string, flagged: seq<Span>)

  /** What the validation pass logs. */
  datatype ValidationReport = ValidationReport(
    files: seq<string>,
    duplicateNames: seq<TableDesc>,
    invalidRows: seq<TableDesc>,
    invalidCols: seq<TableDesc>,
    sheetOverlaps: seq<SheetOverlap>)

  function NameCount(cat: Catalog, name: string): nat {
    if cat == [] then 0 else (if cat[0].name == name then 1 else 0) + NameCount(cat[1..], name)
  }

  lemma {:induction false} NameCountPositive(cat: Catalog, i: nat)
    requires i < |cat|
    ensures NameCount(cat, cat[i].name) >= 1
  {
    if i > 0 {
      NameCountPositive(cat[1..], i - 1);
    }
  }

  lemma {:induction false} NameCountTwo(cat: Catalog, name: string)
    requires NameCount(cat, name) >= 2
    ensures exists i, j :: 0 <= i < |cat| && 0 <= j < |cat| && i != j && cat[i].name == name && cat[j].name == name
  {
    if cat[0].name == name {
      var k :| 0 <= k < |cat[1..]| && cat[1..][k].name == name by {
        NameCountOne(cat[1..], name);
      }
      assert cat[k + 1].name == name;
    } else {
      NameCountTwo(cat[1..], name);
      var i, j :| 0 <= i < |cat[1..]| && 0 <= j < |cat[1..]| && i != j && cat[1..][i].name == name && cat[1..][j].name == name;
      assert cat[i + 1].name == name && cat[j + 1].name == name;
    }
  }

  lemma {:induction false} NameCountOne(cat: Catalog, name: string)
    requires NameCount(cat, name) >= 1
    ensures exists i :: 0 <= i < |cat| && cat[i].name == name
  {
    if cat[0].name != name {
      NameCountOne(cat[1..], name);
      var i :| 0 <= i < |cat[1..]| && cat[1..][i].name == name;
      assert cat[i + 1].name == name;
    }
  }

  lemma {:induction false} NameCountOfPair(cat: Catalog, i: nat, j: nat)
    requires i < j < |cat| && cat[i].name == cat[j].name
    ensures NameCount(cat, cat[i].name) >= 2
  {
    if i == 0 {
      NameCountPositive(cat[1..], j - 1);
    } else {
      NameCountOfPair(cat[1..], i - 1, j - 1);
    }
  }

  /** Some other row of the catalog carries the same table name. */
  predicate NameRepeated(cat: Catalog, t: TableDesc) {
    exists i, j :: 0 <= i < |cat| && 0 <= j < |cat| && i != j && cat[i].name == t.name && cat[j].name == t.name
  }

  function DuplicateRows(cat: Catalog): (r: seq<TableDesc>)
    ensures forall t :: t in r <==> t in cat && NameRepeated(cat, t)
  {
    var r := Filter(cat, (t: TableDesc) => NameCount(cat, t.name) >= 2);
    assert forall t :: t in cat ==> (NameCount(cat, t.name) >= 2 <==> NameRepeated(cat, t)) by {
      forall t | t in cat
        ensures NameCount(cat, t.name) >= 2 <==> NameRepeated(cat, t)
      {
        if NameCount(cat, t.name) >= 2 {
          NameCountTwo(cat, t.name);
        }
        if NameRepeated(cat, t) {
          var i, j :| 0 <= i < |cat| && 0 <= j < |cat| && i != j && cat[i].name == t.name && cat[j].name == t.name;
          if i < j { NameCountOfPair(cat, i, j); } else { NameCountOfPair(cat, j, i); }
        }
      }
    }
    r
  }

  function Files(cat: Catalog): (r: seq<string>)
    ensures |r| == |cat| && forall i :: 0 <= i < |cat| ==> r[i] == cat[i].file
  {
    if cat == [] then [] else [cat[0].file] + Files(cat[1..])
  }

  function Sheets(cat: Catalog): (r: seq<string>)
    ensures |r| == |cat| && forall i :: 0 <= i < |cat| ==> r[i] == cat[i].sheet
  {
    if cat == [] then [] else [cat[0].sheet] + Sheets(cat[1..])
  }

  /** The per-sheet loop of lines 108-114: every sheet's check that failed. */
  function SheetOverlaps(cat: Catalog, sheets: seq<string>): (r: seq<SheetOverlap>)
    ensures forall o :: o in r ==> o.sheet in sheets && CheckSheet(OnSheet(cat, o.sheet)) == Overlapping(o.flagged)
    ensures forall s :: s in sheets && CheckSheet(OnSheet(cat, s)).Overlapping? ==> exists o :: o in r && o.sheet == s
  {
    if sheets == [] then []
    else
      var rest := SheetOverlaps(cat, sheets[1..]);
      match CheckSheet(OnSheet(cat, sheets[0]))
      case NoOverlap => rest
      case Overlapping(flagged) =>
        assert SheetOverlap(sheets[0], flagged) in [SheetOverlap(sheets[0], flagged)] + rest;
        [SheetOverlap(sheets[0], flagged)] + rest
  }

  /** `check_table_details_in_file`: reports problems and hands its input back unchanged,
      whatever it finds (lines 79-116). */
  function ValidateFile(cat: Catalog): (r: (Catalog, ValidationReport))
    ensures r.0 == cat
    ensures forall f :: f in r.1.files <==> exists i :: 0 <= i < |cat| && cat[i].file == f
    ensures forall i, j :: 0 <= i < j < |r.1.files| ==> r.1.files[i] != r.1.files[j]
    ensures forall t :: t in r.1.duplicateNames <==> t in cat && NameRepeated(cat, t)
    ensures forall t :: t in r.1.invalidRows <==> t in cat && t.startRow >= t.endRow
    ensures forall t :: t in r.1.invalidCols <==> t in cat && t.startCol >= t.endCol
    ensures forall s :: (exists o :: o in r.1.sheetOverlaps && o.sheet == s) <==>
      (exists i :: 0 <= i < |cat| && cat[i].sheet == s) && CheckSheet(OnSheet(cat, s)).Overlapping?
  {
    var files := Distinct(Files(cat));
    assert forall f :: f in Files(cat) <==> exists i :: 0 <= i < |cat| && cat[i].file == f;
    var sheets := Distinct(Sheets(cat));
    assert forall s :: s in Sheets(cat) <==> exists i :: 0 <= i < |cat| && cat[i].sheet == s;
    var report := ValidationReport(
      files,
      DuplicateRows(cat),
      ReversedRows(cat),
      ReversedCols(cat),
      SheetOverlaps(cat, sheets));
    (cat, report)
  }

  /** The rows whose start row is not above their end row (line 95). */
  function ReversedRows(cat: Catalog): (r: seq<TableDesc>)
    ensures forall t :: t in r <==> t in cat && t.startRow >= t.endRow
  {
    Filter(cat, (t: TableDesc) => t.startRow >= t.endRow)
  }

  /** The rows whose start column is not left of their end column (line 96). */
  function ReversedCols(cat: Catalog): (r: seq<TableDesc>)
    ensures forall t :: t in r <==> t in cat && t.startCol >= t.endCol
  {
    Filter(cat, (t: TableDesc) => t.startCol >= t.endCol)
  }

  // ---------------------------------------------------------------- sorting

  /** The order of line 152: file path, then sheet name, then start row. */
  predicate KeyLe(a: TableDesc, b: TableDesc) {
    || StrLt(a.file, b.file)
    || (a.file == b.file && (StrLt(a.sheet, b.sheet) || (a.sheet == b.sheet && a.startRow <= b.startRow)))
  }

  lemma {:induction false} KeyLeTotal(a: TableDesc, b: TableDesc)
    ensures KeyLe(a, b) || KeyLe(b, a)
  {
    StrLeTotal(a.file, b.file);
    StrLeTotal(a.sheet, b.sheet);
  }

  lemma {:induction false} KeyLeTransitive(a: TableDesc, b: TableDesc, c: TableDesc)
    requires KeyLe(a, b) && KeyLe(b, c)
    ensures KeyLe(a, c)
  {
    if StrLt(a.file, b.file) && StrLt(b.file, c.file) {
      StrLeTransitive(a.file, b.file, c.file);
      if a.file == c.file { StrLeAntisymmetric(a.file, b.file); }
    }
    if a.file == b.file && b.file == c.file && StrLt(a.sheet, b.sheet) && StrLt(b.sheet, c.sheet) {
      StrLeTransitive(a.sheet, b.sheet, c.sheet);
      if a.sheet == c.sheet { StrLeAntisymmetric(a.sheet, b.sheet); }
    }
  }

  predicate SortedByKey(s: Catalog) {
    forall i, j :: 0 <= i < j < |s| ==> KeyLe(s[i], s[j])
  }

  /** Puts `t` after every leading element of `s` that does not sort above it. */
  function Insert(t: TableDesc, s: Catalog): (r: Catalog)
    requires SortedByKey(s)
    ensures SortedByKey(r)
    ensures multiset(r) == multiset(s) + multiset{t}
  {
    if s == [] then [t]
    else if KeyLe(s[0], t) then
      var rest := Insert(t, s[1..]);
      assert s == [s[0]] + s[1..];
      HeadBelowInserted(t, s, rest);
      [s[0]] + rest
    else
      KeyLeTotal(s[0], t);
      BelowSorted(t, s);
      [t] + s
  }

  /** The head of a sorted sequence sorts below everything in the tail with `t` put in. */
  lemma {:induction false} HeadBelowInserted(t: TableDesc, s: Catalog, rest: Catalog)
    requires SortedByKey(s) && s != [] && KeyLe(s[0], t)
    requires multiset(rest) == multiset(s[1..]) + multiset{t}
    ensures forall x :: x in rest ==> KeyLe(s[0], x)
  {
    forall x | x in rest ensures KeyLe(s[0], x) {
      assert x in multiset(rest);
      if x != t {
        assert x in multiset(s[1..]);
        var k :| 0 <= k < |s[1..]| && s[1..][k] == x;
        assert s[k + 1] == x;
      }
    }
  }

  /** What sorts below the head of a sorted sequence sorts below all of it. */
  lemma {:induction false} BelowSorted(t: TableDesc, s: Catalog)
    requires SortedByKey(s) && s != [] && KeyLe(t, s[0])
    ensures forall i :: 0 <= i < |s| ==> KeyLe(t, s[i])
  {
    forall i | 0 < i < |s| ensures KeyLe(t, s[i]) {
      KeyLeTransitive(t, s[0], s[i]);
    }
  }

  /** A stable insertion sort by `KeyLe`. */
  function SortByKey(s: Catalog): (r: Catalog)
    ensures SortedByKey(r)
    ensures multiset(r) == multiset(s)
  {
    if s == [] then []
    else
      assert s == s[..|s| - 1] + [s[|s| - 1]];
      Insert(s[|s| - 1], SortByKey(s[..|s| - 1]))
  }

  /** `table_details_structure` (lines 142-159). A workbook without tables yields a frame
      without columns, so the required-column check raises. */
  function Structure(cat: Catalog): (r: Result<Catalog>)
    ensures r.Err? <==> cat == []
    ensures r.Ok? ==> SortedByKey(r.value) && multiset(r.value) == multiset(cat)
  {
    if cat == [] then Err(EmptyCatalog) else Ok(SortByKey(cat))
  }

  /** `get_excel_table_details` without the file read: decode, sort, validate. */
  function TableDetails(file: string, entries: seq<TableEntry>): (r: Result<(Catalog, ValidationReport)>)
    ensures r.Ok? ==> SortedByKey(r.value.0) && |r.value.0| == |entries|
    ensures r.Ok? ==> forall t :: t in r.value.0 ==> t.file == file && Decodable(ExtentOf(t))
    ensures r.Err? <==> entries == [] || exists i :: 0 <= i < |entries| && DecodeRange(entries[i].ref).Err?
    ensures r.Ok? ==> ScanTables(file, entries).Ok? && multiset(r.value.0) == multiset(ScanTables(file, entries).value)
    ensures r.Ok? ==> r.value.1 == ValidateFile(r.value.0).1
  {
    var scan := ScanTables(file, entries);
    if scan.Err? then Err(scan.error)
    else
      var structured := Structure(scan.value);
      if structured.Err? then Err(structured.error)
      else
        ScannedRows(file, entries);
        SortedKeepsRows(scan.value, structured.value, file);
        Ok(ValidateFile(structured.value))
  }

  /** Each listed table has its row in the details, with its sheet, its name and its
      decoded reference, and each row comes from a listed table. */
  lemma {:induction false} DetailsCoverEntries(file: string, entries: seq<TableEntry>)
    requires TableDetails(file, entries).Ok?
    ensures var rows := TableDetails(file, entries).value.0;
      forall k :: 0 <= k < |entries| ==> exists t :: t in rows && ScannedAs(file, entries[k], t)
    ensures var rows := TableDetails(file, entries).value.0;
      forall t :: t in rows ==> exists k :: 0 <= k < |entries| && ScannedAs(file, entries[k], t)
  {
    var rows := TableDetails(file, entries).value.0;
    var scanned := ScanTables(file, entries).value;
    PermutedRows(file, entries, scanned, rows);
  }

  lemma {:induction false} PermutedRows(file: string, entries: seq<TableEntry>, scanned: Catalog, rows: Catalog)
    requires |scanned| == |entries| && forall i :: 0 <= i < |entries| ==> ScannedAs(file, entries[i], scanned[i])
    requires multiset(rows) == multiset(scanned)
    ensures forall k :: 0 <= k < |entries| ==> exists t :: t in rows && ScannedAs(file, entries[k], t)
    ensures forall t :: t in rows ==> exists k :: 0 <= k < |entries| && ScannedAs(file, entries[k], t)
  {
    forall k | 0 <= k < |entries| ensures exists t :: t in rows && ScannedAs(file, entries[k], t) {
      assert scanned[k] in multiset(scanned);
      assert scanned[k] in rows;
    }
    forall t | t in rows ensures exists k :: 0 <= k < |entries| && ScannedAs(file, entries[k], t) {
      assert t in multiset(rows);
      var k :| 0 <= k < |scanned| && scanned[k] == t;
      assert ScannedAs(file, entries[k], t);
    }
  }

  /** Every descriptor a successful scan produces is a decodable row of `file`. */
  lemma {:induction false} ScannedRows(file: string, entries: seq<TableEntry>)
    requires ScanTables(file, entries).Ok?
    ensures forall t :: t in ScanTables(file, entries).value ==> t.file == file && Decodable(ExtentOf(t))
  {
    var scanned := ScanTables(file, entries).value;
    forall t | t in scanned ensures t.file == file && Decodable(ExtentOf(t)) {
      var i :| 0 <= i < |scanned| && scanned[i] == t;
      assert ScannedAs(file, entries[i], scanned[i]);
    }
  }

  lemma {:induction false} SortedKeepsRows(scanned: Catalog, sorted: Catalog, file: string)
    requires multiset(sorted) == multiset(scanned)
    requires forall t :: t in scanned ==> t.file == file && Decodable(ExtentOf(t))
    ensures |sorted| == |scanned|
    ensures forall t :: t in sorted ==> t.file == file && Decodable(ExtentOf(t))
  {
    assert |sorted| == |multiset(sorted)| == |multiset(scanned)| == |scanned|;
    forall t | t in sorted ensures t.file == file && Decodable(ExtentOf(t)) {
      assert t in multiset(scanned);
    }
  }
}
