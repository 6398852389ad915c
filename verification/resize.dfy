/**
 The row arithmetic that keeps the table catalog in step with a worksheet
 whose rows are deleted or inserted: the target table's end row moves, every
 table that starts below it moves with the rows, and the worksheet tables'
 stored references are rewritten from the catalog.

 The source applies each update to the rows of one sheet and writes those rows
 back in place; here each update is applied to the catalog rows whose sheet is
 the target's sheet, which gives the same catalog.
 */
module Resize {
  import opened Outcomes
  import opened RangeCodec
  import opened Inventory

  predicate Named(cat: Catalog, name: string) {
    exists i :: 0 <= i < |cat| && cat[i].name == name
  }

  /** The first catalog row named `name`, as `loc[...].iloc[0]` picks it (lines 273-280). */
  function Locate(cat: Catalog, name: string): (r: Result<nat>)
    ensures r.Ok? <==> Named(cat, name)
    ensures r.Err? ==> r.error == TableNotFound(name)
    ensures r.Ok? ==> r.value < |cat| && cat[r.value].name == name
    ensures r.Ok? ==> forall j :: 0 <= j < r.value ==> cat[j].name != name
  {
    if cat == [] then Err(TableNotFound(name))
    else if cat[0].name == name then Ok(0)
    else
      var rest := Locate(cat[1..], name);
      if rest.Err? then
        assert forall i :: 1 <= i < |cat| ==> cat[i] == cat[1..][i - 1];
        Err(rest.error)
      else
        assert cat[rest.value + 1] == cat[1..][rest.value];
        assert forall j :: 1 <= j < rest.value + 1 ==> cat[j] == cat[1..][j - 1];
        Ok(rest.value + 1)
  }

  /** Every catalog row names its columns within the letters `get_column_letter` produces. */
  predicate ColumnsNamed(cat: Catalog) {
    forall j :: 0 <= j < |cat| ==> Encodable(ExtentOf(cat[j]))
  }

  /** The descriptor fields other than the two rows. */
  predicate SameTable(a: TableDesc, b: TableDesc) {
    a.file == b.file && a.sheet == b.sheet && a.name == b.name && a.startCol == b.startCol && a.endCol == b.endCol
  }

  /** One catalog row after the three updates of lines 315-317 (with `delta` the negated
      rows_removed) or lines 366-368 (with `delta` rows_added), in that order: the named
      table's end moves, then starts below `pivot` move, then ends of the rows whose
      UPDATED start is below `pivot` move. */
  function ShiftRow(t: TableDesc, name: string, pivot: int, delta: int): TableDesc {
    var end1 := if t.name == name then t.endRow + delta else t.endRow;
    var start := if t.startRow > pivot then t.startRow + delta else t.startRow;
    var end2 := if start > pivot then end1 + delta else end1;
    t.(startRow := start, endRow := end2)
  }

  /** The three updates on the rows of `sheet`. */
  function Shift(cat: Catalog, sheet: string, name: string, pivot: int, delta: int): (r: Catalog)
    ensures |r| == |cat|
  {
    seq(|cat|, i requires 0 <= i < |cat| => if cat[i].sheet == sheet then ShiftRow(cat[i], name, pivot, delta) else cat[i])
  }

  /** The rows of other sheets are untouched, and so are rows of the sheet at or above the
      pivot other than the named table's; the named table's end moves by `delta`; a table
      starting below the pivot that stays below it moves as a block. */
  lemma {:induction false} ShiftRows(cat: Catalog, sheet: string, name: string, pivot: int, delta: int)
    ensures var r := Shift(cat, sheet, name, pivot, delta);
      forall i :: 0 <= i < |cat| ==> SameTable(r[i], cat[i])
    ensures var r := Shift(cat, sheet, name, pivot, delta);
      forall i :: 0 <= i < |cat| && cat[i].sheet != sheet ==> r[i] == cat[i]
    ensures var r := Shift(cat, sheet, name, pivot, delta);
      forall i :: 0 <= i < |cat| && cat[i].startRow <= pivot && cat[i].name != name ==> r[i] == cat[i]
    ensures delta == 0 ==> Shift(cat, sheet, name, pivot, delta) == cat
    ensures var r := Shift(cat, sheet, name, pivot, delta);
      forall i :: 0 <= i < |cat| && cat[i].sheet == sheet && cat[i].name == name && cat[i].startRow <= pivot ==>
        r[i] == cat[i].(endRow := cat[i].endRow + delta)
    ensures var r := Shift(cat, sheet, name, pivot, delta);
      forall i :: 0 <= i < |cat| && cat[i].sheet == sheet && cat[i].name != name && cat[i].startRow > pivot && cat[i].startRow + delta > pivot ==>
        r[i] == Moved(cat[i], delta)
  {
  }

  /** What the updates are for: a table starting below `pivot` moves as a block, and the
      named table's end moves by `delta`. */
  function BlockMove(t: TableDesc, name: string, pivot: int, delta: int): (m: TableDesc)
    ensures SameTable(m, t)
    ensures t.startRow > pivot ==> m.endRow - m.startRow == t.endRow - t.startRow + (if t.name == name then delta else 0)
    ensures t.startRow <= pivot ==> m.startRow == t.startRow
  {
    var grown := if t.name == name then t.(endRow := t.endRow + delta) else t;
    if t.startRow > pivot then grown.(startRow := t.startRow + delta, endRow := grown.endRow + delta) else grown
  }

  /** Line 317 re-tests `start_row_number > pivot` on starts that line 316 has already moved.
      When no table of the sheet starts in the rows that move past the pivot, the second
      test selects the same tables as the first, so each moved table keeps its height. */
  lemma {:induction false} SecondFilterAgrees(cat: Catalog, sheet: string, name: string, pivot: int, delta: int)
    requires forall i :: 0 <= i < |cat| && cat[i].sheet == sheet && cat[i].startRow > pivot ==> cat[i].startRow + delta > pivot
    ensures forall i :: 0 <= i < |cat| && cat[i].sheet == sheet ==> Shift(cat, sheet, name, pivot, delta)[i] == BlockMove(cat[i], name, pivot, delta)
  {
  }

  /** A table wholly inside the rows that shrinking deletes falls back to the pivot and
      then fails the second test, so its end moves while its start stays: line 317 does
      not always move what line 316 moved. */
  lemma SecondFilterDisagrees()
    ensures var t := TableDesc("f", "S", "B", 3, 4, 1, 2);
            Shift([t], "S", "A", 1, -3)[0] != BlockMove(t, "A", 1, -3)
  {
  }

  /** rows_removed of line 309: all rows but one anchor row below the header. */
  function RowsRemoved(t: TableDesc): int {
    t.endRow - t.startRow - 1
  }

  /** The catalog side of `remove_data_from_xl_table` (lines 306-317). */
  function Shrink(cat: Catalog, target: TableDesc): (r: Catalog)
    ensures |r| == |cat| && forall j :: 0 <= j < |cat| ==> SameTable(r[j], cat[j])
    ensures RowsRemoved(target) == 0 ==> r == cat
    ensures forall j :: 0 <= j < |cat| && cat[j] == target ==> r[j] == target.(endRow := target.startRow + 1)
    ensures forall j :: 0 <= j < |cat| && Untouched(cat[j], target) ==> r[j] == cat[j]
    ensures forall j :: 0 <= j < |cat| && Below(cat[j], target) ==> r[j] == Moved(cat[j], -RowsRemoved(target))
  {
    var k := RowsRemoved(target);
    if k != 0 then
      ShiftRows(cat, target.sheet, target.name, target.startRow, -k);
      Shift(cat, target.sheet, target.name, target.startRow, -k)
    else
      assert forall j :: 0 <= j < |cat| ==> Moved(cat[j], 0) == cat[j];
      cat
  }

  /** The catalog side of `add_data_to_xl_table` (lines 357-368), for `count` data rows. */
  function Grow(cat: Catalog, target: TableDesc, count: nat): (r: Catalog)
    ensures |r| == |cat| && forall j :: 0 <= j < |cat| ==> SameTable(r[j], cat[j])
    ensures count == 1 ==> r == cat
    ensures forall j :: 0 <= j < |cat| && cat[j] == target ==> r[j] == target.(endRow := target.endRow + count - 1)
    ensures forall j :: 0 <= j < |cat| && Untouched(cat[j], target) ==> r[j] == cat[j]
    ensures forall j :: 0 <= j < |cat| && cat[j].sheet == target.sheet && cat[j].name != target.name && cat[j].startRow > target.startRow + 1 ==>
      r[j] == Moved(cat[j], count - 1)
  {
    var n := count - 1;
    if n != 0 then
      ShiftRows(cat, target.sheet, target.name, target.startRow, n);
      Shift(cat, target.sheet, target.name, target.startRow, n)
    else
      assert forall j :: 0 <= j < |cat| ==> Moved(cat[j], 0) == cat[j];
      cat
  }

  /** Rows the resize of `target` leaves alone: other sheets, and other tables that start
      at or above its header. */
  predicate Untouched(t: TableDesc, target: TableDesc) {
    t.sheet != target.sheet || (t.startRow <= target.startRow && t.name != target.name)
  }

  /** Another table of the target's sheet that starts below both of the target's rows. */
  predicate Below(t: TableDesc, target: TableDesc) {
    t.sheet == target.sheet && t.name != target.name && t.startRow > target.endRow && t.startRow > target.startRow
  }

  /** The catalog side of `replace_table_data` (lines 495-521) for `count` new data rows:
      the named table is shrunk to one data row and grown to `count`. */
  function ReplaceCatalog(cat: Catalog, name: string, count: nat): (r: Result<Catalog>)
    ensures r.Err? <==> !Named(cat, name)
    ensures r.Err? ==> r.error == TableNotFound(name)
    ensures r.Ok? ==> |r.value| == |cat| && forall j :: 0 <= j < |cat| ==> SameTable(r.value[j], cat[j])
    ensures r.Ok? && ColumnsNamed(cat) ==> ColumnsNamed(r.value)
  {
    var i :- Locate(cat, name);
    var shrunk := Shrink(cat, cat[i]);
    Ok(Grow(shrunk, shrunk[i], count))
  }

  /** After the replacement the named table ends `count` rows below its header, the tables
      the resize does not touch are as they were, and a table further down the sheet has
      moved by the change in the named table's height. */
  lemma {:induction false} ReplaceCatalogRows(cat: Catalog, name: string, count: nat, i: nat)
    requires Locate(cat, name) == Ok(i)
    ensures ReplaceCatalog(cat, name, count).value[i] == cat[i].(endRow := cat[i].startRow + count)
    ensures forall j :: 0 <= j < |cat| && Untouched(cat[j], cat[i]) ==> ReplaceCatalog(cat, name, count).value[j] == cat[j]
    ensures forall j :: 0 <= j < |cat| && Below(cat[j], cat[i]) ==>
      ReplaceCatalog(cat, name, count).value[j] == Moved(cat[j], count - (cat[i].endRow - cat[i].startRow))
  {
    ReplaceTarget(cat, name, count, i);
    ReplaceKeepsUntouched(cat, name, count, i);
    ReplaceMovesBelow(cat, name, count, i);
  }

  lemma {:induction false} ReplaceTarget(cat: Catalog, name: string, count: nat, i: nat)
    requires Locate(cat, name) == Ok(i)
    ensures ReplaceCatalog(cat, name, count).value[i] == cat[i].(endRow := cat[i].startRow + count)
  {
    var shrunk := Shrink(cat, cat[i]);
    assert ReplaceCatalog(cat, name, count) == Ok(Grow(shrunk, shrunk[i], count));
    assert shrunk[i] == cat[i].(endRow := cat[i].startRow + 1);
  }

  lemma {:induction false} ReplaceKeepsUntouched(cat: Catalog, name: string, count: nat, i: nat)
    requires Locate(cat, name) == Ok(i)
    ensures forall j :: 0 <= j < |cat| && Untouched(cat[j], cat[i]) ==> ReplaceCatalog(cat, name, count).value[j] == cat[j]
  {
    var shrunk := Shrink(cat, cat[i]);
    assert ReplaceCatalog(cat, name, count) == Ok(Grow(shrunk, shrunk[i], count));
    forall j | 0 <= j < |cat| && Untouched(cat[j], cat[i]) ensures Grow(shrunk, shrunk[i], count)[j] == cat[j] {
      ResizeKeepsUntouched(cat, i, count, j);
    }
  }

  lemma {:induction false} ReplaceMovesBelow(cat: Catalog, name: string, count: nat, i: nat)
    requires Locate(cat, name) == Ok(i)
    ensures forall j :: 0 <= j < |cat| && Below(cat[j], cat[i]) ==>
      ReplaceCatalog(cat, name, count).value[j] == Moved(cat[j], count - (cat[i].endRow - cat[i].startRow))
  {
    var shrunk := Shrink(cat, cat[i]);
    assert ReplaceCatalog(cat, name, count) == Ok(Grow(shrunk, shrunk[i], count));
    forall j | 0 <= j < |cat| && Below(cat[j], cat[i])
      ensures Grow(shrunk, shrunk[i], count)[j] == Moved(cat[j], count - (cat[i].endRow - cat[i].startRow))
    {
      ResizeMovesBelow(cat, i, count, j);
    }
  }

  /** Shrinking the table at `i` and growing it to `count` data rows leaves alone a row the
      resize does not touch. */
  lemma {:induction false} ResizeKeepsUntouched(cat: Catalog, i: nat, count: nat, j: nat)
    requires i < |cat| && j < |cat| && Untouched(cat[j], cat[i])
    ensures var shrunk := Shrink(cat, cat[i]);
      Grow(shrunk, shrunk[i], count)[j] == cat[j]
  {
    var shrunk := Shrink(cat, cat[i]);
    assert shrunk[j] == cat[j];
    assert Untouched(shrunk[j], shrunk[i]);
  }

  /** Shrinking the table at `i` and growing it to `count` data rows moves a table below
      it by the change in its height. */
  lemma {:induction false} ResizeMovesBelow(cat: Catalog, i: nat, count: nat, j: nat)
    requires i < |cat| && j < |cat| && Below(cat[j], cat[i])
    ensures var shrunk := Shrink(cat, cat[i]);
      Grow(shrunk, shrunk[i], count)[j] == Moved(cat[j], count - (cat[i].endRow - cat[i].startRow))
  {
    var t := cat[i];
    var shrunk := Shrink(cat, t);
    assert shrunk[i] == t.(endRow := t.startRow + 1);
    assert shrunk[j] == Moved(cat[j], -RowsRemoved(t));
    assert shrunk[j].startRow > shrunk[i].startRow + 1;
    assert Grow(shrunk, shrunk[i], count)[j] == Moved(shrunk[j], count - 1);
  }

  /** A descriptor moved down by `d` rows as a block. */
  function Moved(t: TableDesc, d: int): TableDesc {
    t.(startRow := t.startRow + d, endRow := t.endRow + d)
  }

  // ---------------------------------------------------------------- reference sync

  /** A catalog row whose worksheet table the refresh loop (lines 320-334, 371-385) rewrites. */
  predicate Refreshed(t: TableDesc, sheet: string, pivot: int) {
    t.sheet == sheet && t.startRow >= pivot
  }

  predicate RefreshedName(cat: Catalog, sheet: string, pivot: int, name: string) {
    exists i :: 0 <= i < |cat| && Refreshed(cat[i], sheet, pivot) && cat[i].name == name
  }

  /** No later refreshed row carries the name of row `i`, so its write is the one that stays. */
  predicate LastRefreshed(cat: Catalog, sheet: string, pivot: int, i: int)
    requires 0 <= i < |cat|
  {
    forall j :: i < j < |cat| && Refreshed(cat[j], sheet, pivot) ==> cat[j].name != cat[i].name
  }

  /** Every refreshed row whose columns `get_column_letter` can name. */
  predicate RefreshEncodable(cat: Catalog, sheet: string, pivot: int) {
    forall i :: 0 <= i < |cat| && Refreshed(cat[i], sheet, pivot) ==> Encodable(ExtentOf(cat[i]))
  }

  /** The last refreshed row named `n`, whose write is the one that stays. */
  function LastWrite(cat: Catalog, sheet: string, pivot: int, n: string): (r: Option<nat>)
    ensures r.None? <==> !RefreshedName(cat, sheet, pivot, n)
    ensures r.Some? ==> r.value < |cat| && Refreshed(cat[r.value], sheet, pivot) && cat[r.value].name == n
    ensures r.Some? ==> LastRefreshed(cat, sheet, pivot, r.value)
  {
    if cat == [] then None
    else
      var init := cat[..|cat| - 1];
      var t := cat[|cat| - 1];
      if Refreshed(t, sheet, pivot) && t.name == n then Some(|cat| - 1)
      else
        var r := LastWrite(init, sheet, pivot, n);
        assert forall i :: 0 <= i < |init| ==> init[i] == cat[i];
        r
  }

  /** The reference the worksheet table `n` holds after the refresh. */
  function RefreshedRef(refs: map<string, string>, cat: Catalog, sheet: string, pivot: int, n: string): string
    requires RefreshEncodable(cat, sheet, pivot) && n in refs
  {
    match LastWrite(cat, sheet, pivot, n)
    case None => refs[n]
    case Some(i) => EncodeRange(ExtentOf(cat[i]))
  }

  /** The refresh loop: in catalog order, each refreshed row writes its encoded range over
      the reference of the worksheet table of the same name; a name the worksheet does
      not hold is skipped. `refs` maps each worksheet table name to its reference. */
  function SyncRefs(refs: map<string, string>, cat: Catalog, sheet: string, pivot: int): (r: map<string, string>)
    requires RefreshEncodable(cat, sheet, pivot)
    ensures r.Keys == refs.Keys
    ensures forall n :: n in refs ==> r[n] == RefreshedRef(refs, cat, sheet, pivot, n)
    decreases |cat|
  {
    if cat == [] then refs
    else
      var init := cat[..|cat| - 1];
      var t := cat[|cat| - 1];
      var m := SyncRefs(refs, init, sheet, pivot);
      assert forall i :: 0 <= i < |init| ==> init[i] == cat[i];
      if Refreshed(t, sheet, pivot) && t.name in m then m[t.name := EncodeRange(ExtentOf(t))] else m
  }

  /** The row updates never carry a row of the sheet from above the pivot to below it,
      so a row the refresh after a resize rewrites was a row it rewrites before. */
  lemma {:induction false} ShiftRefreshed(cat: Catalog, sheet: string, name: string, pivot: int, delta: int, j: nat)
    requires j < |cat| && Refreshed(Shift(cat, sheet, name, pivot, delta)[j], sheet, pivot)
    ensures Refreshed(cat[j], sheet, pivot) && Shift(cat, sheet, name, pivot, delta)[j].name == cat[j].name
  {
  }

  /** A name no row of `cat` gets refreshed under is refreshed under no row of the catalog
      after the table at `i` is shrunk, nor after it is then grown to `count` data rows. */
  lemma {:induction false} ResizeRefreshesNoOther(cat: Catalog, i: nat, count: nat, n: string)
    requires i < |cat| && !RefreshedName(cat, cat[i].sheet, cat[i].startRow, n)
    ensures var shrunk := Shrink(cat, cat[i]);
      && !RefreshedName(shrunk, cat[i].sheet, cat[i].startRow, n)
      && !RefreshedName(Grow(shrunk, shrunk[i], count), cat[i].sheet, cat[i].startRow, n)
  {
    var t := cat[i];
    var shrunk := Shrink(cat, t);
    var k := RowsRemoved(t);
    if k != 0 {
      assert shrunk == Shift(cat, t.sheet, t.name, t.startRow, -k);
      forall j | 0 <= j < |shrunk| && Refreshed(shrunk[j], t.sheet, t.startRow) ensures shrunk[j].name != n {
        ShiftRefreshed(cat, t.sheet, t.name, t.startRow, -k, j);
      }
    }
    assert shrunk[i] == t.(endRow := t.startRow + 1);
    var grown := Grow(shrunk, shrunk[i], count);
    if count - 1 != 0 {
      assert grown == Shift(shrunk, t.sheet, t.name, t.startRow, count - 1);
      forall j | 0 <= j < |grown| && Refreshed(grown[j], t.sheet, t.startRow) ensures grown[j].name != n {
        ShiftRefreshed(shrunk, t.sheet, t.name, t.startRow, count - 1, j);
      }
    }
  }

  /** The write that stays for a name is the write of any refreshed row that no later
      refreshed row shares its name with. */
  lemma {:induction false} LastWriteAt(cat: Catalog, sheet: string, pivot: int, i: nat)
    requires i < |cat| && Refreshed(cat[i], sheet, pivot) && LastRefreshed(cat, sheet, pivot, i)
    ensures LastWrite(cat, sheet, pivot, cat[i].name) == Some(i)
  {
    var r := LastWrite(cat, sheet, pivot, cat[i].name);
    assert RefreshedName(cat, sheet, pivot, cat[i].name);
    var k := r.value;
    assert LastRefreshed(cat, sheet, pivot, k) && cat[k].name == cat[i].name;
    assert !(k < i);
    assert !(k > i);
  }

  /** After the refresh, the reference of a refreshed table decodes to its catalog rows and
      columns. */
  lemma {:induction false} SyncRoundTrip(refs: map<string, string>, cat: Catalog, sheet: string, pivot: int, i: nat)
    requires RefreshEncodable(cat, sheet, pivot)
    requires i < |cat| && Refreshed(cat[i], sheet, pivot) && cat[i].name in refs && LastRefreshed(cat, sheet, pivot, i)
    requires cat[i].startRow >= 1 && cat[i].endRow >= 1
    ensures DecodeRange(SyncRefs(refs, cat, sheet, pivot)[cat[i].name]) == Ok(ExtentOf(cat[i]))
  {
    LastWriteAt(cat, sheet, pivot, i);
    RangeRoundTrip(ExtentOf(cat[i]));
  }

  /** With table names unique, as the validation pass expects, every refreshed table
      present in the worksheet gets its catalog range. */
  lemma {:induction false} SyncUniqueNames(refs: map<string, string>, cat: Catalog, sheet: string, pivot: int)
    requires RefreshEncodable(cat, sheet, pivot)
    requires forall i, j :: 0 <= i < j < |cat| ==> cat[i].name != cat[j].name
    ensures forall i :: 0 <= i < |cat| && Refreshed(cat[i], sheet, pivot) && cat[i].name in refs ==>
      SyncRefs(refs, cat, sheet, pivot)[cat[i].name] == EncodeRange(ExtentOf(cat[i]))
  {
    forall i | 0 <= i < |cat| && Refreshed(cat[i], sheet, pivot) && cat[i].name in refs
      ensures SyncRefs(refs, cat, sheet, pivot)[cat[i].name] == EncodeRange(ExtentOf(cat[i]))
    {
      assert LastRefreshed(cat, sheet, pivot, i);
      LastWriteAt(cat, sheet, pivot, i);
    }
  }

  // ---------------------------------------------------------------- worked examples

  /** Tables A (rows 5-10) and B (rows 15-20) on one sheet: keeping one data row of A
      moves B to rows 11-16, and growing A back to six data rows moves B to rows 16-21. */
  lemma ShrinkThenGrowExample()
    ensures var a := TableDesc("f", "S", "A", 5, 10, 1, 2);
            var b := TableDesc("f", "S", "B", 15, 20, 1, 2);
            var shrunk := Shrink([a, b], a);
            && shrunk == [a.(endRow := 6), b.(startRow := 11, endRow := 16)]
            && Grow(shrunk, shrunk[0], 6) == [a.(endRow := 11), b.(startRow := 16, endRow := 21)]
  {
  }

  /** "T1" at A1:B4 and "T2" at A6:B9 on sheet "Report": five new rows for T1 leave T1 at
      rows 1-6 and T2 at rows 8-11. */
  lemma ReplaceExample()
    ensures var t1 := TableDesc("f", "Report", "T1", 1, 4, 1, 2);
            var t2 := TableDesc("f", "Report", "T2", 6, 9, 1, 2);
            ReplaceCatalog([t1, t2], "T1", 5) == Ok([t1.(endRow := 6), t2.(startRow := 8, endRow := 11)])
  {
    var t1 := TableDesc("f", "Report", "T1", 1, 4, 1, 2);
    var t2 := TableDesc("f", "Report", "T2", 6, 9, 1, 2);
    var cat := [t1, t2];
    assert cat[0] == t1 && cat[0].name == "T1";
    assert Locate(cat, "T1") == Ok(0);
    assert Below(cat[1], cat[0]);
    var r := ReplaceCatalog(cat, "T1", 5);
    ReplaceCatalogRows(cat, "T1", 5, 0);
    assert r.value[0] == t1.(endRow := 6) && r.value[1] == Moved(t2, 2);
    assert r.value == [r.value[0], r.value[1]];
  }

  /** The reference the refresh then writes for T2 is "A8:B11". */
  lemma EncodeExample()
    ensures EncodeRange(Extent(8, 11, 1, 2)) == "A8:B11"
  {
    assert ColumnLetters(1) == "A" && ColumnLetters(2) == "B";
    assert Digits(8) == "8";
    assert Digits(11) == Digits(1) + "1" == "11";
  }
}
