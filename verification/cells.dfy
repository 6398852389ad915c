/**
 Worksheet cells as a dense grid.

 Row r (1-based) of a worksheet is `g[r - 1]` and cell (r, c) of it is
 `g[r - 1][c - 1]`; every cell outside the stored rows and columns reads as
 `Empty`, which is what openpyxl returns for a cell that holds `None`.
 Row deletion and insertion are sequence splices; their contracts say where
 each cell of the result comes from.
 */
module Cells {

  /** A cell's content. `Empty` is `None`; other payloads are opaque to the core. */
  datatype Value = Empty | Text(text: string) | Number(number: int)

  type Row = seq<Value>
  type Grid = seq<Row>

  function RowCell(row: Row, c: int): Value {
    if 1 <= c <= |row| then row[c - 1] else Empty
  }

  function CellAt(g: Grid, r: int, c: int): Value {
    if 1 <= r <= |g| then RowCell(g[r - 1], c) else Empty
  }

  /** Writes `v` at column `c` of one row, padding the row with empty cells. */
  function SetInRow(row: Row, c: int, v: Value): (row': Row)
    requires c >= 1
    ensures forall c' :: RowCell(row', c') == if c' == c then v else RowCell(row, c')
  {
    var padded := if c <= |row| then row else row + seq(c - |row|, _ => Empty);
    assert forall c' :: RowCell(padded, c') == RowCell(row, c');
    padded[c - 1 := v]
  }

  /** `ws[cell] = v`: cell (r, c) receives `v`, every other cell keeps its value. */
  function SetCell(g: Grid, r: int, c: int, v: Value): (g': Grid)
    requires r >= 1 && c >= 1
    ensures forall r', c' :: CellAt(g', r', c') == if r' == r && c' == c then v else CellAt(g, r', c')
  {
    var padded := if r <= |g| then g else g + seq(r - |g|, _ => []);
    assert forall r', c' :: CellAt(padded, r', c') == CellAt(g, r', c');
    padded[r - 1 := SetInRow(padded[r - 1], c, v)]
  }

  /** The cell (r, c) after `amount` rows are deleted at `idx`. */
  function DeletedCell(g: Grid, idx: int, amount: int, r: int, c: int): Value {
    if r < idx then CellAt(g, r, c) else CellAt(g, r + amount, c)
  }

  /** `ws.delete_rows(idx, amount)`: rows idx .. idx+amount-1 disappear and the rows
      below them move up by `amount`. */
  function DeleteRows(g: Grid, idx: int, amount: int): (g': Grid)
    requires idx >= 1 && amount >= 0
    ensures forall r, c :: CellAt(g', r, c) == DeletedCell(g, idx, amount, r, c)
  {
    if idx - 1 >= |g| then g
    else
      var tail := if idx - 1 + amount <= |g| then idx - 1 + amount else |g|;
      var g' := g[..idx - 1] + g[tail..];
      assert forall r, c :: CellAt(g', r, c) == DeletedCell(g, idx, amount, r, c) by {
        forall r, c ensures CellAt(g', r, c) == DeletedCell(g, idx, amount, r, c) {
          if 1 <= r < idx {
            assert g'[r - 1] == g[r - 1];
          } else if idx <= r <= |g'| {
            assert g'[r - 1] == g[r - 1 + amount];
          } else if r > |g'| {
            assert |g'| == idx - 1 + |g| - tail;
            assert r + amount > |g|;
          }
        }
      }
      g'
  }

  /** The cell (r, c) after `amount` blank rows are inserted at `idx`. */
  function InsertedCell(g: Grid, idx: int, amount: int, r: int, c: int): Value {
    if r < idx then CellAt(g, r, c)
    else if r < idx + amount then Empty
    else CellAt(g, r - amount, c)
  }

  /** `ws.insert_rows(idx, amount)`: `amount` blank rows appear at idx and the rows
      from idx on move down by `amount`. */
  function InsertRows(g: Grid, idx: int, amount: int): (g': Grid)
    requires idx >= 1 && amount >= 0
    ensures forall r, c :: CellAt(g', r, c) == InsertedCell(g, idx, amount, r, c)
  {
    if idx - 1 > |g| then g
    else
      var g' := g[..idx - 1] + seq(amount, _ => []) + g[idx - 1..];
      assert forall r, c :: CellAt(g', r, c) == InsertedCell(g, idx, amount, r, c) by {
        forall r, c ensures CellAt(g', r, c) == InsertedCell(g, idx, amount, r, c) {
          if 1 <= r < idx {
            assert g'[r - 1] == g[r - 1];
          } else if idx <= r < idx + amount {
            assert g'[r - 1] == [];
          } else if idx + amount <= r <= |g'| {
            assert g'[r - 1] == g[r - 1 - amount];
          }
        }
      }
      g'
  }

  /** Writes `vals[j]` at (r, left + j) for every j, left to right. */
  function WriteRow(g: Grid, r: int, left: int, vals: seq<Value>): (g': Grid)
    requires r >= 1 && left >= 1
    ensures forall r', c :: CellAt(g', r', c) == (if r' == r && left <= c < left + |vals| then vals[c - left] else CellAt(g, r', c))
    decreases |vals|
  {
    if vals == [] then g
    else WriteRow(SetCell(g, r, left, vals[0]), r, left + 1, vals[1..])
  }

  /** The cell (r, c) after `rows` is written as a block whose upper-left cell is (top, left). */
  function BlockCell(g: Grid, top: int, left: int, rows: seq<Row>, width: nat, r: int, c: int): Value
    requires forall i :: 0 <= i < |rows| ==> |rows[i]| >= width
  {
    if top <= r < top + |rows| && left <= c < left + width then rows[r - top][c - left]
    else CellAt(g, r, c)
  }

  /** Writes `rows[i][j]` at (top + i, left + j) for every row i and every j < width,
      row-major. */
  function WriteBlock(g: Grid, top: int, left: int, rows: seq<Row>, width: nat): (g': Grid)
    requires top >= 1 && left >= 1
    requires forall i :: 0 <= i < |rows| ==> |rows[i]| >= width
    ensures forall r, c :: CellAt(g', r, c) == BlockCell(g, top, left, rows, width, r, c)
    decreases |rows|
  {
    if rows == [] then g
    else WriteBlock(WriteRow(g, top, left, rows[0][..width]), top + 1, left, rows[1..], width)
  }
}
