/**
 Column-named frames and the two projections the writer applies to incoming data:
 selection of columns by label, where a label that several columns carry selects
 all of them, and the alignment of a feed to a table's header, which compares
 labels in lower case and restores the table's own spelling.
 */
module Frames {
  import opened Strings
  import opened Outcomes
  import opened Cells
  import opened Sequences

  /** A data frame: column labels and rows of cell values. */
  datatype Frame = Frame(columns: seq<string>, rows: seq<Row>)

  /** Every row holds one value per column, as in every data frame. */
  predicate Rectangular(f: Frame) {
    forall i :: 0 <= i < |f.rows| ==> |f.rows[i]| == |f.columns|
  }

  /** The positions of the columns labelled `key`, in increasing order. */
  function Matches(cols: seq<string>, key: string): (r: seq<nat>)
    ensures forall p :: p in r <==> 0 <= p < |cols| && cols[p] == key
    ensures forall a, b :: 0 <= a < b < |r| ==> r[a] < r[b]
    decreases |cols|
  {
    if cols == [] then []
    else
      var init := Matches(cols[..|cols| - 1], key);
      assert forall p :: 0 <= p < |cols| - 1 ==> cols[..|cols| - 1][p] == cols[p];
      assert forall a :: 0 <= a < |init| ==> init[a] in init;
      if cols[|cols| - 1] == key then init + [|cols| - 1] else init
  }

  /** Some column carries `key`. */
  predicate Labelled(cols: seq<string>, key: string) {
    exists k :: 0 <= k < |cols| && cols[k] == key
  }

  /** Exactly one column carries `key`. */
  predicate UniquelyLabelled(cols: seq<string>, key: string) {
    |Matches(cols, key)| == 1
  }

  lemma {:induction false} MatchesNonEmpty(cols: seq<string>, key: string)
    requires Labelled(cols, key)
    ensures |Matches(cols, key)| >= 1
  {
    var k :| 0 <= k < |cols| && cols[k] == key;
    assert k in Matches(cols, key);
  }

  lemma {:induction false} MatchedLabelled(cols: seq<string>, key: string)
    requires Matches(cols, key) != []
    ensures Labelled(cols, key)
  {
    var m := Matches(cols, key);
    assert m[0] in m;
  }

  lemma {:induction false} UnlabelledNotUnique(cols: seq<string>, key: string)
    requires !Labelled(cols, key)
    ensures Matches(cols, key) == []
  {
    if Matches(cols, key) != [] {
      MatchedLabelled(cols, key);
    }
  }

  /** The column positions `df[keys]` selects: for each key in turn, every column it labels. */
  function Selection(cols: seq<string>, keys: seq<string>): (r: seq<nat>)
    ensures forall j :: 0 <= j < |r| ==> r[j] < |cols|
    decreases |keys|
  {
    if keys == [] then []
    else
      var head := Matches(cols, keys[0]);
      var rest := Selection(cols, keys[1..]);
      assert forall j :: 0 <= j < |head| ==> head[j] in head;
      head + rest
  }

  /** When every key labels some column, the selection is exactly as wide as the keys
      when and only when every key labels exactly one column. */
  lemma {:induction false} SelectionWidth(cols: seq<string>, keys: seq<string>)
    requires forall j :: 0 <= j < |keys| ==> Labelled(cols, keys[j])
    ensures |Selection(cols, keys)| >= |keys|
    ensures |Selection(cols, keys)| == |keys| <==> forall j :: 0 <= j < |keys| ==> UniquelyLabelled(cols, keys[j])
    decreases |keys|
  {
    if keys != [] {
      assert forall j :: 1 <= j < |keys| ==> keys[1..][j - 1] == keys[j];
      SelectionWidth(cols, keys[1..]);
      MatchesNonEmpty(cols, keys[0]);
    }
  }

  /** When every key labels exactly one column, the selection names that column for
      each key, in key order. */
  lemma {:induction false} SelectionUnique(cols: seq<string>, keys: seq<string>)
    requires forall j :: 0 <= j < |keys| ==> UniquelyLabelled(cols, keys[j])
    ensures |Selection(cols, keys)| == |keys|
    ensures forall j :: 0 <= j < |keys| ==> cols[Selection(cols, keys)[j]] == keys[j]
    decreases |keys|
  {
    if keys != [] {
      var head := Matches(cols, keys[0]);
      assert head[0] in head;
      assert forall j :: 1 <= j < |keys| ==> keys[1..][j - 1] == keys[j];
      SelectionUnique(cols, keys[1..]);
    }
  }

  /** One row restricted to the given positions, in their order. */
  function Project(row: Row, positions: seq<nat>): (r: Row)
    requires forall j :: 0 <= j < |positions| ==> positions[j] < |row|
    ensures |r| == |positions|
    ensures forall j :: 0 <= j < |positions| ==> r[j] == row[positions[j]]
  {
    seq(|positions|, j requires 0 <= j < |positions| => row[positions[j]])
  }

  /** `df[keys]` (lines 255 and 563): the selected columns of every row, under their labels. */
  function Select(f: Frame, keys: seq<string>): (r: Frame)
    requires Rectangular(f)
    ensures Rectangular(r) && |r.rows| == |f.rows| && |r.columns| == |Selection(f.columns, keys)|
    ensures (forall j :: 0 <= j < |keys| ==> UniquelyLabelled(f.columns, keys[j])) ==> r.columns == keys
  {
    var positions := Selection(f.columns, keys);
    var labels := seq(|positions|, j requires 0 <= j < |positions| => f.columns[positions[j]]);
    var rows := seq(|f.rows|, i requires 0 <= i < |f.rows| => Project(f.rows[i], positions));
    assert (forall j :: 0 <= j < |keys| ==> UniquelyLabelled(f.columns, keys[j])) ==> labels == keys by {
      if forall j :: 0 <= j < |keys| ==> UniquelyLabelled(f.columns, keys[j]) {
        SelectionUnique(f.columns, keys);
      }
    }
    Frame(labels, rows)
  }

  /** Each selected cell comes from a column of the data that carries the same label. */
  lemma {:induction false} SelectedCells(f: Frame, keys: seq<string>)
    requires Rectangular(f)
    ensures var r := Select(f, keys);
      forall i, j :: 0 <= i < |f.rows| && 0 <= j < |r.columns| ==>
        exists k :: 0 <= k < |f.columns| && f.columns[k] == r.columns[j] && r.rows[i][j] == f.rows[i][k]
  {
    var r := Select(f, keys);
    var positions := Selection(f.columns, keys);
    assert |r.columns| == |positions|;
    forall i, j | 0 <= i < |f.rows| && 0 <= j < |r.columns|
      ensures exists k :: 0 <= k < |f.columns| && f.columns[k] == r.columns[j] && r.rows[i][j] == f.rows[i][k]
    {
      var k := positions[j];
      assert 0 <= k < |f.columns|;
      assert f.columns[k] == r.columns[j] && r.rows[i][j] == f.rows[i][k];
    }
  }

  /** The lower-cased table labels the feed does not supply, in table order. */
  function MissingLabels(required: seq<string>, supplied: seq<string>): (r: seq<string>)
    ensures forall x :: x in r <==> x in required && x !in supplied
  {
    Filter(required, (x: string) => x !in supplied)
  }

  /** The missing labels keep the order of the header: those of a header's first part
      come before those of the rest. */
  lemma {:induction false} MissingInOrder(first: seq<string>, rest: seq<string>, supplied: seq<string>)
    ensures MissingLabels(first + rest, supplied) == MissingLabels(first, supplied) + MissingLabels(rest, supplied)
  {
    FilterAppend(first, rest, (x: string) => x !in supplied);
  }

  /** No label is missing exactly when every label is carried by some column. */
  lemma {:induction false} NothingMissing(required: seq<string>, supplied: seq<string>)
    ensures MissingLabels(required, supplied) == [] <==> forall j :: 0 <= j < |required| ==> Labelled(supplied, required[j])
  {
    var missing := MissingLabels(required, supplied);
    assert forall j :: 0 <= j < |required| ==> (Labelled(supplied, required[j]) <==> required[j] in supplied);
    if missing != [] {
      assert missing[0] in missing;
    } else {
      assert forall j :: 0 <= j < |required| ==> required[j] !in missing;
    }
  }

  /** `align_feed_data` (lines 241-258): the feed's columns matched to the table's header
      without regard to case, put in header order and renamed to the header's spelling.
      Every header label the feed lacks is reported, lower-cased; a label several feed
      columns carry selects all of them, and the renaming then fails on the width. */
  function Align(header: seq<string>, data: Frame): (r: Result<Frame>)
    requires Rectangular(data)
    ensures r.Err? ==> r.error.MissingColumns? || r.error.ColumnCountMismatch?
    ensures (r.Err? && r.error.MissingColumns?) ==>
      !forall j :: 0 <= j < |header| ==> Labelled(LowerAll(data.columns), LowerAll(header)[j])
    ensures (r.Err? && r.error.MissingColumns?) <==
      (!forall j :: 0 <= j < |header| ==> Labelled(LowerAll(data.columns), LowerAll(header)[j]))
    ensures r.Err? && r.error.MissingColumns? ==> forall x :: x in r.error.columns <==>
      x in LowerAll(header) && x !in LowerAll(data.columns)
    ensures r.Ok? <==> forall j :: 0 <= j < |header| ==> UniquelyLabelled(LowerAll(data.columns), LowerAll(header)[j])
    ensures r.Ok? ==> Rectangular(r.value) && r.value.columns == header && |r.value.rows| == |data.rows|
  {
    var required := LowerAll(header);
    var lowered := Frame(LowerAll(data.columns), data.rows);
    var missing := MissingLabels(required, lowered.columns);
    NothingMissing(required, lowered.columns);
    if missing != [] then
      assert exists j :: 0 <= j < |header| && !Labelled(lowered.columns, required[j]);
      assert !forall j :: 0 <= j < |header| ==> UniquelyLabelled(lowered.columns, required[j]) by {
        var j :| 0 <= j < |header| && !Labelled(lowered.columns, required[j]);
        UnlabelledNotUnique(lowered.columns, required[j]);
      }
      Err(MissingColumns(missing))
    else
      SelectionWidth(lowered.columns, required);
      var selected := Select(lowered, required);
      if |selected.columns| != |header| then
        Err(ColumnCountMismatch(|header|, |selected.columns|))
      else
        Ok(Frame(header, selected.rows))
  }

  /** The labels reported missing are the missing ones in header order, lower-cased. */
  lemma {:induction false} MissingReported(header: seq<string>, data: Frame)
    requires Rectangular(data) && Align(header, data).Err? && Align(header, data).error.MissingColumns?
    ensures Align(header, data).error.columns == MissingLabels(LowerAll(header), LowerAll(data.columns))
  {
  }

  /** `positions` lists, in increasing order, every position of `required` whose label
      `supplied` lacks, and `reported` holds the labels at those positions. */
  ghost predicate MissingAt(required: seq<string>, supplied: seq<string>, positions: seq<nat>, reported: seq<string>) {
    && |positions| == |reported|
    && (forall k :: 0 <= k < |positions| ==>
          positions[k] < |required| && reported[k] == required[positions[k]] && required[positions[k]] !in supplied)
    && (forall k, l :: 0 <= k < l < |positions| ==> positions[k] < positions[l])
    && (forall j :: Unsupplied(required, supplied, j) ==> j in positions)
  }

  /** Position `j` of `required` holds a label `supplied` lacks. */
  predicate Unsupplied(required: seq<string>, supplied: seq<string>, j: int) {
    0 <= j < |required| && required[j] !in supplied
  }

  /** The missing labels of a non-empty list: its first label when unsupplied, then those
      of the rest. */
  lemma {:induction false} MissingCons(required: seq<string>, supplied: seq<string>)
    requires required != []
    ensures MissingLabels(required, supplied)
      == (if required[0] !in supplied then [required[0]] else []) + MissingLabels(required[1..], supplied)
  {
  }

  /** Every position moved one place to the right. */
  function Shifted(positions: seq<nat>): (r: seq<nat>)
    ensures |r| == |positions| && forall k :: 0 <= k < |positions| ==> r[k] == positions[k] + 1
  {
    if positions == [] then [] else [positions[0] + 1] + Shifted(positions[1..])
  }

  /** The positions of the labels missing from the tail of `required`, seen from the whole
      list, when its first label is supplied. */
  lemma {:induction false} PickedPastSupplied(required: seq<string>, supplied: seq<string>, rest: seq<nat>, reported: seq<string>)
    requires required != [] && required[0] in supplied
    requires MissingAt(required[1..], supplied, rest, reported)
    ensures MissingAt(required, supplied, Shifted(rest), reported)
  {
    var tail, positions := required[1..], Shifted(rest);
    forall k | 0 <= k < |positions|
      ensures positions[k] < |required| && reported[k] == required[positions[k]]
    {
      assert tail[rest[k]] == required[rest[k] + 1];
    }
    forall j | Unsupplied(required, supplied, j)
      ensures j in positions
    {
      assert tail[j - 1] == required[j] && Unsupplied(tail, supplied, j - 1);
      var k :| 0 <= k < |rest| && rest[k] == j - 1;
      assert positions[k] == j;
    }
  }

  /** The same, when the first label of `required` is missing too: it comes first. */
  lemma {:induction false} PickedWithFirst(required: seq<string>, supplied: seq<string>, rest: seq<nat>, reported: seq<string>)
    requires required != [] && required[0] !in supplied
    requires MissingAt(required[1..], supplied, rest, reported)
    ensures MissingAt(required, supplied, [0] + Shifted(rest), [required[0]] + reported)
  {
    var tail, shifted := required[1..], Shifted(rest);
    var positions, labels := [0] + shifted, [required[0]] + reported;
    assert |positions| == |labels| && positions[0] == 0 && labels[0] == required[0];
    forall k | 0 <= k < |positions|
      ensures positions[k] < |required| && labels[k] == required[positions[k]]
    {
      if k > 0 {
        assert positions[k] == shifted[k - 1] && labels[k] == reported[k - 1];
        assert tail[rest[k - 1]] == required[rest[k - 1] + 1];
      }
    }
    forall k, l | 0 <= k < l < |positions|
      ensures positions[k] < positions[l]
    {
      assert positions[l] == rest[l - 1] + 1;
      if k > 0 {
        assert positions[k] == rest[k - 1] + 1;
      }
    }
    forall j | Unsupplied(required, supplied, j)
      ensures j in positions
    {
      if j > 0 {
        assert tail[j - 1] == required[j] && Unsupplied(tail, supplied, j - 1);
        var k :| 0 <= k < |rest| && rest[k] == j - 1;
        assert positions[k + 1] == j;
      }
    }
  }

  /** The missing labels are those at the unsupplied positions of `required`, in order. */
  lemma {:induction false} MissingPicked(required: seq<string>, supplied: seq<string>)
    ensures exists positions :: MissingAt(required, supplied, positions, MissingLabels(required, supplied))
  {
    if required == [] {
      assert MissingAt(required, supplied, [], MissingLabels(required, supplied));
    } else {
      var tail := required[1..];
      var mt := MissingLabels(tail, supplied);
      MissingPicked(tail, supplied);
      var rest :| MissingAt(tail, supplied, rest, mt);
      MissingCons(required, supplied);
      if required[0] in supplied {
        PickedPastSupplied(required, supplied, rest, mt);
        assert MissingAt(required, supplied, Shifted(rest), MissingLabels(required, supplied));
      } else {
        PickedWithFirst(required, supplied, rest, mt);
        assert MissingAt(required, supplied, [0] + Shifted(rest), MissingLabels(required, supplied));
      }
    }
  }

  /** A missing-columns error lists the lower-cased header labels the lower-cased feed
      lacks, at increasing header positions, and no such label is left out. */
  lemma {:induction false} MissingOrdered(header: seq<string>, data: Frame)
    requires Rectangular(data) && Align(header, data).Err? && Align(header, data).error.MissingColumns?
    ensures exists positions :: MissingAt(LowerAll(header), LowerAll(data.columns), positions, Align(header, data).error.columns)
  {
    MissingReported(header, data);
    MissingPicked(LowerAll(header), LowerAll(data.columns));
  }

  /** The feed column cell (`i`, `j`) of the aligned frame comes from. */
  lemma {:induction false} AlignedCell(header: seq<string>, data: Frame, i: nat, j: nat) returns (k: nat)
    requires Rectangular(data) && Align(header, data).Ok? && i < |data.rows| && j < |header|
    ensures var r := Align(header, data).value;
      && k < |data.columns| && Lower(data.columns[k]) == Lower(header[j])
      && j < |r.rows[i]| && r.rows[i][j] == data.rows[i][k]
  {
    var required := LowerAll(header);
    var lowered := Frame(LowerAll(data.columns), data.rows);
    var selected := Select(lowered, required);
    assert Align(header, data).value.rows == selected.rows && selected.columns == required;
    SelectedCells(lowered, required);
    assert |selected.columns| == |header|;
    k :| k < |lowered.columns| && lowered.columns[k] == selected.columns[j] && selected.rows[i][j] == lowered.rows[i][k];
    assert Lower(data.columns[k]) == Lower(header[j]);
  }

  /** Each aligned cell comes from the feed column whose label matches the header label
      without regard to case. */
  lemma {:induction false} AlignedCells(header: seq<string>, data: Frame)
    requires Rectangular(data) && Align(header, data).Ok?
    ensures var r := Align(header, data).value;
      forall i, j :: 0 <= i < |data.rows| && 0 <= j < |header| ==>
        exists k :: 0 <= k < |data.columns| && Lower(data.columns[k]) == Lower(header[j]) && r.rows[i][j] == data.rows[i][k]
  {
    var r := Align(header, data).value;
    forall i, j | 0 <= i < |data.rows| && 0 <= j < |header|
      ensures exists k :: 0 <= k < |data.columns| && Lower(data.columns[k]) == Lower(header[j]) && r.rows[i][j] == data.rows[i][k]
    {
      var k := AlignedCell(header, data, i, j);
    }
  }

  /** The positions of "name" and "value" among columns "value", "name", "extra". */
  lemma MatchesExample()
    ensures Matches(["value", "name", "extra"], "name") == [1]
    ensures Matches(["value", "name", "extra"], "value") == [0]
  {
    var cols := ["value", "name", "extra"];
    assert cols[..2] == ["value", "name"] && cols[..2][..1] == ["value"] && cols[..2][..1][..0] == [];
    assert Matches(["value"], "name") == [] && Matches(["value"], "value") == [0];
    assert Matches(["value", "name"], "name") == [1] && Matches(["value", "name"], "value") == [0];
  }

  /** Selecting "name" then "value" picks the second column, then the first. */
  lemma SelectionExample()
    ensures Selection(["value", "name", "extra"], ["name", "value"]) == [1, 0]
  {
    var cols := ["value", "name", "extra"];
    MatchesExample();
    assert ["value"][1..] == [];
    assert Selection(cols, ["value"]) == [0] + Selection(cols, []);
    assert ["name", "value"][1..] == ["value"];
    assert Selection(cols, ["name", "value"]) == [1] + Selection(cols, ["value"]);
  }

  /** Selecting "name" then "value" from columns "value", "name", "extra". */
  lemma {:induction false} SelectExample(n: Value, v: Value, x: Value)
    ensures Select(Frame(["value", "name", "extra"], [[v, n, x]]), ["name", "value"]) == Frame(["name", "value"], [[n, v]])
  {
    var cols := ["value", "name", "extra"];
    var positions := Selection(cols, ["name", "value"]);
    SelectionExample();
    assert positions == [1, 0];
    var row := Project([v, n, x], positions);
    assert row == [n, v] by {
      assert |row| == 2 && row[0] == n && row[1] == v;
    }
    var selected := Select(Frame(cols, [[v, n, x]]), ["name", "value"]);
    assert selected.rows == [row];
    assert selected.columns == [cols[1], cols[0]];
  }

  /** When no label is missing and the selection is as wide as the header, the aligned
      frame is the lower-cased selection under the header's own labels. */
  lemma {:induction false} AlignSelects(header: seq<string>, data: Frame)
    requires Rectangular(data)
    requires MissingLabels(LowerAll(header), LowerAll(data.columns)) == []
    requires |Select(Frame(LowerAll(data.columns), data.rows), LowerAll(header)).columns| == |header|
    ensures Align(header, data) == Ok(Frame(header, Select(Frame(LowerAll(data.columns), data.rows), LowerAll(header)).rows))
  {
  }

  /** Lower-casing the single labels of the examples below, two at a time. */
  lemma LowerNameWords()
    ensures Lower("Name") == "name" && Lower("NAME") == "name"
  {
    assert Lower("Name") == "name";
    assert Lower("NAME") == "name";
  }

  lemma LowerValueWords()
    ensures Lower("Value") == "value" && Lower("value") == "value"
  {
    assert Lower("Value") == "value";
    assert Lower("value") == "value";
  }

  lemma LowerOtherWords()
    ensures Lower("Date") == "date" && Lower("extra") == "extra"
  {
    assert Lower("Date") == "date";
    assert Lower("extra") == "extra";
  }

  /** Lower-casing the labels of the alignment example. */
  lemma LowerExample()
    ensures LowerAll(["Name", "Value"]) == ["name", "value"]
    ensures LowerAll(["value", "NAME", "extra"]) == ["value", "name", "extra"]
  {
    LowerNameWords();
    LowerValueWords();
    LowerOtherWords();
  }

  /** Both labels of the alignment example are supplied by the feed. */
  lemma NoneMissingExample()
    ensures MissingLabels(["name", "value"], ["value", "name", "extra"]) == []
  {
    var required := ["name", "value"];
    var supplied := ["value", "name", "extra"];
    assert Labelled(supplied, required[0]) by { assert supplied[1] == required[0]; }
    assert Labelled(supplied, required[1]) by { assert supplied[0] == required[1]; }
    NothingMissing(required, supplied);
  }

  /** Table columns "Name" and "Value" against feed columns "value", "NAME" and "extra":
      the feed is reordered to the table's header and "extra" is dropped. */
  lemma {:induction false} AlignExample(n: Value, v: Value, x: Value)
    ensures Align(["Name", "Value"], Frame(["value", "NAME", "extra"], [[v, n, x]])) == Ok(Frame(["Name", "Value"], [[n, v]]))
  {
    LowerExample();
    NoneMissingExample();
    SelectExample(n, v, x);
    AlignSelects(["Name", "Value"], Frame(["value", "NAME", "extra"], [[v, n, x]]));
  }

  /** Of the labels "name", "value" and "date", only "date" is missing from "name" and "value". */
  lemma MissingDateExample()
    ensures MissingLabels(["name", "value", "date"], ["name", "value"]) == ["date"]
  {
    var required := ["name", "value", "date"];
    var supplied := ["name", "value"];
    assert required[1..] == ["value", "date"] && required[1..][1..] == ["date"] && required[1..][1..][1..] == [];
    assert "name" in supplied && "value" in supplied && "date" !in supplied;
  }

  /** Table columns "Name", "Value" and "Date" against feed columns "Name" and "Value":
      the alignment fails naming "date". */
  lemma {:induction false} MissingExample(rows: seq<Row>)
    requires forall i :: 0 <= i < |rows| ==> |rows[i]| == 2
    ensures Align(["Name", "Value", "Date"], Frame(["Name", "Value"], rows)) == Err(MissingColumns(["date"]))
  {
    LowerNameWords();
    LowerValueWords();
    LowerOtherWords();
    assert LowerAll(["Name", "Value", "Date"]) == ["name", "value", "date"];
    assert LowerAll(["Name", "Value"]) == ["name", "value"];
    MissingDateExample();
  }
}
