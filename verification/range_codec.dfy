/**
 The A1-style reference codec: column letters in bijective base 26
 (A = 1, Z = 26, AA = 27), decimal row numbers, and table references
 "A1:C10" decoded into four numbers and encoded back.
 */
module RangeCodec {
  import opened Strings
  import opened Outcomes

  /** openpyxl names columns up to "ZZZ"; `get_column_letter` raises above it. */
  const MaxColumn := 18278

  predicate ValidColumn(col: int) {
    1 <= col <= MaxColumn
  }

  predicate AllLetters(s: string) {
    forall i :: 0 <= i < |s| ==> IsLetter(s[i])
  }

  predicate AllUpper(s: string) {
    forall i :: 0 <= i < |s| ==> IsUpper(s[i])
  }

  /** The value of one column letter; lower case counts as upper case. */
  function LetterValue(ch: char): (v: int)
    requires IsLetter(ch)
    ensures 1 <= v <= 26
  {
    if IsUpper(ch) then ch as int - 'A' as int + 1 else ch as int - 'a' as int + 1
  }

  function UpperLetter(v: int): (ch: char)
    requires 1 <= v <= 26
    ensures IsUpper(ch) && LetterValue(ch) == v
  {
    ('A' as int + v - 1) as char
  }

  /** `column_index_from_string`: the column number named by a run of letters. */
  function ColumnIndex(s: string): (col: int)
    requires AllLetters(s)
    ensures s != [] ==> col >= 1
    ensures s == [] ==> col == 0
    ensures |s| <= 1 ==> col <= 26
    ensures |s| <= 2 ==> col <= 702
    ensures |s| <= 3 ==> col <= MaxColumn
  {
    if s == [] then 0 else ColumnIndex(s[..|s| - 1]) * 26 + LetterValue(s[|s| - 1])
  }

  /** `get_column_letter`: the letters naming a column. */
  function ColumnLetters(col: int): (s: string)
    requires ValidColumn(col)
    ensures 1 <= |s| <= 3 && AllUpper(s)
    ensures |s| == 1 <==> col <= 26
    ensures |s| <= 2 <==> col <= 702
    decreases col
  {
    var q := (col - 1) / 26;
    var ch := UpperLetter((col - 1) % 26 + 1);
    if q == 0 then [ch] else ColumnLetters(q) + [ch]
  }

  /** Naming a column and reading the name back gives the column. */
  lemma {:induction false} ColumnLettersRoundTrip(col: int)
    requires ValidColumn(col)
    ensures ColumnIndex(ColumnLetters(col)) == col
    decreases col
  {
    var q := (col - 1) / 26;
    var s := ColumnLetters(col);
    if q != 0 {
      ColumnLettersRoundTrip(q);
      assert s[..|s| - 1] == ColumnLetters(q);
    }
  }

  /** Every upper-case name of one to three letters is the canonical name of its column. */
  lemma {:induction false} ColumnIndexRoundTrip(s: string)
    requires 1 <= |s| <= 3 && AllUpper(s)
    ensures ValidColumn(ColumnIndex(s)) && ColumnLetters(ColumnIndex(s)) == s
    decreases |s|
  {
    var p := s[..|s| - 1];
    var c := s[|s| - 1];
    var v := LetterValue(c);
    var col := ColumnIndex(s);
    LastDigit(ColumnIndex(p), v);
    assert UpperLetter(v) == c;
    assert s == p + [c];
    if p != [] {
      ColumnIndexRoundTrip(p);
      assert ColumnLetters(col) == ColumnLetters(ColumnIndex(p)) + [c];
    } else {
      assert ColumnLetters(col) == [c];
    }
  }

  /** The last digit of a bijective base-26 numeral and the numeral before it. */
  lemma {:induction false} LastDigit(q: int, v: int)
    requires 1 <= v <= 26
    ensures (q * 26 + v - 1) / 26 == q && (q * 26 + v - 1) % 26 + 1 == v
  {
    assert q * 26 + v - 1 == 26 * q + (v - 1);
  }

  function DigitValue(ch: char): (d: nat)
    requires IsDigit(ch)
    ensures d <= 9
  {
    ch as int - '0' as int
  }

  function DigitChar(d: nat): (ch: char)
    requires d <= 9
    ensures IsDigit(ch) && DigitValue(ch) == d
  {
    ('0' as int + d) as char
  }

  /** `int(s)` on a run of decimal digits. */
  function DigitsValue(s: string): nat
    requires AllDigits(s)
  {
    if s == [] then 0 else DigitsValue(s[..|s| - 1]) * 10 + DigitValue(s[|s| - 1])
  }

  /** `str(n)` for a natural number. */
  function Digits(n: nat): (s: string)
    ensures |s| >= 1 && AllDigits(s)
  {
    if n < 10 then [DigitChar(n)] else Digits(n / 10) + [DigitChar(n % 10)]
  }

  /** `str(i)` for any integer. */
  function IntString(i: int): string {
    if i < 0 then "-" + Digits(-i) else Digits(i)
  }

  lemma {:induction false} DigitsRoundTrip(n: nat)
    ensures DigitsValue(Digits(n)) == n
  {
    if n >= 10 {
      DigitsRoundTrip(n / 10);
      var s := Digits(n);
      assert s[..|s| - 1] == Digits(n / 10);
    }
  }

  /** The length of the run of letters that starts `s`. */
  function LeadingLetters(s: string): (n: nat)
    ensures n <= |s| && AllLetters(s[..n])
    ensures n < |s| ==> !IsLetter(s[n])
  {
    if s == [] || !IsLetter(s[0]) then 0
    else
      var n := 1 + LeadingLetters(s[1..]);
      assert s[..n] == [s[0]] + s[1..][..n - 1];
      n
  }

  function DropDollar(s: string): string {
    if |s| > 0 && s[0] == '$' then s[1..] else s
  }

  datatype Coordinate = Coordinate(column: int, row: int)

  /** A final newline dropped: the `$` that ends openpyxl's coordinate pattern also
      matches just before one. */
  function DropNewline(s: string): string {
    if |s| > 0 && s[|s| - 1] == '\n' then s[..|s| - 1] else s
  }

  /** The letters of a coordinate and the text of its row: an optional `$`, the leading
      letters, an optional `$`, and the rest without the one newline that the `$` ending
      openpyxl's coordinate pattern also matches before. */
  function CoordinateText(s: string): (string, string) {
    var a := DropDollar(s);
    var n := LeadingLetters(a);
    (a[..n], DropNewline(DropDollar(a[n..])))
  }

  /** `coordinate_from_string` then `column_index_from_string`: one to three letters and
      decimal digits naming a row other than 0. */
  function ParseCoordinate(s: string): (r: Option<Coordinate>)
    ensures r.Some? ==> ValidColumn(r.value.column) && r.value.row >= 1
  {
    var (l, b) := CoordinateText(s);
    if 1 <= |l| <= 3 && |b| >= 1 && AllDigits(b) && DigitsValue(b) != 0 then
      Some(Coordinate(ColumnIndex(l), DigitsValue(b)))
    else None
  }

  /** A newline after the row is read past, once: a coordinate and the coordinate
      followed by a newline parse alike. */
  lemma {:induction false} NewlineTolerated(s: string)
    requires s == [] || s[|s| - 1] != '\n'
    ensures ParseCoordinate(s + "\n") == ParseCoordinate(s)
  {
    NewlineText(s);
  }

  lemma {:induction false} NewlineText(s: string)
    requires s == [] || s[|s| - 1] != '\n'
    ensures CoordinateText(s + "\n") == CoordinateText(s)
  {
    var a := DropDollar(s);
    var n := LeadingLetters(a);
    var d := DropDollar(a[n..]);
    AppendAfterLetters(s, "\n");
    CoordinateTail(s);
    assert DropNewline(d + "\n") == d && DropNewline(d) == d;
  }

  /** What follows the letters of a coordinate ends as the coordinate does. */
  lemma {:induction false} CoordinateTail(s: string)
    ensures var a := DropDollar(s); var d := DropDollar(a[LeadingLetters(a)..]);
      d == [] || (s != [] && d[|d| - 1] == s[|s| - 1])
  {
  }

  /** A second newline is not read past. */
  lemma {:induction false} SecondNewlineFails(s: string)
    ensures ParseCoordinate(s + "\n\n") == None
  {
    var a := DropDollar(s);
    var n := LeadingLetters(a);
    AppendAfterLetters(s, "\n\n");
    var d := DropDollar(a[n..]);
    var b := CoordinateText(s + "\n\n").1;
    assert b == DropNewline(d + "\n\n") == d + "\n";
    assert !IsDigit(b[|b| - 1]);
  }

  /** "B2" followed by a newline names column 2, row 2. */
  lemma NewlineExample()
    ensures ParseCoordinate("B2\n") == Some(Coordinate(2, 2))
  {
    CoordinateRoundTrip(2, 2);
    assert ColumnLetters(2) == "B" && Digits(2) == "2";
    NewlineTolerated("B2");
    assert "B2" + "\n" == "B2\n";
  }

  /** Text that starts with neither a `$` nor a letter, appended to a coordinate, ends
      up after its row digits. */
  lemma {:induction false} AppendAfterLetters(s: string, t: string)
    requires t != [] && t[0] != '$' && !IsLetter(t[0])
    ensures var a := DropDollar(s); var n := LeadingLetters(a);
      && DropDollar(s + t) == a + t
      && LeadingLetters(a + t) == n
      && (a + t)[..n] == a[..n]
      && DropDollar((a + t)[n..]) == DropDollar(a[n..]) + t
  {
    var a := DropDollar(s);
    if |s| > 0 && s[0] == '$' {
      assert (s + t)[1..] == s[1..] + t;
    }
    LeadingLettersAppendOther(a, t);
    var n := LeadingLetters(a);
    assert (a + t)[n..] == a[n..] + t;
    var c := a[n..];
    if |c| > 0 && c[0] == '$' {
      assert (c + t)[1..] == c[1..] + t;
    }
  }

  /** Text that does not start with a letter ends the leading run of letters. */
  lemma {:induction false} LeadingLettersAppendOther(s: string, t: string)
    requires t != [] && !IsLetter(t[0])
    ensures LeadingLetters(s + t) == LeadingLetters(s)
    decreases |s|
  {
    if s != [] && IsLetter(s[0]) {
      assert (s + t)[1..] == s[1..] + t;
      LeadingLettersAppendOther(s[1..], t);
    }
  }

  /** A table's rows and columns, both ends inclusive. */
  datatype Extent = Extent(startRow: int, endRow: int, startCol: int, endCol: int)

  /** Both columns can be named by `get_column_letter`. */
  predicate Encodable(e: Extent) {
    ValidColumn(e.startCol) && ValidColumn(e.endCol)
  }

  /** What a decoded reference can hold: named columns and rows from 1 on. */
  predicate Decodable(e: Extent) {
    Encodable(e) && e.startRow >= 1 && e.endRow >= 1
  }

  function ColonCount(s: string): nat {
    if s == [] then 0 else (if s[0] == ':' then 1 else 0) + ColonCount(s[1..])
  }

  function ColonIndex(s: string): (i: nat)
    requires ColonCount(s) >= 1
    ensures i < |s| && s[i] == ':' && ColonCount(s[..i]) == 0
  {
    if s[0] == ':' then 0
    else
      var i := 1 + ColonIndex(s[1..]);
      assert s[..i] == [s[0]] + s[1..][..i - 1];
      i
  }

  /** The table reference split at its colon and both halves parsed (lines 172-178).
      `ref.split(":")` unpacks into two halves only when there is exactly one colon. */
  function DecodeRange(ref: string): (r: Result<Extent>)
    ensures r.Ok? ==> Decodable(r.value)
    ensures r.Err? ==> r.error == MalformedRange(ref)
    ensures ColonCount(ref) != 1 ==> r.Err?
  {
    if ColonCount(ref) != 1 then Err(MalformedRange(ref))
    else
      var i := ColonIndex(ref);
      match (ParseCoordinate(ref[..i]), ParseCoordinate(ref[i + 1..]))
      case (Some(first), Some(last)) => Ok(Extent(first.row, last.row, first.column, last.column))
      case _ => Err(MalformedRange(ref))
  }

  /** The f-string of lines 328 and 379. */
  function EncodeRange(e: Extent): string
    requires Encodable(e)
  {
    ColumnLetters(e.startCol) + IntString(e.startRow) + ":" + ColumnLetters(e.endCol) + IntString(e.endRow)
  }

  lemma {:induction false} ColonCountAppend(a: string, b: string)
    ensures ColonCount(a + b) == ColonCount(a) + ColonCount(b)
    decreases |a|
  {
    if a == [] {
      assert a + b == b;
    } else {
      assert (a + b)[0] == a[0] && (a + b)[1..] == a[1..] + b;
      ColonCountAppend(a[1..], b);
    }
  }

  lemma {:induction false} NoColonInCell(s: string)
    requires forall i :: 0 <= i < |s| ==> IsLetter(s[i]) || IsDigit(s[i])
    ensures ColonCount(s) == 0
    decreases |s|
  {
    if s != [] {
      NoColonInCell(s[1..]);
    }
  }

  lemma {:induction false} LeadingLettersAppend(l: string, d: string)
    requires AllLetters(l)
    requires d != [] && !IsLetter(d[0])
    ensures LeadingLetters(l + d) == |l|
  {
    LeadingLettersAppendOther(l, d);
    LeadingLettersAll(l);
  }

  /** A run of letters is all leading letters. */
  lemma {:induction false} LeadingLettersAll(l: string)
    requires AllLetters(l)
    ensures LeadingLetters(l) == |l|
    decreases |l|
  {
    if l != [] {
      LeadingLettersAll(l[1..]);
    }
  }

  /** One encoded corner parses back to its column and row. */
  lemma {:induction false} CoordinateRoundTrip(col: int, row: int)
    requires ValidColumn(col) && row >= 1
    ensures ParseCoordinate(ColumnLetters(col) + Digits(row)) == Some(Coordinate(col, row))
  {
    var l := ColumnLetters(col);
    var d := Digits(row);
    var s := l + d;
    assert DropDollar(s) == s;
    LeadingLettersAppend(l, d);
    assert s[..|l|] == l && s[|l|..] == d;
    assert DropNewline(d) == d;
    assert CoordinateText(s) == (l, d);
    DigitsRoundTrip(row);
    ColumnLettersRoundTrip(col);
  }

  /** The text of an encodable extent has one colon, between the texts of its corners. */
  lemma {:induction false} EncodedSplit(e: Extent, first: string, last: string)
    requires Encodable(e)
    requires first == ColumnLetters(e.startCol) + IntString(e.startRow)
    requires last == ColumnLetters(e.endCol) + IntString(e.endRow)
    requires e.startRow >= 1 && e.endRow >= 1
    ensures var s := EncodeRange(e);
      ColonCount(s) == 1 && ColonIndex(s) == |first| && s[..|first|] == first && s[|first| + 1..] == last
  {
    var s := EncodeRange(e);
    assert s == first + ":" + last;
    NoColonInCell(first);
    NoColonInCell(last);
    assert s == first + (":" + last);
    ColonCountAppend(first, ":" + last);
    ColonCountAppend(":", last);
    assert ColonCount(":") == 1 by {
      assert ":"[1..] == [];
    }
    assert s[..|first|] == first;
    assert ColonCount(s[..|first|]) == 0;
    assert s[|first| + 1..] == last;
  }

  /** Encoding a decodable extent and decoding the text gives the extent back. */
  lemma {:induction false} RangeRoundTrip(e: Extent)
    requires Decodable(e)
    ensures DecodeRange(EncodeRange(e)) == Ok(e)
  {
    var first := ColumnLetters(e.startCol) + Digits(e.startRow);
    var last := ColumnLetters(e.endCol) + Digits(e.endRow);
    EncodedSplit(e, first, last);
    CoordinateRoundTrip(e.startCol, e.startRow);
    CoordinateRoundTrip(e.endCol, e.endRow);
    var s := EncodeRange(e);
    var i := ColonIndex(s);
    assert s[..i] == first && s[i + 1..] == last;
    assert ParseCoordinate(s[..i]) == Some(Coordinate(e.startCol, e.startRow));
    assert ParseCoordinate(s[i + 1..]) == Some(Coordinate(e.endCol, e.endRow));
  }
}
