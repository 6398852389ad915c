/**
 The load plan: which input files to read, and which columns of each csv file,
 xlsx table and xlsx sheet. Every source a report refers to is folded into the
 plan, and the column names of its mapping and its types are added to the set
 kept for it.
 */
module LoadPlan {
  import opened Strings
  import opened Outcomes

  const XlTable := "xl_table"
  const XlSheet := "xl_sheet"

  /** The settings of one source: its `name` (xlsx sources only) and the keys of its
      `column_mapping` and `column_types` dictionaries, `None` when the key is absent. */
  datatype Settings = Settings(name: Option<string>, columnMapping: Option<set<string>>, columnTypes: Option<set<string>>)

  /** The value a file name maps to: read as a csv source's settings, or as the
      (xl_type, settings) items of an xlsx source, in dictionary order. */
  datatype DataInfo = DataInfo(settings: Settings, xlItems: seq<(string, Settings)>)

  /** A `{file_name: data_info}` dictionary as its items, in order. */
  type FileInfo = seq<(string, DataInfo)>

  /** What the plan keeps for one file: the columns of a csv file, or the columns of each
      named table and sheet of an xlsx file. */
  datatype FilePlan = CsvPlan(cols: set<string>) | XlsxPlan(tables: map<string, set<string>>, sheets: map<string, set<string>>)

  type Plan = map<string, FilePlan>

  // ---------------------------------------------------------------- file names

  /** The position of the last `ch` in `s`, or -1. */
  function LastIndex(s: string, ch: char): (r: int)
    ensures -1 <= r < |s|
    ensures r >= 0 ==> s[r] == ch
    ensures forall k :: r < k < |s| ==> s[k] != ch
  {
    if s == [] then -1
    else if s[|s| - 1] == ch then |s| - 1
    else LastIndex(s[..|s| - 1], ch)
  }

  /** Some character strictly between positions `lo` and `hi` of `s` is not a dot. */
  predicate NonDotBetween(s: string, lo: int, hi: int)
    requires -1 <= lo && hi <= |s|
  {
    exists k :: lo < k < hi && s[k] != '.'
  }

  /** `os.path.splitext(path)[1]` with `/` as the separator, by a scan from the right
      end: from the last dot of the last path component, unless that component has
      nothing but dots before it. */
  function Extension(path: string): string {
    if path == [] then []
    else
      var init, last := path[..|path| - 1], path[|path| - 1];
      if last == '/' then []
      else if last == '.' then (if StemHasNonDot(init) then "." else [])
      else
        var ext := Extension(init);
        if ext == [] then [] else ext + [last]
  }

  /** The last path component of `s` holds a character other than a dot. */
  predicate StemHasNonDot(s: string) {
    s != [] && s[|s| - 1] != '/' && (s[|s| - 1] != '.' || StemHasNonDot(s[..|s| - 1]))
  }

  /** The same extension read off the positions of the last separator and the last dot. */
  function SplitExt(path: string): string {
    var sep := LastIndex(path, '/');
    var dot := LastIndex(path, '.');
    if dot > sep && NonDotBetween(path, sep, dot) then path[dot..] else []
  }

  /** Whether a non-dot lies between two positions does not depend on a last character
      past them. */
  lemma {:induction false} NonDotInit(s: string, lo: int, hi: int)
    requires s != [] && -1 <= lo && hi <= |s| - 1
    ensures NonDotBetween(s, lo, hi) <==> NonDotBetween(s[..|s| - 1], lo, hi)
  {
    var init := s[..|s| - 1];
    if NonDotBetween(s, lo, hi) {
      var k :| lo < k < hi && s[k] != '.';
      assert init[k] == s[k];
    }
    if NonDotBetween(init, lo, hi) {
      var k :| lo < k < hi && init[k] != '.';
      assert s[k] == init[k];
    }
  }

  lemma {:induction false} StemAgrees(s: string)
    ensures StemHasNonDot(s) <==> NonDotBetween(s, LastIndex(s, '/'), |s|)
  {
    if s != [] && s[|s| - 1] == '.' {
      var init := s[..|s| - 1];
      StemAgrees(init);
      var p := LastIndex(s, '/');
      assert p == LastIndex(init, '/');
      NonDotInit(s, p, |s| - 1);
      assert NonDotBetween(s, p, |s|) <==> NonDotBetween(s, p, |s| - 1);
    } else if s != [] && s[|s| - 1] != '/' {
      assert s[|s| - 1] != '.';
    }
  }

  /** The scan from the right finds the extension the last separator and the last dot
      delimit. */
  lemma {:induction false} ExtensionAgrees(path: string)
    ensures Extension(path) == SplitExt(path)
  {
    if path != [] {
      var init, last := path[..|path| - 1], path[|path| - 1];
      if last == '.' {
        DotAgrees(path);
      } else if last != '/' {
        ExtensionAgrees(init);
        OtherAgrees(path);
      }
    }
  }

  /** A name ending in a dot has the extension "." exactly when its last component has
      something other than dots before it. */
  lemma {:induction false} DotAgrees(path: string)
    requires path != [] && path[|path| - 1] == '.'
    ensures Extension(path) == SplitExt(path)
  {
    var init := path[..|path| - 1];
    StemAgrees(init);
    var p := LastIndex(path, '/');
    assert p == LastIndex(init, '/');
    NonDotInit(path, p, |path| - 1);
  }

  lemma {:induction false} SuffixAppend(s: string, c: char, i: nat)
    requires i <= |s|
    ensures (s + [c])[i..] == s[i..] + [c]
  {
  }

  /** A last character other than a dot or a separator extends the extension of the rest,
      if it has one. */
  lemma {:induction false} OtherAgrees(path: string)
    requires path != [] && path[|path| - 1] != '.' && path[|path| - 1] != '/'
    requires Extension(path[..|path| - 1]) == SplitExt(path[..|path| - 1])
    ensures Extension(path) == SplitExt(path)
  {
    var init, last := path[..|path| - 1], path[|path| - 1];
    var sep, dot := LastIndex(init, '/'), LastIndex(init, '.');
    assert sep == LastIndex(path, '/') && dot == LastIndex(path, '.');
    if dot > sep {
      NonDotInit(path, sep, dot);
      if NonDotBetween(init, sep, dot) {
        assert path == init + [last];
        SuffixAppend(init, last, dot);
      }
    }
  }

  /** How lines 50-93 treat a file, from its lower-cased extension. */
  datatype FileKind = Csv | Xlsx | Unsupported(extension: string)

  function Kind(fileName: string): FileKind {
    var ext := Lower(Extension(fileName));
    if ext == ".csv" then Csv else if ext == ".xlsx" then Xlsx else Unsupported(ext)
  }

  // ---------------------------------------------------------------- columns

  /** `d.get(key, {}).keys()`. */
  function KeysOrNone(keys: Option<set<string>>): set<string> {
    if keys.Some? then keys.value else {}
  }

  /** The column names a source's settings refer to (lines 59-60 and 83-84). */
  function Columns(s: Settings): (cols: set<string>)
    ensures forall c :: c in cols <==> (s.columnMapping.Some? && c in s.columnMapping.value) || (s.columnTypes.Some? && c in s.columnTypes.value)
  {
    KeysOrNone(s.columnMapping) + KeysOrNone(s.columnTypes)
  }

  /** The columns kept for `n`, and none when `n` is not there. */
  function ColsIn(m: map<string, set<string>>, n: string): set<string> {
    if n in m then m[n] else {}
  }

  /** The columns the plan keeps for a csv file. */
  function CsvCols(plan: Plan, file: string): set<string> {
    if file in plan && plan[file].CsvPlan? then plan[file].cols else {}
  }

  /** The name of the xlsx category `xl_type` selects: tables or sheets. */
  function TypeName(isTable: bool): string {
    if isTable then XlTable else XlSheet
  }

  /** The columns the plan keeps for table (`isTable`) or sheet `n` of an xlsx file. */
  function XlCols(plan: Plan, file: string, isTable: bool, n: string): set<string> {
    if file in plan && plan[file].XlsxPlan? then ColsIn(if isTable then plan[file].tables else plan[file].sheets, n) else {}
  }

  /** Every file of the plan holds the plan its extension calls for, as the updates below
      only ever store. */
  predicate WellKinded(plan: Plan) {
    forall f :: f in plan ==> Fits(f, plan[f])
  }

  /** `p` is what a file named `f` is stored as. */
  predicate Fits(f: string, p: FilePlan) {
    (p.CsvPlan? <==> Kind(f) == Csv) && (p.XlsxPlan? <==> Kind(f) == Xlsx)
  }

  lemma {:induction false} StoreKeepsKinded(plan: Plan, f: string, p: FilePlan)
    requires WellKinded(plan) && Fits(f, p)
    ensures WellKinded(plan[f := p])
  {
  }

  // ---------------------------------------------------------------- one file

  /** The keys of a file_info dictionary, in order. */
  function FileNames(info: FileInfo): (r: seq<string>)
    ensures |r| == |info|
    ensures forall k :: 0 <= k < |info| ==> r[k] == info[k].0
  {
    seq(|info|, k requires 0 <= k < |info| => info[k].0)
  }

  /** `validate_single_key` (lines 11-26). */
  function ValidateSingleKey(info: FileInfo): (r: Result<()>)
    ensures r.Ok? <==> |info| == 1
    ensures r.Err? ==> r.error == ExpectedSingleKey(FileNames(info))
  {
    if |info| != 1 then Err(ExpectedSingleKey(FileNames(info))) else Ok(())
  }

  /** An xlsx entry that passes the checks of lines 70-78: a known type and a name that
      is not empty. */
  predicate EntryOk(e: (string, Settings)) {
    (e.0 == XlTable || e.0 == XlSheet) && e.1.name.Some? && e.1.name.value != ""
  }

  /** The error an entry that fails those checks raises, the type check first. */
  function EntryError(e: (string, Settings)): Error {
    if e.0 != XlTable && e.0 != XlSheet then UnsupportedXlType(e.0) else MissingName(e.0)
  }

  /** The names the entries of type `xlType` carry. */
  function NamesOf(items: seq<(string, Settings)>, xlType: string): (r: set<string>)
    ensures forall n :: n in r <==> exists k :: 0 <= k < |items| && items[k].0 == xlType && items[k].1.name == Some(n)
  {
    if items == [] then {}
    else
      var rest := NamesOf(items[1..], xlType);
      assert forall k :: 1 <= k < |items| ==> items[k] == items[1..][k - 1];
      var e := items[0];
      if e.0 == xlType && e.1.name.Some? then {e.1.name.value} + rest else rest
  }

  /** The columns the entries of type `xlType` named `n` refer to, all together. */
  function Referenced(items: seq<(string, Settings)>, xlType: string, n: string): set<string> {
    if items == [] then {}
    else
      var e := items[0];
      (if e.0 == xlType && e.1.name == Some(n) then Columns(e.1) else {}) + Referenced(items[1..], xlType, n)
  }

  /** The entries of type `xlType` folded into one category on their own: each named entry
      adds its columns to its name's set. */
  function Merge(m: map<string, set<string>>, items: seq<(string, Settings)>, xlType: string): map<string, set<string>>
    decreases |items|
  {
    if items == [] then m
    else
      var e := items[0];
      var m' := if e.0 == xlType && e.1.name.Some? then m[e.1.name.value := ColsIn(m, e.1.name.value) + Columns(e.1)] else m;
      Merge(m', items[1..], xlType)
  }

  lemma {:induction false} MergeKeys(m: map<string, set<string>>, items: seq<(string, Settings)>, xlType: string)
    ensures Merge(m, items, xlType).Keys == m.Keys + NamesOf(items, xlType)
    decreases |items|
  {
    if items != [] {
      var e := items[0];
      var m' := if e.0 == xlType && e.1.name.Some? then m[e.1.name.value := ColsIn(m, e.1.name.value) + Columns(e.1)] else m;
      MergeKeys(m', items[1..], xlType);
      assert NamesOf(items, xlType) == (if e.0 == xlType && e.1.name.Some? then {e.1.name.value} else {}) + NamesOf(items[1..], xlType);
    }
  }

  lemma {:induction false} MergeCols(m: map<string, set<string>>, items: seq<(string, Settings)>, xlType: string, n: string)
    ensures ColsIn(Merge(m, items, xlType), n) == ColsIn(m, n) + Referenced(items, xlType, n)
    decreases |items|
  {
    if items != [] {
      var e := items[0];
      var m' := if e.0 == xlType && e.1.name.Some? then m[e.1.name.value := ColsIn(m, e.1.name.value) + Columns(e.1)] else m;
      MergeCols(m', items[1..], xlType, n);
    }
  }

  /** Two categories that keep the same names with the same columns are the same. */
  lemma {:induction false} SameCols(a: map<string, set<string>>, b: map<string, set<string>>)
    requires a.Keys == b.Keys
    requires forall n :: ColsIn(a, n) == ColsIn(b, n)
    ensures a == b
  {
    forall n | n in a ensures a[n] == b[n] {
      assert ColsIn(a, n) == ColsIn(b, n);
    }
  }

  /** Folding the same entries in a second time adds nothing. */
  lemma {:induction false} MergeIdempotent(m: map<string, set<string>>, items: seq<(string, Settings)>, xlType: string)
    ensures Merge(Merge(m, items, xlType), items, xlType) == Merge(m, items, xlType)
  {
    var once := Merge(m, items, xlType);
    MergeKeys(m, items, xlType);
    MergeKeys(once, items, xlType);
    forall n ensures ColsIn(Merge(once, items, xlType), n) == ColsIn(once, n) {
      MergeCols(m, items, xlType, n);
      MergeCols(once, items, xlType, n);
    }
    SameCols(Merge(once, items, xlType), once);
  }

  /** The loop of lines 69-88 over an xlsx source's entries, from the file's current
      tables and sheets: the first entry that fails its checks stops it, and otherwise
      tables and sheets come out as each category folded on its own. */
  function AddEntries(tables: map<string, set<string>>, sheets: map<string, set<string>>, items: seq<(string, Settings)>)
    : (r: Result<(map<string, set<string>>, map<string, set<string>>)>)
    ensures r.Ok? <==> EntriesOk(items)
    ensures r.Err? ==> exists k :: FirstBadEntry(items, k) && r.error == EntryError(items[k])
    ensures r.Ok? ==> r.value.0 == Merge(tables, items, XlTable) && r.value.1 == Merge(sheets, items, XlSheet)
    decreases |items|
  {
    if items == [] then Ok((tables, sheets))
    else
      var e := items[0];
      if !EntryOk(e) then
        assert FirstBadEntry(items, 0);
        Err(EntryError(e))
      else
        var n := e.1.name.value;
        var rest := if e.0 == XlTable then AddEntries(tables[n := ColsIn(tables, n) + Columns(e.1)], sheets, items[1..])
          else AddEntries(tables, sheets[n := ColsIn(sheets, n) + Columns(e.1)], items[1..]);
        EntriesOkCons(items);
        if rest.Err? then
          var k :| FirstBadEntry(items[1..], k) && rest.error == EntryError(items[1..][k]);
          FirstBadShift(items, k);
          rest
        else rest
  }

  /** `items[k]` is the first entry that fails its checks. */
  predicate FirstBadEntry(items: seq<(string, Settings)>, k: int) {
    0 <= k < |items| && !EntryOk(items[k]) && forall j :: 0 <= j < k ==> EntryOk(items[j])
  }

  lemma {:induction false} FirstBadShift(items: seq<(string, Settings)>, k: int)
    requires items != [] && EntryOk(items[0]) && FirstBadEntry(items[1..], k)
    ensures FirstBadEntry(items, k + 1) && items[k + 1] == items[1..][k]
  {
    assert forall j :: 1 <= j < k + 1 ==> items[j] == items[1..][j - 1];
  }

  lemma {:induction false} EntriesOkCons(items: seq<(string, Settings)>)
    requires items != []
    ensures EntriesOk(items) <==> EntryOk(items[0]) && EntriesOk(items[1..])
  {
    assert forall k :: 1 <= k < |items| ==> items[k] == items[1..][k - 1];
  }

  /** All entries of an xlsx source pass their checks. */
  predicate EntriesOk(items: seq<(string, Settings)>) {
    forall k :: 0 <= k < |items| ==> EntryOk(items[k])
  }

  /** A file_info the update accepts: one key, a supported extension, and for an xlsx
      file entries that all pass their checks. */
  predicate Acceptable(info: FileInfo) {
    |info| == 1 && (Kind(info[0].0) == Csv || (Kind(info[0].0) == Xlsx && EntriesOk(info[0].1.xlItems)))
  }

  /** What an xlsx file holds before an update: its current plan, or no tables and no
      sheets (line 66). */
  function Current(plan: Plan, file: string): (p: FilePlan)
    ensures p.XlsxPlan?
  {
    if file in plan && plan[file].XlsxPlan? then plan[file] else XlsxPlan(map[], map[])
  }

  /** `add_file_to_load_info` (lines 29-95). */
  function AddFileToLoadInfo(info: FileInfo, plan: Plan): (r: Result<Plan>)
    requires WellKinded(plan)
    ensures r.Ok? <==> Acceptable(info)
    ensures |info| != 1 ==> r == Err(ExpectedSingleKey(FileNames(info)))
    ensures |info| == 1 && Kind(info[0].0).Unsupported? ==> r == Err(UnsupportedExtension(Kind(info[0].0).extension))
    ensures |info| == 1 && Kind(info[0].0) == Xlsx && r.Err? ==> var items := info[0].1.xlItems;
      exists k :: FirstBadEntry(items, k) && r.error == EntryError(items[k])
    ensures r.Ok? ==> WellKinded(r.value)
    ensures r.Ok? ==> info[0].0 in r.value && r.value == plan[info[0].0 := r.value[info[0].0]]
    ensures r.Ok? && Kind(info[0].0) == Csv ==>
      r.value[info[0].0] == CsvPlan(CsvCols(plan, info[0].0) + Columns(info[0].1.settings))
    ensures r.Ok? && Kind(info[0].0) == Xlsx ==> var items := info[0].1.xlItems;
      var current := Current(plan, info[0].0);
      r.value[info[0].0] == XlsxPlan(Merge(current.tables, items, XlTable), Merge(current.sheets, items, XlSheet))
  {
    var _ :- ValidateSingleKey(info);
    var (file, data) := info[0];
    match Kind(file)
    case Csv =>
      var p := CsvPlan(CsvCols(plan, file) + Columns(data.settings));
      StoreKeepsKinded(plan, file, p);
      Ok(plan[file := p])
    case Xlsx =>
      var current := Current(plan, file);
      var (tables, sheets) :- AddEntries(current.tables, current.sheets, data.xlItems);
      var p := XlsxPlan(tables, sheets);
      StoreKeepsKinded(plan, file, p);
      Ok(plan[file := p])
    case Unsupported(ext) => Err(UnsupportedExtension(ext))
  }

  /** Accepting a file_info a second time changes nothing: the column sets are unions. */
  lemma {:induction false} AddTwice(info: FileInfo, plan: Plan)
    requires WellKinded(plan) && Acceptable(info)
    ensures AddFileToLoadInfo(info, AddFileToLoadInfo(info, plan).value) == AddFileToLoadInfo(info, plan)
  {
    var file := info[0].0;
    var once := AddFileToLoadInfo(info, plan).value;
    var twice := AddFileToLoadInfo(info, once).value;
    if Kind(file) == Xlsx {
      var items := info[0].1.xlItems;
      var current := Current(plan, file);
      assert Current(once, file) == once[file];
      MergeIdempotent(current.tables, items, XlTable);
      MergeIdempotent(current.sheets, items, XlSheet);
    } else {
      var cols := Columns(info[0].1.settings);
      assert CsvCols(once, file) == CsvCols(plan, file) + cols;
      assert CsvCols(once, file) + cols == CsvCols(once, file);
    }
    assert twice[file] == once[file];
    assert twice == once[file := once[file]] == once;
  }

  /** The error a file_info raises does not depend on the plan it is added to. */
  lemma {:induction false} ErrorIgnoresPlan(info: FileInfo, plan: Plan, other: Plan)
    requires WellKinded(plan) && WellKinded(other)
    requires AddFileToLoadInfo(info, plan).Err?
    ensures AddFileToLoadInfo(info, other) == AddFileToLoadInfo(info, plan)
  {
    var r, r' := AddFileToLoadInfo(info, plan), AddFileToLoadInfo(info, other);
    if |info| == 1 && Kind(info[0].0) == Xlsx {
      var items := info[0].1.xlItems;
      var k :| FirstBadEntry(items, k) && r.error == EntryError(items[k]);
      var k' :| FirstBadEntry(items, k') && r'.error == EntryError(items[k']);
      assert k == k';
    }
  }

  /** The columns a csv file_info adds for file `f`. */
  function CsvShare(info: FileInfo, f: string): set<string> {
    if |info| == 1 && info[0].0 == f && Kind(f) == Csv then Columns(info[0].1.settings) else {}
  }

  /** The columns an xlsx file_info adds for table (`isTable`) or sheet `n` of file `f`. */
  function XlShare(info: FileInfo, f: string, isTable: bool, n: string): set<string> {
    if |info| == 1 && info[0].0 == f && Kind(f) == Xlsx then Referenced(info[0].1.xlItems, TypeName(isTable), n) else {}
  }

  /** An accepted file_info adds its columns to its own csv file's set and leaves every
      other csv set as it was. */
  lemma {:induction false} AddedCsvColumns(info: FileInfo, plan: Plan, f: string)
    requires WellKinded(plan) && Acceptable(info)
    ensures CsvCols(AddFileToLoadInfo(info, plan).value, f) == CsvCols(plan, f) + CsvShare(info, f)
  {
    var after := AddFileToLoadInfo(info, plan).value;
    if f == info[0].0 && Kind(f) == Csv {
      assert after[f] == CsvPlan(CsvCols(plan, f) + Columns(info[0].1.settings));
    }
  }

  /** An accepted file_info adds its columns to the sets of its own xlsx file's tables and
      sheets and leaves every other set as it was. */
  lemma {:induction false} AddedXlColumns(info: FileInfo, plan: Plan, f: string, isTable: bool, n: string)
    requires WellKinded(plan) && Acceptable(info)
    ensures XlCols(AddFileToLoadInfo(info, plan).value, f, isTable, n) == XlCols(plan, f, isTable, n) + XlShare(info, f, isTable, n)
  {
    var after := AddFileToLoadInfo(info, plan).value;
    var file := info[0].0;
    if f == file && Kind(f) == Xlsx {
      var current := Current(plan, file);
      if isTable {
        MergeCols(current.tables, info[0].1.xlItems, XlTable, n);
      } else {
        MergeCols(current.sheets, info[0].1.xlItems, XlSheet, n);
      }
    }
  }

  // ---------------------------------------------------------------- the whole configuration

  /** The file names a sequence of file_infos names. */
  function FilesOf(infos: seq<FileInfo>): set<string> {
    if infos == [] then {} else (if |infos[0]| == 1 then {infos[0][0].0} else {}) + FilesOf(infos[1..])
  }

  /** `add_file_to_load_info` applied to each file_info in turn, the first error stopping
      the fold. */
  function FoldInfos(infos: seq<FileInfo>, plan: Plan): (r: Result<Plan>)
    requires WellKinded(plan)
    ensures r.Ok? <==> forall k :: 0 <= k < |infos| ==> Acceptable(infos[k])
    ensures r.Ok? ==> WellKinded(r.value)
    decreases |infos|
  {
    if infos == [] then Ok(plan)
    else
      var first := AddFileToLoadInfo(infos[0], plan);
      if first.Err? then Err(first.error)
      else
        assert forall k :: 1 <= k < |infos| ==> infos[k] == infos[1..][k - 1];
        FoldInfos(infos[1..], first.value)
  }

  /** A successful fold plans exactly the files it started with and the files the
      file_infos name. */
  lemma {:induction false} FoldFiles(infos: seq<FileInfo>, plan: Plan)
    requires WellKinded(plan) && FoldInfos(infos, plan).Ok?
    ensures FoldInfos(infos, plan).value.Keys == plan.Keys + FilesOf(infos)
    decreases |infos|
  {
    if infos != [] {
      var next := AddFileToLoadInfo(infos[0], plan).value;
      assert FoldInfos(infos, plan) == FoldInfos(infos[1..], next);
      assert next.Keys == plan.Keys + {infos[0][0].0};
      FoldFiles(infos[1..], next);
    }
  }

  /** `infos[k]` is the first file_info that is not accepted. */
  predicate FirstRejected(infos: seq<FileInfo>, k: int) {
    0 <= k < |infos| && !Acceptable(infos[k]) && forall j :: 0 <= j < k ==> Acceptable(infos[j])
  }

  lemma {:induction false} FirstRejectedShift(infos: seq<FileInfo>, k: int)
    requires infos != [] && Acceptable(infos[0]) && FirstRejected(infos[1..], k)
    ensures FirstRejected(infos, k + 1)
  {
    assert forall j :: 1 <= j < k + 1 ==> infos[j] == infos[1..][j - 1];
    assert infos[k + 1] == infos[1..][k];
  }

  /** A failed fold fails with the error of its first file_info that is not accepted,
      whatever the plan it started from. */
  lemma {:induction false} FoldError(infos: seq<FileInfo>, plan: Plan)
    requires WellKinded(plan) && FoldInfos(infos, plan).Err?
    ensures exists k :: FirstRejected(infos, k) && FoldInfos(infos, plan) == AddFileToLoadInfo(infos[k], map[])
    decreases |infos|
  {
    var first := AddFileToLoadInfo(infos[0], plan);
    if first.Err? {
      ErrorIgnoresPlan(infos[0], plan, map[]);
      assert FirstRejected(infos, 0) && FoldInfos(infos, plan) == AddFileToLoadInfo(infos[0], map[]);
    } else {
      assert FoldInfos(infos, plan) == FoldInfos(infos[1..], first.value);
      FoldError(infos[1..], first.value);
      var k :| FirstRejected(infos[1..], k) && FoldInfos(infos[1..], first.value) == AddFileToLoadInfo(infos[1..][k], map[]);
      FirstRejectedShift(infos, k);
      assert infos[k + 1] == infos[1..][k];
      assert FirstRejected(infos, k + 1) && FoldInfos(infos, plan) == AddFileToLoadInfo(infos[k + 1], map[]);
    }
  }

  /** The columns the file_infos request for csv file `f`, all together. */
  function CsvRequested(infos: seq<FileInfo>, f: string): set<string> {
    if infos == [] then {} else CsvShare(infos[0], f) + CsvRequested(infos[1..], f)
  }

  /** The columns the file_infos request for table or sheet `n` of xlsx file `f`. */
  function XlRequested(infos: seq<FileInfo>, f: string, isTable: bool, n: string): set<string> {
    if infos == [] then {} else XlShare(infos[0], f, isTable, n) + XlRequested(infos[1..], f, isTable, n)
  }

  /** A successful fold keeps, for every csv file, the columns it had together with
      every column a file_info asks for. */
  lemma {:induction false} FoldCsvColumns(infos: seq<FileInfo>, plan: Plan, f: string)
    requires WellKinded(plan) && FoldInfos(infos, plan).Ok?
    ensures CsvCols(FoldInfos(infos, plan).value, f) == CsvCols(plan, f) + CsvRequested(infos, f)
    decreases |infos|
  {
    if infos != [] {
      var next := AddFileToLoadInfo(infos[0], plan).value;
      assert FoldInfos(infos, plan) == FoldInfos(infos[1..], next);
      AddedCsvColumns(infos[0], plan, f);
      FoldCsvColumns(infos[1..], next, f);
    }
  }

  /** A successful fold keeps, for every table and sheet, the columns it had together
      with every column a file_info asks for. */
  lemma {:induction false} FoldXlColumns(infos: seq<FileInfo>, plan: Plan, f: string, isTable: bool, n: string)
    requires WellKinded(plan) && FoldInfos(infos, plan).Ok?
    ensures XlCols(FoldInfos(infos, plan).value, f, isTable, n) == XlCols(plan, f, isTable, n) + XlRequested(infos, f, isTable, n)
    decreases |infos|
  {
    if infos != [] {
      var next := AddFileToLoadInfo(infos[0], plan).value;
      assert FoldInfos(infos, plan) == FoldInfos(infos[1..], next);
      AddedXlColumns(infos[0], plan, f, isTable, n);
      FoldXlColumns(infos[1..], next, f, isTable, n);
    }
  }

  /** The tables and the sheets one output file draws from its inputs, each as a
      file_info. */
  datatype Output = Output(tables: seq<FileInfo>, sheets: seq<FileInfo>)

  /** `output_from_input_dict`: each output file with what it draws. */
  type Config = seq<(string, Output)>

  /** The file_infos in the order lines 256-270 visit them: output by output, the tables
      before the sheets. */
  function Requests(config: Config): (r: seq<FileInfo>)
    ensures forall x :: x in r <==> exists j :: 0 <= j < |config| && (x in config[j].1.tables || x in config[j].1.sheets)
  {
    if config == [] then []
    else
      assert forall j :: 1 <= j < |config| ==> config[j] == config[1..][j - 1];
      config[0].1.tables + config[0].1.sheets + Requests(config[1..])
  }

  /** The `files_to_load` plan of lines 256-270, from an empty plan. */
  function PlanLoads(config: Config): (r: Result<Plan>)
    ensures r.Ok? <==> forall j, x :: 0 <= j < |config| && (x in config[j].1.tables || x in config[j].1.sheets) ==> Acceptable(x)
    ensures r.Ok? ==> WellKinded(r.value) && r.value.Keys == FilesOf(Requests(config))
  {
    var requests := Requests(config);
    var r := FoldInfos(requests, map[]);
    assert r.Ok? <==> forall x :: x in requests ==> Acceptable(x);
    if r.Ok? then FoldFiles(requests, map[]); r else r
  }

  /** Every csv file, table and sheet of the plan gets exactly the columns that some
      source of some output asks for. */
  lemma {:induction false} PlannedColumns(config: Config, f: string, isTable: bool, n: string)
    requires PlanLoads(config).Ok?
    ensures CsvCols(PlanLoads(config).value, f) == CsvRequested(Requests(config), f)
    ensures XlCols(PlanLoads(config).value, f, isTable, n) == XlRequested(Requests(config), f, isTable, n)
  {
    FoldCsvColumns(Requests(config), map[], f);
    FoldXlColumns(Requests(config), map[], f, isTable, n);
  }

  /** A character that is neither a separator nor a dot lengthens an extension found so
      far, and leaves a missing one missing. */
  lemma {:induction false} ExtensionStep(path: string, c: char)
    requires c != '/' && c != '.'
    ensures Extension(path + [c]) == if Extension(path) == [] then [] else Extension(path) + [c]
  {
    assert (path + [c])[..|path|] == path;
  }

  /** An upper-case extension names an xlsx file. */
  lemma UpperCaseKindExample()
    ensures Kind("d/a.XLSX") == Xlsx
  {
    assert "d/a."[..3] == "d/a";
    assert Extension("d/a.") == ".";
    ExtensionStep("d/a.", 'X');
    assert "d/a." + ['X'] == "d/a.X";
    ExtensionStep("d/a.X", 'L');
    assert "d/a.X" + ['L'] == "d/a.XL";
    ExtensionStep("d/a.XL", 'S');
    assert "d/a.XL" + ['S'] == "d/a.XLS";
    ExtensionStep("d/a.XLS", 'X');
    assert "d/a.XLS" + ['X'] == "d/a.XLSX";
    assert Lower(".XLSX") == ".xlsx";
  }

  /** Only the last dot of a name starts its extension. */
  lemma LastDotKindExample()
    ensures Kind("a.b.csv") == Csv
  {
    assert "a.b."[..3] == "a.b";
    assert Extension("a.b.") == ".";
    ExtensionStep("a.b.", 'c');
    assert "a.b." + ['c'] == "a.b.c";
    ExtensionStep("a.b.c", 's');
    assert "a.b.c" + ['s'] == "a.b.cs";
    ExtensionStep("a.b.cs", 'v');
    assert "a.b.cs" + ['v'] == "a.b.csv";
    assert Lower(".csv") == ".csv";
  }

  /** A name made of a leading dot and a suffix has no extension. */
  lemma LeadingDotKindExample()
    ensures Kind(".csv") == Unsupported("")
  {
    assert "."[..0] == "";
    assert Extension(".") == [];
    ExtensionStep(".", 'c');
    assert "." + ['c'] == ".c";
    ExtensionStep(".c", 's');
    assert ".c" + ['s'] == ".cs";
    ExtensionStep(".cs", 'v');
    assert ".cs" + ['v'] == ".csv";
  }

  /** A dot in a directory name is no extension of the file. */
  lemma DirectoryDotKindExample()
    ensures Kind("v.2/x") == Unsupported("")
  {
    assert Extension("v.2/") == [];
    ExtensionStep("v.2/", 'x');
    assert "v.2/" + ['x'] == "v.2/x";
  }

  /** File names as `os.path.splitext` reads them: the extension is compared without
      regard to case, only its last dot counts, and a name made of a leading dot and a
      suffix has none. */
  lemma KindExamples()
    ensures Kind("d/a.XLSX") == Xlsx
    ensures Kind("a.b.csv") == Csv
    ensures Kind(".csv") == Unsupported("")
    ensures Kind("v.2/x") == Unsupported("")
  {
    UpperCaseKindExample();
    LastDotKindExample();
    LeadingDotKindExample();
    DirectoryDotKindExample();
  }
}
