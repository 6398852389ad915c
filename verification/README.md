# xlsx_reporting core in Dafny

This project models the core of `xlsx_reporting`. That program fills the Excel tables and sheets of report templates with data read from csv and xlsx input files. The model covers four parts:

- **The table catalog.** Every Excel table of a template workbook is listed in a catalog of `(file, sheet, table, start row, end row, start column, end column)` rows. The list comes from decoding each table's `A1:B2` reference. The catalog is sorted, and then validated: one file, unique names, ordered ranges, and no overlapping tables on a sheet.
- **Table replacement.** A table's data is replaced like this:
  - its header is read from the worksheet and the feed's columns are matched to it without regard to case;
  - every data row but one is deleted and the remaining anchor row is cleared;
  - one row is inserted per new data row and the data is written;
  - after each of the two resizes, the catalog rows and the worksheet's table references of the tables further down the sheet are moved.
- **Sheet replacement.** The data of a whole sheet is replaced under its header row.
- **Load planning.** A load plan is built from the report configuration: which input files to read, and which columns of each csv file, xlsx table and xlsx sheet. The duplicate-refusing mapping builder that reads the configuration is also modelled.

Modules, in dependency order:

| module | file | what it holds |
|---|---|---|
| `Sequences` | `sequences.dfy` | `Filter` |
| `Outcomes` | `outcomes.dfy` | `Option`, `Result` and the errors the core raises |
| `Strings` | `strings.dfy` | ASCII lower-casing, the string order |
| `Cells` | `cells.dfy` | a worksheet as a grid of rows; the cell writes, row deletion and row insertion the core uses |
| `RangeCodec` | `range_codec.dfy` | column letters, `A1` coordinates, decoding and encoding of `A1:B2` references |
| `Inventory` | `inventory.dfy` | the catalog: scan, sort, overlap check, validation report |
| `Frames` | `frames.dfy` | data frames: label selection and `align_feed_data` |
| `Resize` | `resize.dfy` | catalog arithmetic of the remove and add steps, and the reference refresh |
| `TableUpdate` | `table_update.dfy` | worksheet-level remove, add, `replace_table_data` and `replace_sheet_data` |
| `LoadPlan` | `load_plan.dfy` | `validate_single_key`, `add_file_to_load_info`, and the fold over the configuration |
| `ConfigMapping` | `config_mapping.dfy` | the duplicate-refusing mapping builder of the configuration loader |

Several operations are methods. Callers see only their contracts: the worksheet steps, the two refreshes, both replacements, and the mapping builder.

Pandas data frames are sequences of rows under a sequence of labels. A worksheet is a sequence of rows of cells. Reading past a stored row yields an empty cell, as openpyxl does. The table references of a worksheet form a map from table name to reference text.

Where the code and its own comments disagree, the model follows the code:
- `table_details_structure` sorts by file, sheet and start row, although its comment says file, sheet and table name.
- `align_feed_data` reports the missing labels lower-cased.

## Model

| member | source | states |
|---|---|---|
| RangeCodec.ColumnLettersRoundTrip | src/update_xlsx_data.py:172-177 | naming a column with `get_column_letter` and reading the letters back with `column_index_from_string` gives the column |
| RangeCodec.ColumnIndexRoundTrip | src/update_xlsx_data.py:172-177 | every upper-case name of one to three letters is the canonical name of the column it denotes |
| RangeCodec.DigitsRoundTrip | src/update_xlsx_data.py:328 | a row number printed in decimal parses back to itself |
| RangeCodec.ColumnIndex | src/update_xlsx_data.py:174-177 | a name of one, two or three letters denotes a column of at most 26, 702 or 18278 (ZZZ) |
| RangeCodec.ColumnLetters | src/update_xlsx_data.py:328 | the letters are one to three upper-case letters; one letter exactly up to column 26, at most two exactly up to 702 |
| RangeCodec.ParseCoordinate | src/update_xlsx_data.py:173-177 | a parsed corner has a column `get_column_letter` can name and a row from 1 on |
| RangeCodec.NewlineTolerated | src/update_xlsx_data.py:173-177 | one newline after the row is read past, as the pattern's closing `$` allows: a coordinate parses alike with and without it |
| RangeCodec.SecondNewlineFails | src/update_xlsx_data.py:173-177 | a second trailing newline makes any coordinate fail |
| RangeCodec.NewlineExample | src/update_xlsx_data.py:173-177 | `"B2"` followed by a newline names column 2, row 2 |
| RangeCodec.DecodeRange | src/update_xlsx_data.py:170-177 | a reference without exactly one colon is rejected; any failure is `MalformedRange` of the reference; a decoded extent has valid columns and rows |
| RangeCodec.CoordinateRoundTrip | src/update_xlsx_data.py:172-177 | the text of a column and row parses back to that column and row |
| RangeCodec.EncodeRange | src/update_xlsx_data.py:379 | the reference text written for an extent: each corner's column letters and row around one colon; RangeRoundTrip reads it back to the extent |
| RangeCodec.RangeRoundTrip | src/update_xlsx_data.py:328 | decoding the reference written for a decodable extent gives that extent back |
| Inventory.Distinct | src/update_xlsx_data.py:81 | `unique()` keeps each value once and keeps exactly the values of the input |
| Inventory.OnSheet | src/update_xlsx_data.py:109 | the rows of one sheet are exactly the catalog rows with that sheet name |
| Inventory.ScanTables | src/update_xlsx_data.py:166-190 | every table yields a row with its sheet, name and decoded extent; the scan fails exactly when some reference does not decode |
| Inventory.Hits | src/update_xlsx_data.py:39-46 | the overlap test on one pair of tables; HitsIsIntersection shows it means different names and intersecting row intervals |
| Inventory.HitsIsIntersection | src/update_xlsx_data.py:39-46 | for ordered row intervals, the three-way overlap test is exactly "different name and intersecting rows" |
| Inventory.FlaggedFrom | src/update_xlsx_data.py:31-50 | the collected spans are exactly those of the tables some other table hits |
| Inventory.CheckSheet | src/update_xlsx_data.py:29-57 | the check fails exactly when some pair of tables hits, and it lists exactly the flagged tables |
| Inventory.CheckSheetIffIntersection | src/update_xlsx_data.py:29-57 | on ordered intervals, the check fails exactly when two differently named tables share a row |
| Inventory.DuplicateRows | src/update_xlsx_data.py:87-93 | the rows listed are exactly the rows whose name another row shares |
| Inventory.SheetOverlaps | src/update_xlsx_data.py:108-114 | every sheet whose check fails is reported with the check's result, and no other sheet |
| Inventory.ReversedRows | src/update_xlsx_data.py:95 | exactly the catalog rows whose start row is not above their end row |
| Inventory.ReversedCols | src/update_xlsx_data.py:96 | exactly the catalog rows whose start column is not left of their end column |
| Inventory.ValidateFile | src/update_xlsx_data.py:79-116 | the catalog is handed back unchanged; the report lists each file once, the duplicate names, the reversed row and column ranges, and the overlapping sheets |
| Inventory.Insert | src/update_xlsx_data.py:152 | inserting into a sorted catalog keeps it sorted and adds exactly the new row |
| Inventory.SortByKey | src/update_xlsx_data.py:152 | the result is sorted by file, sheet and start row, and is a permutation of the input |
| Inventory.KeyLeTotal | src/update_xlsx_data.py:152 | any two rows are comparable in the sort order |
| Inventory.KeyLeTransitive | src/update_xlsx_data.py:152 | the sort order is transitive |
| Inventory.Structure | src/update_xlsx_data.py:142-159 | an empty catalog is rejected; otherwise the result is the sorted permutation |
| Inventory.TableDetails | src/update_xlsx_data.py:161-204 | it fails exactly for no tables or an undecodable reference; on success the rows are the scanned rows, sorted and permuted, every one of the file with a decodable extent, and the report is the validation of those rows |
| Inventory.DetailsCoverEntries | src/update_xlsx_data.py:166-190 | every listed table has a row in the details with its sheet, name and decoded reference, and every row comes from a listed table |
| Inventory.ScannedRows | src/update_xlsx_data.py:166-190 | every row a successful scan produces belongs to the file and decodes |
| Frames.Matches | src/update_xlsx_data.py:255 | the positions listed are exactly the columns carrying the label, in increasing order |
| Frames.SelectionWidth | src/update_xlsx_data.py:255 | when every key labels some column, the selection is exactly as wide as the keys iff each key labels exactly one column |
| Frames.SelectionUnique | src/update_xlsx_data.py:255 | with unique labels, the selection picks, for each key in turn, the column that carries it |
| Frames.Select | src/update_xlsx_data.py:255 | `df[keys]` keeps every row, is rectangular, and with unique labels carries exactly the keys as columns |
| Frames.SelectedCells | src/update_xlsx_data.py:255 | each selected cell comes from a data column carrying the same label |
| Frames.MissingLabels | src/update_xlsx_data.py:249 | the missing labels are exactly the required labels the data does not carry |
| Frames.NothingMissing | src/update_xlsx_data.py:249-252 | no label is missing exactly when every required label is carried by some column |
| Frames.Align | src/update_xlsx_data.py:241-258 | a missing-columns error lists exactly the lower-cased header labels the lower-cased data lacks; it succeeds exactly when every lower-cased header label names exactly one lower-cased data column; the result keeps every row under the header's own labels |
| Frames.MissingOrdered | src/update_xlsx_data.py:249-252 | a missing-columns error lists, at increasing header positions, the lower-cased header labels the lower-cased feed lacks, and leaves none of them out |
| Frames.MissingPicked | src/update_xlsx_data.py:249 | the comprehension keeps, in order, the labels at exactly the positions whose label is not supplied |
| Frames.MissingInOrder | src/update_xlsx_data.py:249 | the missing labels of a header's first part come before those of the rest |
| Sequences.FilterAppend | src/update_xlsx_data.py:249 | filtering a concatenation filters each part and keeps them in order |
| Frames.AlignedCell | src/update_xlsx_data.py:241-258 | names, for one aligned cell, the feed column it was taken from; that column's label matches the header label without regard to case |
| Frames.AlignedCells | src/update_xlsx_data.py:241-258 | each aligned cell comes from the data column whose label matches the header label without regard to case |
| Frames.AlignExample | src/update_xlsx_data.py:241-258 | columns "value", "NAME", "extra" aligned to header "Name", "Value" are reordered and "extra" dropped |
| Frames.MissingExample | src/update_xlsx_data.py:249-252 | a header with "Date" against data without it fails naming "date" |
| Resize.Locate | src/update_xlsx_data.py:273-280 | finds the first catalog row with the name, and `TableNotFound` exactly when there is none |
| Resize.ShiftRow | src/update_xlsx_data.py:315-317 | the three updates, in order, on one catalog row; ShiftRows works out their effect case by case |
| Resize.Shift | src/update_xlsx_data.py:366-368 | the catalog keeps its length and only the rows of the sheet go through ShiftRow; ShiftRows states which rows stay and which move |
| Resize.ShiftRows | src/update_xlsx_data.py:315-317 | only the rows of the sheet change, and only their rows; tables at or above the pivot keep their place; the target's end moves by the amount; a table below keeps its height |
| Resize.BlockMove | src/update_xlsx_data.py:315-317 | the intended move: a table below the pivot moves as a block, and the target alone changes height |
| Resize.SecondFilterAgrees | src/update_xlsx_data.py:315-317 | when no table starts inside the deleted rows, the three updates move every table of the sheet as a block |
| Resize.SecondFilterDisagrees | src/update_xlsx_data.py:315-317 | a table starting inside the deleted rows keeps its start while its end moves |
| Resize.Shrink | src/update_xlsx_data.py:306-317 | the target keeps one data row; untouched rows stay; tables below move up by the rows removed; nothing changes when nothing is removed |
| Resize.Grow | src/update_xlsx_data.py:357-368 | the target gains `count - 1` rows; untouched rows stay; tables below move down; nothing changes for a single row |
| Resize.ReplaceCatalog | src/update_xlsx_data.py:495-521 | fails with `TableNotFound` exactly when no row carries the name; otherwise keeps every row's identity and column naming |
| Resize.ReplaceCatalogRows | src/update_xlsx_data.py:495-521 | the target ends `count` rows below its header; untouched rows stay; tables below move by the change in the target's height |
| Resize.ResizeKeepsUntouched | src/update_xlsx_data.py:306-368 | shrinking then growing leaves alone a row on another sheet or above the target |
| Resize.ResizeMovesBelow | src/update_xlsx_data.py:306-368 | shrinking then growing moves a table below by the net change in height |
| Resize.LastWrite | src/update_xlsx_data.py:320-334 | the write that stays for a name is the last refreshed row carrying it, and there is none exactly when no refreshed row carries it |
| Resize.SyncRefs | src/update_xlsx_data.py:320-334 | the worksheet keeps the same table names, and each one holds the reference its last refreshed catalog row wrote, or its old one |
| Resize.LastWriteAt | src/update_xlsx_data.py:320-334 | a refreshed row that no later refreshed row shares a name with makes the write that stays |
| Resize.SyncRoundTrip | src/update_xlsx_data.py:320-334 | after the refresh, a refreshed table's reference decodes to its catalog extent |
| Resize.SyncUniqueNames | src/update_xlsx_data.py:371-385 | with unique names, every refreshed table the worksheet holds gets its catalog range |
| Resize.ReplaceExample | src/update_xlsx_data.py:495-521 | five new rows for a table at rows 1-4 move the table below from rows 6-9 to rows 8-11 |
| Cells.SetCell | src/update_xlsx_data.py:339 | `ws[cell] = v` changes that cell alone |
| Cells.DeleteRows | src/update_xlsx_data.py:311 | the deleted rows disappear and the rows below move up |
| Cells.InsertRows | src/update_xlsx_data.py:363 | blank rows appear and the rows from the index move down |
| Cells.WriteRow | src/update_xlsx_data.py:570-571 | the values fill one row from the left column, every other cell keeps its value |
| Cells.WriteBlock | src/update_xlsx_data.py:398-402 | the block's cells take the data row-major and every other cell keeps its value |
| TableUpdate.TableHeader | src/update_xlsx_data.py:206-219 | a missing table and an undecodable reference are errors; the header is the text of the first row of the table's range |
| TableUpdate.ClearCells | src/update_xlsx_data.py:336-339 | the anchor row is emptied across the table's columns and nothing else changes |
| TableUpdate.RemoveData | src/update_xlsx_data.py:306-339 | every cell afterwards is as `RemovedCell` gives it: rows above and the header stay, the anchor row is blank across the table, rows below move up |
| TableUpdate.AddData | src/update_xlsx_data.py:357-402 | every cell afterwards is as `AddedCell` gives it: rows above stay, the data fills the table's columns, rows below move down |
| TableUpdate.ResizedCells | src/update_xlsx_data.py:306-402 | the removal followed by the addition leaves every cell as the closed form `ResizedCell` gives it |
| TableUpdate.ResizeGrid | src/update_xlsx_data.py:306-402 | the two worksheet steps together give every cell as `ResizedCell` says |
| TableUpdate.SyncSkipsUncatalogued | src/update_xlsx_data.py:320-334 | a worksheet table that no catalog row of the sheet names keeps its reference |
| TableUpdate.ResizeTables | src/update_xlsx_data.py:320-385 | the two refreshes keep the table names, change nothing when no rows moved, leave alone every table that no catalog row of the sheet from the target's header down names, and with unique names write every refreshed table's new range |
| Resize.ResizeRefreshesNoOther | src/update_xlsx_data.py:315-385 | shrinking and growing never bring a row from above the target's header down into the refreshed rows, so a name no row was refreshed under stays unrefreshed |
| TableUpdate.KeptRef | src/update_xlsx_data.py:319-385 | with unique names, a catalogued table on another sheet or starting above the target keeps its reference |
| TableUpdate.UncataloguedKept | src/update_xlsx_data.py:320-334 | a worksheet table no catalog row of the sheet names keeps its reference through the replacement |
| TableUpdate.ReplacedRef | src/update_xlsx_data.py:371-385 | the replaced table's reference decodes to its header row through its last new data row |
| TableUpdate.ReplaceCheck | src/update_xlsx_data.py:506-512 | header errors and alignment errors pass through unchanged; a too-narrow alignment is `DataIndexOutOfRange`; success gives the aligned rows under the header |
| TableUpdate.ResizeTable | src/update_xlsx_data.py:514-521 | the catalog is the replaced catalog, the grid is the refilled grid, and the references follow |
| TableUpdate.ReplaceInSheet | src/update_xlsx_data.py:506-521 | it fails exactly when the checks fail and with their error; otherwise catalog, cells and references are replaced |
| TableUpdate.ReplaceInPresentSheet | src/update_xlsx_data.py:503-521 | with the sheet present: fails exactly when the checks fail, with their error; otherwise only that sheet changes, and there catalog, cells and references are replaced |
| TableUpdate.ReplaceInWorkbook | src/update_xlsx_data.py:495-527 | a missing sheet and then the checks' errors; on success only the table's sheet changes, and there catalog, cells and references are replaced |
| TableUpdate.ReplaceTable | src/update_xlsx_data.py:484-527 | unknown table, missing sheet and the checks' errors in that order; on success other sheets are untouched and catalog, cells and references of the table's sheet are replaced |
| TableUpdate.ReplacedCell | src/update_xlsx_data.py:398-402 | each new cell comes from the feed column whose label matches the header label without regard to case |
| TableUpdate.LastRow | src/update_xlsx_data.py:566 | `max_row` is at least 1 and covers every stored row |
| TableUpdate.LastColumn | src/update_xlsx_data.py:549 | `max_column` is the width of the widest stored row, or 1 when no stored row holds a cell: it covers every row and is 1 or some row's width |
| TableUpdate.SheetHeader | src/update_xlsx_data.py:549 | the header is row 1 from column 1 to `max_column` |
| TableUpdate.FirstMissing | src/update_xlsx_data.py:558-560 | finds the first header label the data lacks, and none exactly when every label is supplied |
| TableUpdate.ReplaceSheet | src/update_xlsx_data.py:543-573 | missing sheet, empty header cell and first missing label are reported in that order; on success only that sheet's cells change: the header stays, the selected data fills from row 2, the rest is empty |
| TableUpdate.SheetCells | src/update_xlsx_data.py:562-571 | with unique labels each data cell comes from the column of its header label, and rows past the data are empty |
| LoadPlan.Extension | src/load_input_data.py:50 | `os.path.splitext(name)[1]`; ExtensionAgrees shows it is the text from the last dot of the last path component, unless only dots precede that dot |
| LoadPlan.Kind | src/load_input_data.py:90-93 | csv, xlsx, or the unsupported lower-cased extension that the error reports; KindExamples shows the lower-casing and the last-dot rule |
| LoadPlan.ExtensionAgrees | src/load_input_data.py:50 | the right-to-left scan yields the extension that the last separator and the last dot delimit, as `os.path.splitext` does |
| LoadPlan.KindExamples | src/load_input_data.py:50 | the extension is compared lower-cased, only the last dot counts, and a leading-dot name has no extension |
| LoadPlan.Columns | src/load_input_data.py:58-60 | a source's columns are exactly the keys of its mapping and its types |
| LoadPlan.ValidateSingleKey | src/load_input_data.py:11-26 | succeeds exactly for one key, otherwise reports all the keys |
| LoadPlan.NamesOf | src/load_input_data.py:69-81 | the names are exactly those the entries of the type carry |
| LoadPlan.MergeKeys | src/load_input_data.py:69-81 | folding entries adds exactly their names to the category |
| LoadPlan.MergeCols | src/load_input_data.py:81-88 | folding entries adds to each name exactly the columns its entries refer to |
| LoadPlan.MergeIdempotent | src/load_input_data.py:81-88 | folding the same entries twice equals folding them once |
| LoadPlan.AddEntries | src/load_input_data.py:69-88 | the loop fails at the first entry with an unknown type or no name, with that entry's error; otherwise each category is the fold of its own entries |
| LoadPlan.AddFileToLoadInfo | src/load_input_data.py:29-95 | errors for several keys, an unsupported extension and the first bad entry; success exactly for an acceptable file_info; only that file's plan changes, to the union of old and new columns |
| LoadPlan.AddTwice | src/load_input_data.py:29-95 | adding the same file_info twice equals adding it once |
| LoadPlan.ErrorIgnoresPlan | src/load_input_data.py:29-95 | a rejected file_info is rejected with the same error whatever the plan |
| LoadPlan.AddedCsvColumns | src/load_input_data.py:52-63 | an accepted csv file_info adds its columns to its own file's set and leaves every other csv set alone |
| LoadPlan.AddedXlColumns | src/load_input_data.py:65-88 | an accepted xlsx file_info adds its columns to its own file's table and sheet sets and leaves every other set alone |
| LoadPlan.FoldInfos | src/load_input_data.py:256-270 | the fold succeeds exactly when every file_info is acceptable, and every plan it builds keeps each file to its kind |
| LoadPlan.FoldFiles | src/load_input_data.py:256-270 | a successful fold plans exactly the files it started with and the files the file_infos name |
| LoadPlan.FoldError | src/load_input_data.py:256-270 | a failed fold fails with the error of the first file_info that is not accepted |
| LoadPlan.FoldCsvColumns | src/load_input_data.py:256-270 | the fold keeps for every csv file the old columns and every requested one |
| LoadPlan.FoldXlColumns | src/load_input_data.py:256-270 | the fold keeps for every table and sheet the old columns and every requested one |
| LoadPlan.Requests | src/load_input_data.py:256-270 | the visited file_infos are exactly the tables and sheets of all the outputs |
| LoadPlan.PlanLoads | src/load_input_data.py:256-270 | planning succeeds exactly when every source of every output is acceptable, and names exactly the requested files |
| LoadPlan.PlannedColumns | src/load_input_data.py:256-270 | every csv file, table and sheet gets exactly the columns some source asks for |
| ConfigMapping.ConstructMapping | src/load_config.py:12-21 | it fails exactly when a key repeats, at the first repeated position; otherwise each key maps to its own value and the map has one entry per pair |

## Left out

- File and workbook I/O: `load_workbook`, saving, `copy_template_to_output`, reading the csv and xlsx inputs (`load_input_data`, `load_excel_sheet`, `get_df_data`), `add_data_to_files`, logging and `print`. The model starts from the decoded contents.
- YAML parsing: `construct_object` is not modelled. `ConfigMapping.ConstructMapping` receives the keys and values already constructed.
- Cell values are opaque apart from text and `None`. Pandas dtypes, NaN and numeric conversion are not modelled.
- Lower-casing is ASCII only. Python's Unicode `lower()` and the Unicode digits `\d` accepts are not modelled.
- `check_table_details_in_file` catches any exception and returns `None`. The model has no path that raises there.
- `check_table_details_across_files` is a loop of `ValidateFile` calls over the same catalog, so it is not modelled separately.
- `TableUpdate.ReplaceTable`, `TableUpdate.ReplaceInSheet`: a failure after the worksheet was already changed leaves the source's workbook partly updated. The model only returns the error.
- `TableUpdate.ReplaceTable`, `TableUpdate.ReplaceInWorkbook`, `TableUpdate.ReplaceInPresentSheet`, `TableUpdate.ReplaceInSheet`, `TableUpdate.ResizeTable`, `TableUpdate.ResizeGrid`, `TableUpdate.AddData`, `TableUpdate.RemoveData`: require a target with its header from row 1 and at least one data row (`Resizable`; `RemoveData` needs only this), and data with at least one row (`|data.rows| >= 1`, or `|rows| >= 1`). Otherwise the source passes negative amounts to openpyxl's `delete_rows` and `insert_rows`, whose behaviour is not modelled.
- `TableUpdate.TableHeader`: reads the table's reference the way the catalog scan does, split at its one colon. `range_boundaries` (line 212) also accepts a single cell such as `A1`, whole columns such as `A:C` and whole rows such as `1:3`; the model gives `MalformedRange` for them. Its pattern also refuses a newline before the colon, which the model reads past. A catalogued table's reference has already been decoded by the scan, and openpyxl stores table references as two-corner ranges.
- `LoadPlan.Columns`: a key given with no value in the YAML, such as an empty `column_mapping:` or `column_types:`, loads as `None`, and the source then fails on `.keys()` (lines 58-59, 83-84). The model has no null value and reads such a key as absent. Likewise, a file or an `xl_table`/`xl_sheet` entry with no settings makes the source fail at `.get` or `.items()` (lines 58, 69, 76), which the model cannot express.
- `TableUpdate.LastColumn`: `max_column` is the widest stored row. openpyxl also counts cells that hold only formatting.
- `LoadPlan.AddEntries`: the xlsx settings are a sequence of entries, so one file_info may repeat a type. A Python dict cannot, so the model covers more inputs than the source sees.
- `LoadPlan.Extension`: `/` is the only path separator.
- `Resize.SecondFilterDisagrees`: the filter on line 317 re-tests start rows that line 316 already moved. This only matters for a table starting inside the deleted rows, which means overlapping tables. Excel and the validation pass reject those, so the model keeps the code as written and records the case instead of correcting it.
