/**
 Failure-compatible results for the operations of the report writer. Each
 exception the source raises on a path the model covers is one `Error`
 constructor.
 */
module Outcomes {
  import opened Cells

  datatype Option<+T> = None | Some(value: T)

  datatype Error =
    | MalformedRange(ref: string)                    // a table reference that is not "A1:C10"
    | EmptyCatalog                                   // a workbook without tables: the frame has no columns
    | TableNotFound(name: string)
    | SheetNotFound(sheet: string)
    | EmptyTableRange(table: string)                 // a table reference whose first row is below its last
    | NonTextHeader(table: string)                   // a table header cell that has no `lower()`
    | MissingColumns(columns: seq<string>)           // every required column absent from the data
    | ColumnCountMismatch(expected: nat, found: nat) // pandas "Length mismatch" when renaming
    | DataIndexOutOfRange(table: string)             // `iloc` beyond the aligned frame
    | EmptyHeader(sheet: string)
    | MissingSheetColumn(header: Value)              // the first header cell absent from the data
    | ExpectedSingleKey(keys: seq<string>)
    | UnsupportedXlType(xlType: string)
    | MissingName(xlType: string)
    | UnsupportedExtension(extension: string)

  datatype Result<+T> = Ok(value: T) | Err(error: Error) {
    predicate IsFailure() {
      Err?
    }

    function PropagateFailure<U>(): Result<U>
      requires Err?
    {
      Err(error)
    }

    function Extract(): T
      requires Ok?
    {
      value
    }
  }
}
