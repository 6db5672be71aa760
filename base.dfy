/** Values shared by every stage of the spreadsheet-to-JSON-lines pipeline. */
module Base {

  datatype Option<T> = None | Some(value: T)

  /** Go's `(T, error)` pair where exactly one side is meaningful. */
  datatype Result<T> = Ok(value: T) | Err(error: Error)

  /** The reason a strconv parser gives when it refuses its input. */
  datatype NumErrKind = ErrSyntax | ErrRange

  /** The errors the pipeline can report. The decoder's and the encoder's own
      errors are opaque and only passed through. */
  datatype Error =
    | UnableToGetHeader(sheet: string)                    // wraps ErrUnableToGetHeader with the sheet name
    | InvalidColumnCount(columnCount: nat, headerCount: nat)
    | NoSampleRow
    | TooManyColumns
    | UnexpectedTypCount
    | NumError(func: string, num: string, kind: NumErrKind)
    | SheetNotExist(sheet: string)
    | InvalidCellReference(col: int, row: int)            // a coordinate below 1 has no cell name
    | DecoderErr(code: nat)
    | EncoderErr(code: nat)

  /** A cell type tag is a byte; the eight named tags are excelize's CellType values. */
  newtype Xtype = b: int | 0 <= b < 256

  const XtypeUnset: Xtype := 0
  const XtypeBool: Xtype := 1
  const XtypeDate: Xtype := 2
  const XtypeError: Xtype := 3
  const XtypeFormula: Xtype := 4
  const XtypeInlineString: Xtype := 5
  const XtypeNumber: Xtype := 6
  const XtypeSharedString: Xtype := 7

  /** One row handed out by the row sequencer: its physical (1-based) row number and its cells. */
  datatype Row = Row(index: int, columns: seq<string>)

  /** Go's zero `Row{}`, yielded together with an error. */
  const EmptyRow := Row(0, [])

  /** One step of the row sequence: a row and the error that travels with it. */
  datatype Item = Item(row: Row, err: Option<Error>)

  /** An IEEE-754 binary64 number, kept as its bit pattern. */
  datatype Float64 = Float64(bits: bv64)

  /** The JSON-compatible values a converted cell can take (Go's `any` results). */
  datatype Value =
    | Null
    | Boolean(b: bool)
    | Float(f: Float64)
    | Integer(i: int)
    | Str(s: string)

  /** A JSON record: header name to cell value. */
  type Record<V> = map<string, V>
}
