/** The workbook-level passes: header resolution, sample typing, the raw and
    typed conversions built from them, and the writers that drain them. Each
    pass opens its own cursor over the sheet. */
module Xfile {
  import opened Base
  import opened Streams
  import opened Decoder
  import opened Sequencer
  import opened Assembler
  import opened Typed
  import opened JsonEnc

  type Uint32 = x: int | 0 <= x < 0x1_0000_0000

  /** Go's `uint32(row.Index)`: the row number truncated to 32 bits. */
  function RowPos(index: int): Uint32
  {
    index % 0x1_0000_0000
  }

  /** Go's `uint16(colix) + 1` for `colix <= 65535`: the 1-based column
      position in 16-bit arithmetic, so index 65535 wraps to position 0. */
  function ColPos(colix: nat): nat
  {
    (colix + 1) % 0x1_0000
  }

  /** Everything the sheet's row sequence yields when its consumer never
      stops: the sequencer's items, or the opening error alone. */
  function SheetStream(book: Workbook, sheet: string, skipRows: int): seq<Item>
  {
    match SheetRows(book, sheet)
    case Err(e) => [Item(EmptyRow, Some(e))]
    case Ok(steps) => Stream(steps, skipRows)
  }

  /** The sheet's row sequence for a consumer `cont`; a cursor that opens is closed once. */
  method ToRows(book: Workbook, sheet: string, skipRows: int, cont: seq<Item> -> bool)
    returns (items: seq<Item>, ghost cursor: Rows?)
    ensures items == Delivered(SheetStream(book, sheet, skipRows), cont)
    ensures cursor != null <==> SheetRows(book, sheet).Ok?
    ensures cursor != null ==> fresh(cursor) && cursor.closes == 1
  {
    var rows, e := OpenRows(book, sheet);
    if e.Some? {
      DeliveredSingle(Item(EmptyRow, e), cont);
      return [Item(EmptyRow, e)], null;
    }
    cursor := rows;
    items := ToIter(rows, skipRows, cont);
  }

  // ---- header ----

  /** The header found in a row sequence: the cells of its first item. */
  function HeaderOf(stream: seq<Item>, sheet: string): Result<seq<string>>
  {
    if stream == [] then Err(UnableToGetHeader(sheet))
    else if stream[0].err.Some? then Err(stream[0].err.value)
    else Ok(stream[0].row.columns)
  }

  function Header(book: Workbook, sheet: string, skipRows: int): Result<seq<string>>
  {
    match SheetRows(book, sheet)
    case Err(e) => Err(e)
    case Ok(steps) => HeaderOf(Stream(steps, skipRows), sheet)
  }

  /** ToHeader's loop body returns on the first item. */
  function FirstOnly(): seq<Item> -> bool
  {
    (p: seq<Item>) => false
  }

  /** Resolves the header with a pass of its own; its cursor is closed once. */
  method ToHeader(book: Workbook, sheet: string, skipRows: int) returns (res: Result<seq<string>>, ghost cursor: Rows?)
    ensures res == Header(book, sheet, skipRows)
    ensures cursor != null <==> SheetRows(book, sheet).Ok?
    ensures cursor != null ==> fresh(cursor) && cursor.closes == 1
  {
    var rowsExcel, e := OpenRows(book, sheet);
    if e.Some? {
      return Err(e.value), null;
    }
    cursor := rowsExcel;
    ghost var stream := Stream(rowsExcel.steps, skipRows);
    var rowsIter := ToIter(rowsExcel, skipRows, FirstOnly());
    if rowsIter != [] {
      var row := rowsIter[0];
      assert row == stream[0];
      if row.err.Some? {
        return Err(row.err.value), cursor;
      }
      return Ok(row.row.columns), cursor;
    }
    res := Err(UnableToGetHeader(sheet));
  }

  // ---- sample row ----

  /** The cell type at a 1-based (row, column) position of a sheet. The
      position is first turned into a cell name, which fails for a row or
      column below 1; the sheet's own look-up decides the rest. */
  function CellTypeByIndex(book: Workbook, sheet: string, row: int, col: int): (r: Result<Xtype>)
    ensures col < 1 || row < 1 ==> r == Err(InvalidCellReference(col, row))
    ensures 1 <= col && 1 <= row && sheet in book ==> r == book[sheet].cellType(row, col)
  {
    if col < 1 || row < 1 then Err(InvalidCellReference(col, row))
    else if sheet !in book then Err(SheetNotExist(sheet))
    else book[sheet].cellType(row, col)
  }

  /** The typed cells of the first `n` values of a row, looked up column by
      column; more than 65536 columns is refused when the loop reaches
      index 65536, after the earlier look-ups. */
  function TypedValues(book: Workbook, sheet: string, rowpos: Uint32, values: seq<string>, n: nat): Result<seq<TypedValue>>
    requires n <= |values|
  {
    if n == 0 then Ok([])
    else match TypedValues(book, sheet, rowpos, values, n - 1)
      case Err(e) => Err(e)
      case Ok(prev) =>
        if 65535 < n - 1 then Err(TooManyColumns)
        else match CellTypeByIndex(book, sheet, rowpos, ColPos(n - 1))
          case Err(e) => Err(e)
          case Ok(t) => Ok(prev + [TypedValue(values[n - 1], t)])
  }

  /** Tags each value of a row with the cell type at its position. */
  method ToTypedValue(book: Workbook, sheet: string, rowpos: Uint32, values: seq<string>) returns (res: Result<seq<TypedValue>>)
    ensures res == TypedValues(book, sheet, rowpos, values, |values|)
  {
    var ret := [];
    var colix := 0;
    while colix < |values|
      invariant colix <= |values|
      invariant TypedValues(book, sheet, rowpos, values, colix) == Ok(ret)
    {
      var col := values[colix];
      if 65535 < colix {
        TypedValuesFailed(book, sheet, rowpos, values, colix + 1, |values|);
        return Err(TooManyColumns);
      }
      var colpos := ColPos(colix);
      var xtyp := CellTypeByIndex(book, sheet, rowpos, colpos);
      if xtyp.Err? {
        TypedValuesFailed(book, sheet, rowpos, values, colix + 1, |values|);
        return Err(xtyp.error);
      }
      ret := ret + [TypedValue(col, xtyp.value)];
      colix := colix + 1;
    }
    res := Ok(ret);
  }

  /** The sample found in a row sequence: the second item, typed by the cell
      types of its own physical row. */
  function SampleOf(book: Workbook, sheet: string, stream: seq<Item>): Result<seq<TypedValue>>
  {
    if stream == [] then Err(NoSampleRow)
    else if stream[0].err.Some? then Err(stream[0].err.value)
    else if |stream| == 1 then Err(NoSampleRow)
    else if stream[1].err.Some? then Err(stream[1].err.value)
    else TypedValues(book, sheet, RowPos(stream[1].row.index), stream[1].row.columns, |stream[1].row.columns|)
  }

  function Sample(book: Workbook, sheet: string, skipRows: int): Result<seq<TypedValue>>
  {
    match SheetRows(book, sheet)
    case Err(e) => Err(e)
    case Ok(steps) => SampleOf(book, sheet, Stream(steps, skipRows))
  }

  /** ToSampleRow's loop body goes on only after a header row without error. */
  function HeaderThenSample(): seq<Item> -> bool
  {
    (p: seq<Item>) => |p| == 1 && p[0].err.None?
  }

  /** Resolves the typed sample row with a pass of its own; its cursor is closed once. */
  method ToSampleRow(book: Workbook, sheet: string, skipRows: int) returns (res: Result<seq<TypedValue>>, ghost cursor: Rows?)
    ensures res == Sample(book, sheet, skipRows)
    ensures cursor != null <==> SheetRows(book, sheet).Ok?
    ensures cursor != null ==> fresh(cursor) && cursor.closes == 1
  {
    var rowsExcel, e := OpenRows(book, sheet);
    if e.Some? {
      return Err(e.value), null;
    }
    cursor := rowsExcel;
    ghost var stream := Stream(rowsExcel.steps, skipRows);
    var rowsIter := ToIter(rowsExcel, skipRows, HeaderThenSample());
    var rowCount := 0;
    var k := 0;
    while k < |rowsIter|
      invariant k <= |rowsIter| && k <= 1 && rowCount == k
      invariant k == 1 ==> rowsIter[0] == stream[0] && stream[0].err.None?
      invariant cursor.closes == 1
    {
      var row := rowsIter[k];
      if k == 1 {
        ContinuedBefore(rowsIter, stream, HeaderThenSample(), 1);
      }
      assert row == stream[k];
      if row.err.Some? {
        return Err(row.err.value), cursor;
      }
      rowCount := rowCount + 1;
      if rowCount == 1 {
        k := k + 1;
        continue;
      }
      var physicalRowIndex := RowPos(row.row.index);
      res := ToTypedValue(book, sheet, physicalRowIndex, row.row.columns);
      return;
    }
    if k == 1 {
      assert HeaderThenSample()(rowsIter);
    }
    res := Err(NoSampleRow);
  }

  // ---- conversions ----

  /** Everything the raw conversion yields when its consumer never stops. */
  function RawObjects(book: Workbook, sheet: string, skipRows: int): seq<Result<Record<string>>>
  {
    match Header(book, sheet, skipRows)
    case Err(e) => [Err(e)]
    case Ok(h) =>
      match SheetRows(book, sheet)
      case Err(e) => [Err(e)]
      case Ok(steps) => Assembled(Stream(steps, skipRows), h, RawCell())
  }

  /** The column types of a typed sample row. */
  function TypesOf(typed: seq<TypedValue>): seq<Xtype>
  {
    seq(|typed|, i requires 0 <= i < |typed| => typed[i].typ)
  }

  /** Everything the typed conversion yields when its consumer never stops. */
  function Objects(book: Workbook, sheet: string, skipRows: int, ps: Parsers): seq<Result<Record<Value>>>
  {
    match Header(book, sheet, skipRows)
    case Err(e) => [Err(e)]
    case Ok(h) =>
      match SheetRows(book, sheet)
      case Err(e) => [Err(e)]
      case Ok(steps) =>
        match Sample(book, sheet, skipRows)
        case Err(e) => [Err(e)]
        case Ok(typed) => TypedObjects(steps, h, TypesOf(typed), skipRows, ps)
  }

  /** Raw conversion for a consumer `cont`: a header pass, then an assembler
      pass. Both cursors are closed exactly once. */
  method ToRawObjects(book: Workbook, sheet: string, skipRows: int, cont: seq<Result<Record<string>>> -> bool)
    returns (out: seq<Result<Record<string>>>, ghost headerCursor: Rows?, ghost rowsCursor: Rows?)
    ensures out == Delivered(RawObjects(book, sheet, skipRows), cont)
    ensures headerCursor != null <==> SheetRows(book, sheet).Ok?
    ensures rowsCursor != null <==> Header(book, sheet, skipRows).Ok?
    ensures headerCursor != null ==> fresh(headerCursor) && headerCursor.closes == 1
    ensures rowsCursor != null ==> fresh(rowsCursor) && rowsCursor.closes == 1
    ensures rowsCursor != null ==> rowsCursor != headerCursor
  {
    var hdrs;
    hdrs, headerCursor := ToHeader(book, sheet, skipRows);
    if hdrs.Err? {
      DeliveredSingle(Err(hdrs.error), cont);
      return [Err(hdrs.error)], headerCursor, null;
    }
    var rows, err := OpenRows(book, sheet);
    if err.Some? {
      // The header pass opened the same sheet of the same workbook.
      assert false;
      return [], headerCursor, null;
    }
    rowsCursor := rows;
    out := Assembler.ToRawObjects(rows, hdrs.value, skipRows, cont);
  }

  /** Typed conversion for a consumer `cont`: a header pass, the opening of
      the assembler's cursor, a sample pass, then the typed assembler. The
      assembler's cursor, opened before the sample pass, is closed only when
      the typed assembler runs its sequencer: when sampling fails or the
      type count differs from the header count it is left open. */
  method ToObjects(book: Workbook, sheet: string, skipRows: int, ps: Parsers, cont: seq<Result<Record<Value>>> -> bool)
    returns (out: seq<Result<Record<Value>>>, ghost headerCursor: Rows?, ghost sampleCursor: Rows?, ghost rowsCursor: Rows?)
    ensures out == Delivered(Objects(book, sheet, skipRows, ps), cont)
    ensures headerCursor != null <==> SheetRows(book, sheet).Ok?
    ensures sampleCursor != null <==> Header(book, sheet, skipRows).Ok?
    ensures rowsCursor != null <==> Header(book, sheet, skipRows).Ok?
    ensures headerCursor != null ==> fresh(headerCursor) && headerCursor.closes == 1
    ensures sampleCursor != null ==> fresh(sampleCursor) && sampleCursor.closes == 1
    ensures rowsCursor != null ==> fresh(rowsCursor)
    ensures sampleCursor != null ==> sampleCursor != headerCursor && sampleCursor != rowsCursor
    ensures rowsCursor != null ==> rowsCursor != headerCursor
    ensures rowsCursor != null ==>
              rowsCursor.closes == (if Sample(book, sheet, skipRows).Ok?
                                       && |Header(book, sheet, skipRows).value| == |Sample(book, sheet, skipRows).value|
                                    then 1 else 0)
  {
    var hdrs;
    hdrs, headerCursor := ToHeader(book, sheet, skipRows);
    if hdrs.Err? {
      DeliveredSingle(Err(hdrs.error), cont);
      return [Err(hdrs.error)], headerCursor, null, null;
    }
    var rows, err := OpenRows(book, sheet);
    if err.Some? {
      // The header pass opened the same sheet of the same workbook.
      assert false;
      return [], headerCursor, null, null;
    }
    rowsCursor := rows;
    var typed;
    typed, sampleCursor := ToSampleRow(book, sheet, skipRows);
    if typed.Err? {
      DeliveredSingle(Err(typed.error), cont);
      return [Err(typed.error)], headerCursor, sampleCursor, rowsCursor;
    }
    var typs := [];
    var i := 0;
    while i < |typed.value|
      invariant i <= |typed.value|
      invariant typs == TypesOf(typed.value[..i])
    {
      typs := typs + [typed.value[i].typ];
      i := i + 1;
    }
    assert typed.value[..i] == typed.value;
    out := Assembler.ToObjects(rows, hdrs.value, typs, skipRows, ps, cont);
  }

  // ---- writers ----

  /** Raw conversion drained into the encoder `enc`. */
  method RawsToJsonsToWriter(book: Workbook, sheet: string, skipRows: int, enc: Record<string> -> Option<Error>)
    returns (written: seq<Record<string>>, err: Option<Error>)
    ensures Drained(written, err) == Drain(RawObjects(book, sheet, skipRows), enc)
  {
    var raws, _, _ := ToRawObjects(book, sheet, skipRows, SinkCont(enc));
    written, err := WriteRawObjects(raws, enc);
    DrainDelivered(RawObjects(book, sheet, skipRows), enc);
  }

  /** Typed conversion drained into the encoder `enc`. */
  method ToJsonsToWriter(book: Workbook, sheet: string, skipRows: int, ps: Parsers, enc: Record<Value> -> Option<Error>)
    returns (written: seq<Record<Value>>, err: Option<Error>)
    ensures Drained(written, err) == Drain(Objects(book, sheet, skipRows, ps), enc)
  {
    var objs, _, _, _ := ToObjects(book, sheet, skipRows, ps, SinkCont(enc));
    written, err := WriteObjects(objs, enc);
    DrainDelivered(Objects(book, sheet, skipRows, ps), enc);
  }

  // ---- properties ----

  /** Once a look-up fails or the column limit is hit, the result is that failure. */
  lemma {:induction false} TypedValuesFailed(book: Workbook, sheet: string, rowpos: Uint32, values: seq<string>, n: nat, m: nat)
    requires n <= m <= |values| && TypedValues(book, sheet, rowpos, values, n).Err?
    ensures TypedValues(book, sheet, rowpos, values, m) == TypedValues(book, sheet, rowpos, values, n)
    decreases m - n
  {
    if n < m {
      TypedValuesFailed(book, sheet, rowpos, values, n, m - 1);
    }
  }

  /** The typed row succeeds exactly when there are at most 65536 values and
      every look-up succeeds; it then holds each value with the type found at
      its column position, in order. */
  lemma {:induction false} TypedValuesOk(book: Workbook, sheet: string, rowpos: Uint32, values: seq<string>, n: nat)
    requires n <= |values|
    ensures TypedValues(book, sheet, rowpos, values, n).Ok? <==>
              n <= 0x1_0000 && forall i :: 0 <= i < n ==> CellTypeByIndex(book, sheet, rowpos, ColPos(i)).Ok?
    ensures TypedValues(book, sheet, rowpos, values, n).Ok? ==>
              var typed := TypedValues(book, sheet, rowpos, values, n).value;
              && |typed| == n
              && forall i :: 0 <= i < n ==>
                   typed[i] == TypedValue(values[i], CellTypeByIndex(book, sheet, rowpos, ColPos(i)).value)
  {
    if n > 0 {
      TypedValuesOk(book, sheet, rowpos, values, n - 1);
    }
  }

  /** Columns are looked up one position to the right of their index, in
      16-bit arithmetic, so index 65535 asks for column 0, which has no cell
      name: a row of more than 65535 values whose earlier look-ups succeed
      fails there, before the too-many-columns guard is reached. */
  lemma WideRowFailsAtWrap(book: Workbook, sheet: string, rowpos: Uint32, values: seq<string>)
    requires 65535 < |values|
    requires forall i :: 0 <= i < 65535 ==> CellTypeByIndex(book, sheet, rowpos, ColPos(i)).Ok?
    ensures TypedValues(book, sheet, rowpos, values, |values|) == Err(InvalidCellReference(0, rowpos))
  {
    TypedValuesFirstFailure(book, sheet, rowpos, values, 65535);
  }

  /** The first failed look-up, at index `j`, decides the error. */
  lemma TypedValuesFirstFailure(book: Workbook, sheet: string, rowpos: Uint32, values: seq<string>, j: nat)
    requires j < |values| && j <= 65535
    requires forall i :: 0 <= i < j ==> CellTypeByIndex(book, sheet, rowpos, ColPos(i)).Ok?
    requires CellTypeByIndex(book, sheet, rowpos, ColPos(j)).Err?
    ensures TypedValues(book, sheet, rowpos, values, |values|) == Err(CellTypeByIndex(book, sheet, rowpos, ColPos(j)).error)
  {
    TypedValuesOk(book, sheet, rowpos, values, j);
    TypedValuesFailed(book, sheet, rowpos, values, j + 1, |values|);
  }

  /** The too-many-columns guard never decides the result: reaching index
      65536 needs a successful look-up at index 65535, which asks for column 0. */
  lemma {:induction false} TooManyColumnsUnreachable(book: Workbook, sheet: string, rowpos: Uint32, values: seq<string>, n: nat)
    requires n <= |values|
    requires sheet in book ==> forall row, col :: book[sheet].cellType(row, col) != Err(TooManyColumns)
    ensures TypedValues(book, sheet, rowpos, values, n) != Err(TooManyColumns)
  {
    if n > 0 {
      TooManyColumnsUnreachable(book, sheet, rowpos, values, n - 1);
      if TypedValues(book, sheet, rowpos, values, n - 1).Ok? && 65535 < n - 1 {
        TypedValuesOk(book, sheet, rowpos, values, n - 1);
        assert false;
      }
    }
  }

  /** Without read errors, the header is the cells of the first physical row
      after the skipped ones, or that row's cell error; when the skip uses up
      the sheet there is no header. */
  lemma HeaderAfterSkip(book: Workbook, sheet: string, skipRows: int, steps: seq<Step>)
    requires SheetRows(book, sheet) == Ok(steps) && NoReadErr(steps, 0, |steps|)
    ensures var s := SkipCount(skipRows);
            Header(book, sheet, skipRows) ==
              if s >= |steps| then Err(UnableToGetHeader(sheet))
              else if steps[s].columnsErr.Some? then Err(steps[s].columnsErr.value)
              else Ok(steps[s].columns)
  {
    StreamRows(steps, skipRows);
  }

  /** A read error at or before the header row is the header's error. */
  lemma HeaderReadError(book: Workbook, sheet: string, skipRows: int, steps: seq<Step>, j: nat)
    requires SheetRows(book, sheet) == Ok(steps)
    requires j < |steps| && j <= SkipCount(skipRows) && NoReadErr(steps, 0, j) && steps[j].readErr.Some?
    ensures Header(book, sheet, skipRows) == Err(steps[j].readErr.value)
  {
    StreamStopsAtReadError(steps, skipRows, j);
  }

  /** Without read errors, the sample is the physical row right after the
      header row, typed by the cell types of its own row number; a sheet
      with no such row has no sample. */
  lemma SampleAfterHeader(book: Workbook, sheet: string, skipRows: int, steps: seq<Step>)
    requires SheetRows(book, sheet) == Ok(steps) && NoReadErr(steps, 0, |steps|)
    ensures var s := SkipCount(skipRows);
            Sample(book, sheet, skipRows) ==
              if s >= |steps| then Err(NoSampleRow)
              else if steps[s].columnsErr.Some? then Err(steps[s].columnsErr.value)
              else if s + 1 == |steps| then Err(NoSampleRow)
              else if steps[s + 1].columnsErr.Some? then Err(steps[s + 1].columnsErr.value)
              else TypedValues(book, sheet, RowPos(s + 2), steps[s + 1].columns, |steps[s + 1].columns|)
  {
    StreamRows(steps, skipRows);
  }

  /** Without errors and with every data row as wide as the header row, the
      raw conversion yields one record per data row, in order: the record of
      the data row's cells under the header row's cells. */
  lemma RawObjectsRecords(book: Workbook, sheet: string, skipRows: int, steps: seq<Step>)
    requires SheetRows(book, sheet) == Ok(steps)
    requires forall k :: 0 <= k < |steps| ==> steps[k].readErr.None? && steps[k].columnsErr.None?
    requires SkipCount(skipRows) < |steps|
    requires forall k :: SkipCount(skipRows) < k < |steps| ==>
               |steps[k].columns| == |steps[SkipCount(skipRows)].columns|
    ensures var s := SkipCount(skipRows);
            var out := RawObjects(book, sheet, skipRows);
            && |out| == |steps| - s - 1
            && forall i :: 0 <= i < |out| ==>
                 out[i].Ok? && out[i] == AssembleRow(steps[s].columns, steps[s + 1 + i].columns, RawCell())
  {
    var s := SkipCount(skipRows);
    var h := steps[s].columns;
    var st := Stream(steps, skipRows);
    HeaderAfterSkip(book, sheet, skipRows, steps);
    StreamRows(steps, skipRows);
    forall i | 1 <= i < |st|
      ensures AssembleRow(h, st[i].row.columns, RawCell()).Ok?
    {
      RawRow(h, st[i].row.columns);
    }
    AssembledAllRows(st, h, RawCell());
  }

  /** Without errors, with a sample row typing as many columns as the header
      row has, every data row as wide as the header row and every cell
      converting under its column's tag, the typed conversion yields one
      record per data row, in order: the record of the data row's converted
      cells under the header row's cells. */
  lemma ObjectsRecords(book: Workbook, sheet: string, skipRows: int, ps: Parsers, steps: seq<Step>, typed: seq<TypedValue>)
    requires SheetRows(book, sheet) == Ok(steps)
    requires forall k :: 0 <= k < |steps| ==> steps[k].readErr.None? && steps[k].columnsErr.None?
    requires SkipCount(skipRows) < |steps|
    requires Sample(book, sheet, skipRows) == Ok(typed)
    requires |typed| == |steps[SkipCount(skipRows)].columns|
    requires forall k :: SkipCount(skipRows) < k < |steps| ==>
               |steps[k].columns| == |steps[SkipCount(skipRows)].columns|
    requires forall k, i :: SkipCount(skipRows) < k < |steps| && 0 <= i < |typed| ==>
               Convert(TypedValue(steps[k].columns[i], typed[i].typ), ps).Ok?
    ensures var s := SkipCount(skipRows);
            var out := Objects(book, sheet, skipRows, ps);
            && |out| == |steps| - s - 1
            && forall i :: 0 <= i < |out| ==>
                 out[i].Ok? && out[i] == AssembleRow(steps[s].columns, steps[s + 1 + i].columns, TypedCell(TypesOf(typed), ps))
  {
    var s := SkipCount(skipRows);
    var h := steps[s].columns;
    var typs := TypesOf(typed);
    var st := Stream(steps, skipRows);
    HeaderAfterSkip(book, sheet, skipRows, steps);
    StreamRows(steps, skipRows);
    forall i | 1 <= i < |st|
      ensures AssembleRow(h, st[i].row.columns, TypedCell(typs, ps)).Ok?
    {
      var cols := st[i].row.columns;
      assert cols == steps[s + i].columns;
      forall c | 0 <= c < |cols|
        ensures Convert(TypedValue(cols[c], typs[c]), ps).Ok?
      {
        assert typs[c] == typed[c].typ;
      }
      TypedRow(h, cols, typs, ps);
    }
    AssembledAllRows(st, h, TypedCell(typs, ps));
  }
}
