/** A stand-in for the spreadsheet decoder: a workbook of sheets, each a
    sequence of physical rows read through a cursor, with a cell-type oracle. */
module Decoder {
  import opened Base

  /** What the cursor reports on reaching one physical row: the error check
      after advancing, the cells, and the error of reading those cells. */
  datatype Step = Step(readErr: Option<Error>, columns: seq<string>, columnsErr: Option<Error>)

  /** A sheet: the error of opening a cursor over it, its physical rows, and
      the cell type at a (row, column) position, which may fail. */
  datatype Sheet = Sheet(openErr: Option<Error>, steps: seq<Step>, cellType: (int, int) -> Result<Xtype>)

  type Workbook = map<string, Sheet>

  /** A forward-only cursor over the physical rows of one sheet. */
  class Rows {
    const steps: seq<Step>
    /** Physical rows advanced over so far. */
    var pos: nat
    /** How many times the cursor was closed. */
    ghost var closes: nat

    constructor (steps: seq<Step>)
      ensures this.steps == steps && pos == 0 && closes == 0
    {
      this.steps := steps;
      pos := 0;
      closes := 0;
    }

    method Next() returns (more: bool)
      requires pos <= |steps|
      modifies this`pos
      ensures more == (old(pos) < |steps|)
      ensures pos == if more then old(pos) + 1 else old(pos)
    {
      more := pos < |steps|;
      if more {
        pos := pos + 1;
      }
    }

    method Error() returns (e: Option<Error>)
      requires 0 < pos <= |steps|
      ensures e == steps[pos - 1].readErr
    {
      e := steps[pos - 1].readErr;
    }

    method Columns() returns (cols: seq<string>, e: Option<Error>)
      requires 0 < pos <= |steps|
      ensures cols == steps[pos - 1].columns && e == steps[pos - 1].columnsErr
    {
      cols, e := steps[pos - 1].columns, steps[pos - 1].columnsErr;
    }

    method Close()
      modifies this`closes
      ensures closes == old(closes) + 1
    {
      closes := closes + 1;
    }
  }

  /** The physical rows of a sheet, or why no cursor can be opened over it. */
  function SheetRows(book: Workbook, sheet: string): Result<seq<Step>>
  {
    if sheet !in book then Err(SheetNotExist(sheet))
    else if book[sheet].openErr.Some? then Err(book[sheet].openErr.value)
    else Ok(book[sheet].steps)
  }

  /** Opens a fresh cursor over a sheet. */
  method OpenRows(book: Workbook, sheet: string) returns (r: Rows?, err: Option<Error>)
    ensures err.Some? <==> SheetRows(book, sheet).Err?
    ensures err.Some? ==> err.value == SheetRows(book, sheet).error
    ensures err.None? ==> r != null && fresh(r) && r.steps == SheetRows(book, sheet).value
    ensures err.None? ==> r.pos == 0 && r.closes == 0
  {
    var rows := SheetRows(book, sheet);
    if rows.Err? {
      r, err := null, Some(rows.error);
    } else {
      r := new Rows(rows.value);
      err := None;
    }
  }
}
