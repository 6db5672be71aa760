# x2jsonl conversion pipeline, modelled in Dafny

This project models the library core of go-xlsx2jsonl. The library reads one
sheet of an XLSX workbook and turns its rows into JSON records, one per line.
The first row after `skipRows` skipped physical rows is the header row. Each
later row becomes a record that maps each header to the cell under it. That
cell is either kept as a string (raw mode) or converted by the cell type of
its column (typed mode). In typed mode the column types come from the sample
row, which is the row right after the header.

Modules, in pipeline order:

- `Base`: the shared values. These are the error kinds, the `Xtype` byte with
  excelize's eight cell-type tags, `Row`, the `(Row, error)` item, JSON
  values and records.
- `Streams`: Go's range-over-func protocol. A consumer's loop body answers
  after every item whether it wants more; it is a function `cont` of the
  items received so far. `Delivered(s, cont)` is what such a consumer
  receives from a producer whose whole output is `s`. `IsDelivered`
  characterises it and `DeliveredUnique` shows that characterisation
  determines it.
- `Decoder`: the spreadsheet decoder the library calls.
  - A sheet is a list of physical row steps, each with an optional read
    error, its cells and an optional cell error.
  - `Rows` is the cursor class, with `Next`, `Error`, `Columns` and `Close`.
    A ghost counter records how often it was closed.
  - Cell types come from a per-sheet function.
- `Sequencer`: `Xrows.ToIter` as a method over the cursor. `Stream` is its
  specification, i.e. everything it yields to a consumer that never stops.
- `Typed`: `TypedValue.Convert`, `TryConvertUnset` and the `Convert*`
  helpers. The strconv parsers are parameters.
- `Assembler`: `Xrows.ToRawObjects` and `Xrows.ToObjects` as methods that
  drive the sequencer with their own loop body (`Inner`). `Assembled` is
  their specification, defined item by item.
- `JsonEnc`: the sink loops. `Drain` is their specification. The encoder is
  a fallible function parameter.
- `Xfile`: the workbook-level passes.
  - `ToRows`, `ToHeader`, `CellTypeByIndex`, `ToTypedValue` and
    `ToSampleRow`. `CellTypeByIndex` turns a position into a cell name,
    which rejects a row or column below 1, before asking the sheet.
  - The raw and typed orchestrations, `ToRawObjects` and `ToObjects`.
  - The writers `RawsToJsonsToWriter` and `ToJsonsToWriter`.
  - Their specifications `Header`, `Sample`, `RawObjects` and `Objects`.

Points where the code decides what a plain reading might not:

- A row's index is its **physical** row number, so the k-th yielded row
  (from 1) has index `skipRows + k`.
- A negative `skipRows` skips nothing.
- A read error, whether among the skipped rows or later, is yielded once
  with the zero `Row` and ends the sequence.
- A cell error from `Columns()` travels with its row, and the sequence goes
  on while the consumer asks for more. Every consumer in the library stops
  on it.
- The sample row is typed with the cell types of its own physical row
  (truncated to 32 bits). Its column `i` is looked up at position `i + 1` in
  16-bit arithmetic, so index 65535 asks for column 0. That look-up fails
  with a cell-reference error. As a result the "too many columns" guard,
  which is only reached at index 65536, never decides the result
  (`Xfile.TooManyColumnsUnreachable`).
- `Xfile.ToObjects` opens the assembler's cursor before the sample pass.
  When sampling fails, or the type count differs from the header count, that
  cursor is never closed. The method returns the cursors of its passes as
  ghost results, each one fresh and distinct from the others, and states
  which of them end up closed once and which stay open.
- With Go's parsers, ParseFloat accepts every string ParseInt accepts. So
  untyped inference never yields an integer (`Typed.UnsetNeverInteger`).

## Model

| member | source | states |
|---|---|---|
| Streams.Delivered | x2jsonl.go:308-310 | a consumer receives a prefix of the producer's output; it asked for more after every shorter prefix; it receives everything or refused its last item |
| Streams.DeliveredUnique | x2jsonl.go:308-310 | the producer's output and the consumer's answers determine what is delivered |
| Streams.DeliveredSingle | x2jsonl.go:161-165 | a producer that yields one item (an early error) delivers exactly that item whatever the consumer answers |
| Sequencer.ToIter | x2jsonl.go:277-314 | the consumer receives exactly the delivered part of `Stream`; the cursor is closed exactly once on every exit (rows exhausted during or after the skip, read error, consumer stop) |
| Sequencer.EmitUpTo | x2jsonl.go:300-312 | over rows without read errors, the main loop yields one item per physical row in order, each with its row number, cells and cell error |
| Sequencer.SkipClean | x2jsonl.go:286-298 | without read errors, the skip loop yields nothing, and the main loop starts after the skipped rows, or yields nothing when the rows run out first |
| Sequencer.SkipHitsError | x2jsonl.go:287-296 | a read error among the skipped rows is the only item yielded |
| Sequencer.StreamSkipsPastEnd | x2jsonl.go:286-291 | skipping at least as many rows as the sheet has yields nothing and no error |
| Sequencer.StreamRows | x2jsonl.go:286-311 | without read errors, the length is the number of rows after the skip, and the k-th item (from 0) is physical row `skip + k + 1` with its cells and cell error |
| Sequencer.StreamStopsAtReadError | x2jsonl.go:286-305 | the first read error is yielded once, with the zero row, as the last item; it is the only item if it falls among the skipped rows |
| Typed.ConvertBool | x2jsonl.go:441 | succeeds exactly when ParseBool accepts the raw string, with its value; otherwise ParseBool's error |
| Typed.ConvertNumber | x2jsonl.go:442 | succeeds exactly when ParseFloat accepts the raw string, with its value; otherwise ParseFloat's error |
| Typed.TryConvertUnset | x2jsonl.go:445-466 | never fails; null exactly for the empty string; a float, bool or integer result only when each earlier parser refused and that parser accepted; the raw string only when all three refused |
| Typed.Convert | x2jsonl.go:468-489 | fails exactly for Bool and Number cells whose parser refuses; Unset, Bool and Number dispatch to their converters; Date, Error, Formula, InlineString, SharedString and unnamed tags return the raw string |
| Typed.UnsetNeverInteger | x2jsonl.go:450-462 | when ParseFloat accepts all that ParseInt accepts, untyped inference never yields an integer, and an integer-looking string becomes a float |
| Assembler.ToRawObjects | x2jsonl.go:316-364 | the consumer receives exactly the delivered part of `Assembled` over the sequencer's stream in raw mode; the cursor is closed once |
| Assembler.ToObjects | x2jsonl.go:368-432 | a header count different from the type count yields exactly one type-count error, and the cursor is neither read nor closed; otherwise the consumer receives the delivered part of `Assembled` in typed mode, and the cursor is closed once |
| Assembler.FillRaw | x2jsonl.go:353-357 | the raw column loop fills the cleared scratch record to exactly the `FillRow` record of the row |
| Assembler.FillTyped | x2jsonl.go:411-425 | the typed column loop gives exactly the `FillRow` result of the row: the record of converted cells, or the first conversion error |
| Assembler.FillRowFailed | x2jsonl.go:411-423 | once a cell fails to convert, the row's result is that error whatever columns follow |
| Assembler.FillRowRecord | x2jsonl.go:353-357 | a row converts iff every cell converts; its record's keys are exactly the headers; each header not repeated later maps to its own cell's value (a later repeat wins), so nothing is left from the previous row |
| Assembler.RawRow | x2jsonl.go:353-357 | in raw mode a row as wide as the headers always yields a record whose keys are the headers, each mapped to the cell under it |
| Assembler.TypedRow | x2jsonl.go:411-425 | in typed mode a row as wide as the headers yields a record iff every cell converts with its column's tag; each header then maps to its converted cell |
| Assembler.FillRowFirstFailure | x2jsonl.go:419-423 | the first cell that fails to convert gives the row's error |
| Assembler.AssembledShape | x2jsonl.go:324-334 | the header row yields nothing; every output but the last is a record; until an error, there is one output per data row |
| Assembler.AssembledPrefix | x2jsonl.go:324-362 | outputs for a prefix of the rows are a prefix of the outputs; after an error nothing more is yielded |
| Assembler.AssembledContinued | x2jsonl.go:359-361 | every output before the last was passed to the consumer, which asked for more |
| Assembler.AssembledEnd | x2jsonl.go:324-362 | where the loop body stops the sequencer early, the stream has ended with an error or the consumer refused its last output |
| Assembler.AssembledDelivered | x2jsonl.go:324-362 | running the loop body over what the sequencer delivers to it gives exactly what the assembler's consumer is to receive |
| Assembler.AssembledAllRows | x2jsonl.go:324-362 | without errors, the i-th output is the record of data row i + 1, in arrival order |
| Assembler.AssembledStopsAtFirstFailure | x2jsonl.go:324-351 | the first erroneous item or first bad data row (wrong width or failed conversion) ends the outputs with its error; the records before it are those of the earlier data rows |
| JsonEnc.WriteRawObjects | x2jsonl.go:493-505 | the records written and the error returned are those of `Drain` over the stream |
| JsonEnc.WriteObjects | x2jsonl.go:507-519 | the records written and the error returned are those of `Drain` over the stream |
| JsonEnc.DrainClean | x2jsonl.go:493-505 | no error is returned iff every item is a record the encoder accepts; every record is then written, in order |
| JsonEnc.DrainFirstError | x2jsonl.go:493-505 | the first stream error or encoder refusal is returned, and exactly the records before it are written |
| JsonEnc.DrainDelivered | x2jsonl.go:494-503 | the sink stops asking exactly where it returns, so draining what it is delivered equals draining the whole stream |
| Xfile.ToRows | x2jsonl.go:80-91 | an opening error is the only item; otherwise the consumer receives the delivered part of the sequencer's stream, and a cursor that opens is fresh and closed once |
| Xfile.ToHeader | x2jsonl.go:93-109 | returns `Header`: the cells of the first yielded item, that item's error, or "unable to get header" naming the sheet when nothing is yielded; its cursor is fresh and closed once |
| Xfile.HeaderAfterSkip | x2jsonl.go:102-108 | without read errors, the header is the cells of the first physical row after the skipped ones, or that row's cell error; no header when the skip uses up the sheet |
| Xfile.HeaderReadError | x2jsonl.go:102-105 | a read error at or before the header row is the header's error |
| Xfile.CellTypeByIndex | x2jsonl.go:54-78 | a row or column position below 1 fails with a cell-reference error before the sheet is consulted; otherwise the sheet's cell type at (row, column) |
| Xfile.ToTypedValue | x2jsonl.go:111-129 | returns `TypedValues` over all values: each value tagged with the cell type at (row, column position), in order, or the first failure |
| Xfile.TypedValuesFailed | x2jsonl.go:114-121 | once a look-up fails or the guard fires, later columns do not change the result |
| Xfile.TypedValuesOk | x2jsonl.go:111-129 | succeeds iff there are at most 65536 values and every look-up succeeds; then the same length, and element i is value i with the type at column position `(i + 1) mod 65536` |
| Xfile.TypedValuesFirstFailure | x2jsonl.go:117-121 | the first failed look-up gives the error |
| Xfile.WideRowFailsAtWrap | x2jsonl.go:114-118 | a row of more than 65535 values whose earlier look-ups succeed fails at index 65535 with a cell-reference error for column 0 |
| Xfile.TooManyColumnsUnreachable | x2jsonl.go:114-118 | unless the sheet's own look-up reports it, the too-many-columns error is never returned |
| Xfile.ToSampleRow | x2jsonl.go:131-153 | returns `Sample`: skips the first yielded row; returns "too few rows" when there is no second row; passes either row's error through; otherwise types the second row at its own 32-bit row number; its cursor is fresh and closed once |
| Xfile.SampleAfterHeader | x2jsonl.go:140-152 | without read errors, the sample is the physical row after the header row, typed at its own row number `skip + 2`; too few rows otherwise |
| Xfile.ToRawObjects | x2jsonl.go:159-175 | a header or opening error is the only item; otherwise the raw assembler's stream (`RawObjects`), delivered to the consumer; both cursors are fresh, distinct from each other, and closed once; the header cursor exists exactly when the sheet opens and the assembler's cursor exactly when the header resolves |
| Xfile.RawObjectsRecords | x2jsonl.go:159-175 | without errors and with every data row as wide as the header row, one record per data row in order, each the data row's cells under the header row's cells |
| Xfile.ToObjects | x2jsonl.go:177-210 | a header, opening or sample error is the only item; otherwise the typed assembler's stream with the sample's column types (`Objects`), delivered to the consumer; the header, sample and assembler cursors are fresh and pairwise distinct; the header and sample cursors are closed once; the assembler's cursor is closed once only when sampling succeeded and the type count equals the header count, and is otherwise left open; the header cursor exists exactly when the sheet opens, and the sample and assembler cursors exactly when the header resolves |
| Xfile.ObjectsRecords | x2jsonl.go:177-210 | without errors, with a sample row as wide as the header row, every data row as wide and every cell converting under its column's tag, one record per data row in order, each the data row's converted cells under the header row's cells |
| Xfile.RawsToJsonsToWriter | x2jsonl.go:212-218 | writes and returns exactly what draining the whole raw stream writes and returns |
| Xfile.ToJsonsToWriter | x2jsonl.go:220-226 | writes and returns exactly what draining the whole typed stream writes and returns |

## Left out

- The spreadsheet decoder (excelize) is not modelled.
  - It covers opening a workbook, the row cursor, `GetCellType`, coordinate
    naming beyond the below-1 check, and the sheet list.
  - It is foreign code. It is replaced by the `Decoder` module's sheet
    values, cursor class and cell-type function.
  - `Xfile.SheetNames` and `ReaderToXfile` are thin calls into it and are
    not modelled.
- The strconv parsers are parameters, not implementations. Float values are
  kept as opaque bit patterns, because floating point is outside the model.
- `Typed.UnsetNeverInteger` assumes a fact about the real parsers as a
  precondition: that ParseFloat accepts all that ParseInt accepts.
- JSON encoding is a fallible function parameter. Nothing about the bytes
  written is modelled.
- The `bufio` writer, the flush, and the `errors.Join` of the encode error
  with the flush error are I/O and are not modelled. `Xfile.RawsToJsonsToWriter`
  and `Xfile.ToJsonsToWriter` state only what the sink returns, not the
  flush error joined to it.
- The stdin/stdout wrappers (`RawsToJsonsToStdout`, `ObjsToJsonsToStdout`,
  `StdinToSheetToRawJsonsToStdout`, `StdinToSheetToJsonsToStdout`) and the
  command-line program are I/O glue and are not modelled.
- The logging of a failed cursor close is not modelled, because it is a log
  line with no effect on the output. The decoder's `Close` never fails here.
- Error texts are not modelled. Errors are constructors carrying the values
  the messages print.
- Go interleaves producer and consumer. The model runs the producer against
  the consumer's answers and then replays the body, which gives the same
  items and the same cursor effects.
- The assemblers yield one scratch map that is cleared and refilled for
  every row. The model yields map values, so a consumer keeping a record
  across iterations, and seeing it change, is not modelled.
- Xfile.ToRawObjects, Xfile.ToObjects: the contracts speak only of the
  cursors the passes open, which the methods return. They do not rule out
  some further cursor being opened, because the model keeps no registry of
  all open cursors.
- Xfile.ToRawObjects, Xfile.ToObjects: every pass opens the same sheet of
  the same workbook value, so an opening that succeeds for the header pass
  succeeds again. A failure of only the second opening, which Go yields as
  the single item, is not modelled. That branch of the methods is proved
  unreachable, and the matching opening-error cases of `RawObjects` and
  `Objects` are never taken.
- Counters and indices are unbounded integers, except where the code
  truncates them: the 32-bit row number and the 16-bit column position,
  both written out.
