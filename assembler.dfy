/** The object assemblers: a fresh sequencer pass whose first row (the header
    row) is skipped and whose every later row is zipped against the headers,
    raw or converted, stopping at the first error. */
module Assembler {
  import opened Base
  import opened Streams
  import opened Decoder
  import opened Sequencer
  import opened Typed

  /** The record for the first `n` columns of a row, filled left to right the
      way the loop body fills its scratch map; the error of the first cell
      that fails to convert replaces it. */
  function FillRow<V>(headers: seq<string>, cols: seq<string>, cell: (nat, string) -> Result<V>, n: nat): Result<Record<V>>
    requires n <= |headers| && n <= |cols|
  {
    if n == 0 then Ok(map[])
    else match FillRow(headers, cols, cell, n - 1)
      case Err(e) => Err(e)
      case Ok(m) =>
        match cell(n - 1, cols[n - 1])
        case Err(e) => Err(e)
        case Ok(v) => Ok(m[headers[n - 1] := v])
  }

  /** The record for one data row, or why the stream ends there. */
  function AssembleRow<V>(headers: seq<string>, cols: seq<string>, cell: (nat, string) -> Result<V>): Result<Record<V>>
  {
    if |cols| != |headers| then Err(InvalidColumnCount(|cols|, |headers|))
    else FillRow(headers, cols, cell, |cols|)
  }

  /** The assembler has yielded an error and yields nothing more. */
  predicate Halted<V>(out: seq<Result<Record<V>>>)
  {
    out != [] && out[|out| - 1].Err?
  }

  /** What the assembler yields after receiving `items` from the sequencer:
      an erroneous item ends the stream with its error, the first item is the
      header row and yields nothing, every later row yields its record or the
      error that ends the stream. */
  function Assembled<V>(items: seq<Item>, headers: seq<string>, cell: (nat, string) -> Result<V>): seq<Result<Record<V>>>
    decreases |items|
  {
    if items == [] then []
    else
      var prev := Assembled(items[..|items| - 1], headers, cell);
      var x := items[|items| - 1];
      if Halted(prev) then prev
      else if x.err.Some? then prev + [Err(x.err.value)]
      else if |items| == 1 then prev
      else prev + [AssembleRow(headers, x.row.columns, cell)]
  }

  /** The answers the assembler's loop body gives the sequencer: stop after an
      error, go on after the header row, and otherwise pass on the answer of
      the assembler's own consumer `cont`. */
  function Inner<V>(headers: seq<string>, cell: (nat, string) -> Result<V>, cont: seq<Result<Record<V>>> -> bool): seq<Item> -> bool
  {
    (p: seq<Item>) =>
      var out := Assembled(p, headers, cell);
      !Halted(out) && (|p| <= 1 || cont(out))
  }

  /** Raw mode keeps every cell as its string. */
  function RawCell(): (nat, string) -> Result<string>
  {
    (i: nat, c: string) => Ok(c)
  }

  /** Typed mode converts the cell of column `i` with the column's tag. */
  function TypedCell(typs: seq<Xtype>, ps: Parsers): (nat, string) -> Result<Value>
  {
    (i: nat, c: string) => Convert(TypedValue(c, if i < |typs| then typs[i] else XtypeUnset), ps)
  }

  /** Everything the typed assembler yields when its consumer never stops. */
  function TypedObjects(steps: seq<Step>, headers: seq<string>, typs: seq<Xtype>, skipRows: int, ps: Parsers): seq<Result<Record<Value>>>
  {
    if |headers| != |typs| then [Err(UnexpectedTypCount)]
    else Assembled(Stream(steps, skipRows), headers, TypedCell(typs, ps))
  }

  /** Raw assembler over a fresh cursor, for a consumer `cont`. */
  method ToRawObjects(r: Rows, headers: seq<string>, skipRows: int, cont: seq<Result<Record<string>>> -> bool)
    returns (out: seq<Result<Record<string>>>)
    requires r.pos == 0
    modifies r
    ensures out == Delivered(Assembled(Stream(r.steps, skipRows), headers, RawCell()), cont)
    ensures r.closes == old(r.closes) + 1
  {
    var rows := ToIter(r, skipRows, Inner(headers, RawCell(), cont));
    var buf: Record<string> := map[];
    var firstRowSkipped := false;
    out := [];
    var k := 0;
    while k < |rows|
      invariant k <= |rows|
      invariant out == Assembled(rows[..k], headers, RawCell())
      invariant !Halted(out)
      invariant firstRowSkipped == (k > 0)
      invariant r.closes == old(r.closes) + 1
    {
      var row := rows[k];
      buf := map[];
      AssembledNext(rows, headers, RawCell(), k);
      if row.err.Some? {
        out := out + [Err(row.err.value)];
        StopsAtLast(rows, Stream(r.steps, skipRows), headers, RawCell(), cont, k);
        return;
      }
      if !firstRowSkipped {
        firstRowSkipped := true;
        k := k + 1;
        continue;
      }
      var cols := row.row.columns;
      if |cols| != |headers| {
        out := out + [Err(InvalidColumnCount(|cols|, |headers|))];
        StopsAtLast(rows, Stream(r.steps, skipRows), headers, RawCell(), cont, k);
        return;
      }
      buf := FillRaw(headers, cols);
      out := out + [Ok(buf)];
      if !cont(out) {
        StopsAtLast(rows, Stream(r.steps, skipRows), headers, RawCell(), cont, k);
        return;
      }
      k := k + 1;
    }
    assert rows[..k] == rows;
    AssembledDelivered(Stream(r.steps, skipRows), headers, RawCell(), cont);
  }

  /** Typed assembler over a fresh cursor, for a consumer `cont`. A header
      count that differs from the type count is reported at once, without
      reading or closing the cursor. */
  method ToObjects(r: Rows, headers: seq<string>, typs: seq<Xtype>, skipRows: int, ps: Parsers,
                   cont: seq<Result<Record<Value>>> -> bool)
    returns (out: seq<Result<Record<Value>>>)
    requires r.pos == 0
    modifies r
    ensures out == Delivered(TypedObjects(r.steps, headers, typs, skipRows, ps), cont)
    ensures |headers| != |typs| ==> r.pos == 0 && r.closes == old(r.closes)
    ensures |headers| == |typs| ==> r.closes == old(r.closes) + 1
  {
    if |headers| != |typs| {
      out := [Err(UnexpectedTypCount)];
      DeliveredSingle(Err(UnexpectedTypCount), cont);
      return;
    }
    var cell := TypedCell(typs, ps);
    var rows := ToIter(r, skipRows, Inner(headers, cell, cont));
    var buf: Record<Value> := map[];
    var firstRowSkipped := false;
    out := [];
    var k := 0;
    while k < |rows|
      invariant k <= |rows|
      invariant out == Assembled(rows[..k], headers, cell)
      invariant !Halted(out)
      invariant firstRowSkipped == (k > 0)
      invariant r.closes == old(r.closes) + 1
    {
      var row := rows[k];
      buf := map[];
      AssembledNext(rows, headers, cell, k);
      if row.err.Some? {
        out := out + [Err(row.err.value)];
        StopsAtLast(rows, Stream(r.steps, skipRows), headers, cell, cont, k);
        return;
      }
      if !firstRowSkipped {
        firstRowSkipped := true;
        k := k + 1;
        continue;
      }
      var cols := row.row.columns;
      if |cols| != |headers| {
        out := out + [Err(InvalidColumnCount(|cols|, |headers|))];
        StopsAtLast(rows, Stream(r.steps, skipRows), headers, cell, cont, k);
        return;
      }
      var filled := FillTyped(headers, cols, typs, ps);
      if filled.Err? {
        out := out + [filled];
        StopsAtLast(rows, Stream(r.steps, skipRows), headers, cell, cont, k);
        return;
      }
      buf := filled.value;
      out := out + [Ok(buf)];
      if !cont(out) {
        StopsAtLast(rows, Stream(r.steps, skipRows), headers, cell, cont, k);
        return;
      }
      k := k + 1;
    }
    assert rows[..k] == rows;
    AssembledDelivered(Stream(r.steps, skipRows), headers, cell, cont);
  }

  /** The raw loop body's column loop: fills the scratch record left to right. */
  method FillRaw(headers: seq<string>, cols: seq<string>) returns (buf: Record<string>)
    requires |cols| == |headers|
    ensures FillRow(headers, cols, RawCell(), |cols|) == Ok(buf)
  {
    buf := map[];
    var i := 0;
    while i < |cols|
      invariant i <= |cols|
      invariant FillRow(headers, cols, RawCell(), i) == Ok(buf)
    {
      buf := buf[headers[i] := cols[i]];
      i := i + 1;
    }
  }

  /** The typed loop body's column loop: fills the scratch record left to
      right, converting each cell, and stops at the first cell that fails. */
  method FillTyped(headers: seq<string>, cols: seq<string>, typs: seq<Xtype>, ps: Parsers) returns (res: Result<Record<Value>>)
    requires |cols| == |headers| == |typs|
    ensures res == FillRow(headers, cols, TypedCell(typs, ps), |cols|)
  {
    var buf: Record<Value> := map[];
    var i := 0;
    while i < |cols|
      invariant i <= |cols|
      invariant FillRow(headers, cols, TypedCell(typs, ps), i) == Ok(buf)
    {
      var converted := Convert(TypedValue(cols[i], typs[i]), ps);
      if converted.Err? {
        FillRowFailed(headers, cols, TypedCell(typs, ps), i + 1, |cols|);
        return Err(converted.error);
      }
      buf := buf[headers[i] := converted.value];
      i := i + 1;
    }
    res := Ok(buf);
  }

  // ---- steps of the assembler loops ----

  /** The body's answer to the sequencer, spelled out. */
  lemma InnerAt<V>(p: seq<Item>, headers: seq<string>, cell: (nat, string) -> Result<V>, cont: seq<Result<Record<V>>> -> bool)
    ensures Inner(headers, cell, cont)(p)
         == (!Halted(Assembled(p, headers, cell)) && (|p| <= 1 || cont(Assembled(p, headers, cell))))
  {
  }

  /** One more item received: what the body yields for it. */
  lemma AssembledNext<V>(items: seq<Item>, headers: seq<string>, cell: (nat, string) -> Result<V>, k: nat)
    requires k < |items| && !Halted(Assembled(items[..k], headers, cell))
    ensures Assembled(items[..k + 1], headers, cell)
         == if items[k].err.Some? then Assembled(items[..k], headers, cell) + [Err(items[k].err.value)]
            else if k == 0 then Assembled(items[..k], headers, cell)
            else Assembled(items[..k], headers, cell) + [AssembleRow(headers, items[k].row.columns, cell)]
  {
    assert items[..k + 1][..k] == items[..k];
  }

  /** Where the body stops, the sequencer has delivered nothing more, and
      what the body yielded is what its consumer is to receive. */
  lemma StopsAtLast<V>(rows: seq<Item>, s: seq<Item>, headers: seq<string>, cell: (nat, string) -> Result<V>,
                       cont: seq<Result<Record<V>>> -> bool, k: nat)
    requires rows == Delivered(s, Inner(headers, cell, cont)) && k < |rows|
    requires var out := Assembled(rows[..k + 1], headers, cell); Halted(out) || (k >= 1 && !cont(out))
    ensures Assembled(rows[..k + 1], headers, cell) == Delivered(Assembled(s, headers, cell), cont)
  {
    InnerAt(rows[..k + 1], headers, cell, cont);
    RefusesOnlyLast(rows, s, Inner(headers, cell, cont), k + 1);
    AssembledDelivered(s, headers, cell, cont);
  }

  // ---- properties of the specification ----

  /** Once a cell fails, the row's result is that failure. */
  lemma {:induction false} FillRowFailed<V>(headers: seq<string>, cols: seq<string>, cell: (nat, string) -> Result<V>, n: nat, m: nat)
    requires n <= m <= |headers| && m <= |cols| && FillRow(headers, cols, cell, n).Err?
    ensures FillRow(headers, cols, cell, m) == FillRow(headers, cols, cell, n)
    decreases m - n
  {
    if n < m {
      FillRowFailed(headers, cols, cell, n, m - 1);
    }
  }

  /** A row converts when every cell converts; its record then has exactly the
      headers as keys, and each header not repeated later maps to its cell's
      value (a later repeat of a header wins). */
  lemma {:induction false} FillRowRecord<V>(headers: seq<string>, cols: seq<string>, cell: (nat, string) -> Result<V>, n: nat)
    requires n <= |headers| && n <= |cols|
    ensures FillRow(headers, cols, cell, n).Ok? <==> forall i :: 0 <= i < n ==> cell(i, cols[i]).Ok?
    ensures FillRow(headers, cols, cell, n).Ok? ==>
              && FillRow(headers, cols, cell, n).value.Keys == (set i | 0 <= i < n :: headers[i])
              && forall i :: 0 <= i < n && (forall j :: i < j < n ==> headers[j] != headers[i]) ==>
                   FillRow(headers, cols, cell, n).value[headers[i]] == cell(i, cols[i]).value
  {
    FillRowOk(headers, cols, cell, n);
    if FillRow(headers, cols, cell, n).Ok? {
      FillRowKeys(headers, cols, cell, n);
      FillRowValues(headers, cols, cell, n);
    }
  }

  lemma {:induction false} FillRowOk<V>(headers: seq<string>, cols: seq<string>, cell: (nat, string) -> Result<V>, n: nat)
    requires n <= |headers| && n <= |cols|
    ensures FillRow(headers, cols, cell, n).Ok? <==> forall i :: 0 <= i < n ==> cell(i, cols[i]).Ok?
  {
    if n > 0 {
      FillRowOk(headers, cols, cell, n - 1);
      if FillRow(headers, cols, cell, n - 1).Err? {
        FillRowFailed(headers, cols, cell, n - 1, n);
      }
    }
  }

  lemma {:induction false} FillRowKeys<V>(headers: seq<string>, cols: seq<string>, cell: (nat, string) -> Result<V>, n: nat)
    requires n <= |headers| && n <= |cols| && FillRow(headers, cols, cell, n).Ok?
    ensures FillRow(headers, cols, cell, n).value.Keys == (set i | 0 <= i < n :: headers[i])
  {
    if n > 0 {
      FillRowKeys(headers, cols, cell, n - 1);
      var keys := set i | 0 <= i < n - 1 :: headers[i];
      assert (set i | 0 <= i < n :: headers[i]) == keys + {headers[n - 1]};
    }
  }

  lemma {:induction false} FillRowValues<V>(headers: seq<string>, cols: seq<string>, cell: (nat, string) -> Result<V>, n: nat)
    requires n <= |headers| && n <= |cols| && FillRow(headers, cols, cell, n).Ok?
    ensures forall i :: 0 <= i < n && (forall j :: i < j < n ==> headers[j] != headers[i]) ==>
              && cell(i, cols[i]).Ok?
              && headers[i] in FillRow(headers, cols, cell, n).value
              && FillRow(headers, cols, cell, n).value[headers[i]] == cell(i, cols[i]).value
  {
    if n > 0 {
      FillRowValues(headers, cols, cell, n - 1);
      var prev := FillRow(headers, cols, cell, n - 1).value;
      assert FillRow(headers, cols, cell, n).value == prev[headers[n - 1] := cell(n - 1, cols[n - 1]).value];
    }
  }

  /** In raw mode a row as wide as the headers always assembles: its record
      has exactly the headers as keys and sends each header to the cell under
      it, a later repeat of a header winning. */
  lemma RawRow(headers: seq<string>, cols: seq<string>)
    requires |cols| == |headers|
    ensures var r := AssembleRow(headers, cols, RawCell());
            && r.Ok?
            && r.value.Keys == (set i | 0 <= i < |headers| :: headers[i])
            && forall i :: 0 <= i < |headers| && (forall j :: i < j < |headers| ==> headers[j] != headers[i]) ==>
                 r.value[headers[i]] == cols[i]
  {
    FillRowRecord(headers, cols, RawCell(), |cols|);
  }

  /** In typed mode a row as wide as the headers assembles exactly when every
      cell converts with its column's tag; its record then sends each header
      to the converted cell under it, a later repeat of a header winning. */
  lemma TypedRow(headers: seq<string>, cols: seq<string>, typs: seq<Xtype>, ps: Parsers)
    requires |cols| == |headers| == |typs|
    ensures var r := AssembleRow(headers, cols, TypedCell(typs, ps));
            && (r.Ok? <==> forall i :: 0 <= i < |cols| ==> Convert(TypedValue(cols[i], typs[i]), ps).Ok?)
            && (r.Ok? ==>
                  && r.value.Keys == (set i | 0 <= i < |headers| :: headers[i])
                  && forall i :: 0 <= i < |headers| && (forall j :: i < j < |headers| ==> headers[j] != headers[i]) ==>
                       r.value[headers[i]] == Convert(TypedValue(cols[i], typs[i]), ps).value)
  {
    var cell := TypedCell(typs, ps);
    FillRowRecord(headers, cols, cell, |cols|);
    assert forall i :: 0 <= i < |cols| ==> cell(i, cols[i]) == Convert(TypedValue(cols[i], typs[i]), ps);
  }

  /** The first cell that fails to convert decides the row's error. */
  lemma {:induction false} FillRowFirstFailure<V>(headers: seq<string>, cols: seq<string>, cell: (nat, string) -> Result<V>, j: nat, n: nat)
    requires j < n <= |headers| && n <= |cols|
    requires forall i :: 0 <= i < j ==> cell(i, cols[i]).Ok?
    requires cell(j, cols[j]).Err?
    ensures FillRow(headers, cols, cell, n) == Err(cell(j, cols[j]).error)
  {
    FillRowRecord(headers, cols, cell, j);
    FillRowFailed(headers, cols, cell, j + 1, n);
  }

  /** Everything before the last output is a record; nothing is yielded for
      the header row, so a stream of two or more items yields at most one
      output fewer; and until the stream halts it yields exactly that many. */
  lemma {:induction false} AssembledShape<V>(items: seq<Item>, headers: seq<string>, cell: (nat, string) -> Result<V>)
    ensures var out := Assembled(items, headers, cell);
            && |out| <= (if |items| <= 1 then |items| else |items| - 1)
            && (forall i :: 0 <= i < |out| - 1 ==> out[i].Ok?)
            && (!Halted(out) ==> |out| == (if items == [] then 0 else |items| - 1))
    decreases |items|
  {
    if items != [] {
      AssembledShape(items[..|items| - 1], headers, cell);
    }
  }

  /** What is yielded for a prefix of the items is a prefix of what is yielded for all of them. */
  lemma {:induction false} AssembledPrefix<V>(items: seq<Item>, headers: seq<string>, cell: (nat, string) -> Result<V>, m: nat)
    requires m <= |items|
    ensures Assembled(items[..m], headers, cell) <= Assembled(items, headers, cell)
    ensures Halted(Assembled(items[..m], headers, cell)) ==>
              Assembled(items, headers, cell) == Assembled(items[..m], headers, cell)
    decreases |items| - m
  {
    if m < |items| {
      var front := items[..|items| - 1];
      assert front[..m] == items[..m];
      AssembledPrefix(front, headers, cell, m);
    } else {
      assert items[..m] == items;
    }
  }

  /** Every output before the last one was passed on to `cont`, which asked for more. */
  lemma AssembledContinued<V>(s: seq<Item>, headers: seq<string>, cell: (nat, string) -> Result<V>,
                              cont: seq<Result<Record<V>>> -> bool, j: nat)
    requires var o := Assembled(Delivered(s, Inner(headers, cell, cont)), headers, cell); 0 < j < |o|
    ensures var o := Assembled(Delivered(s, Inner(headers, cell, cont)), headers, cell); cont(o[..j])
  {
    var inner := Inner(headers, cell, cont);
    var d := Delivered(s, inner);
    var o := Assembled(d, headers, cell);
    AssembledShape(d, headers, cell);
    var m := j + 1;
    ContinuedBefore(d, s, inner, m);
    InnerAt(s[..m], headers, cell, cont);
    AssembledShape(d[..m], headers, cell);
    AssembledPrefix(d, headers, cell, m);
    assert Assembled(d[..m], headers, cell) == o[..j];
  }

  /** Where the body stopped the sequencer early, the assembler's stream has
      halted or its consumer refused the last output. */
  lemma AssembledEnd<V>(s: seq<Item>, headers: seq<string>, cell: (nat, string) -> Result<V>,
                        cont: seq<Result<Record<V>>> -> bool)
    ensures var o := Assembled(Delivered(s, Inner(headers, cell, cont)), headers, cell);
            var all := Assembled(s, headers, cell);
            o <= all && (o == all || (o != [] && !cont(o)))
  {
    var inner := Inner(headers, cell, cont);
    var d := Delivered(s, inner);
    assert d == s[..|d|];
    AssembledPrefix(s, headers, cell, |d|);
    AssembledShape(d, headers, cell);
    if d != s {
      InnerAt(d, headers, cell, cont);
    }
  }

  /** Running the assembler body over what the sequencer delivers to it gives
      exactly what the assembler's own consumer is to receive. */
  lemma AssembledDelivered<V>(s: seq<Item>, headers: seq<string>, cell: (nat, string) -> Result<V>,
                              cont: seq<Result<Record<V>>> -> bool)
    ensures Assembled(Delivered(s, Inner(headers, cell, cont)), headers, cell)
         == Delivered(Assembled(s, headers, cell), cont)
  {
    var o := Assembled(Delivered(s, Inner(headers, cell, cont)), headers, cell);
    var all := Assembled(s, headers, cell);
    AssembledEnd(s, headers, cell, cont);
    forall j | 0 < j < |o|
      ensures cont(o[..j])
    {
      AssembledContinued(s, headers, cell, cont, j);
    }
    DeliveredUnique(o, Delivered(all, cont), all, cont);
  }

  /** Without errors and with every data row of the right width and
      convertible, the i-th output is the record of data row i + 1, in order. */
  lemma {:induction false} AssembledAllRows<V>(items: seq<Item>, headers: seq<string>, cell: (nat, string) -> Result<V>)
    requires forall i :: 0 <= i < |items| ==> items[i].err.None?
    requires forall i :: 1 <= i < |items| ==> AssembleRow(headers, items[i].row.columns, cell).Ok?
    ensures |Assembled(items, headers, cell)| == if items == [] then 0 else |items| - 1
    ensures forall i :: 0 <= i < |Assembled(items, headers, cell)| ==>
              Assembled(items, headers, cell)[i] == AssembleRow(headers, items[i + 1].row.columns, cell)
    decreases |items|
  {
    if items != [] {
      AssembledAllRows(items[..|items| - 1], headers, cell);
    }
  }

  /** The first item that is an error, or the first data row that is too wide,
      too narrow or not convertible, ends the stream with its error: nothing
      is yielded after it. */
  lemma {:induction false} AssembledStopsAtFirstFailure<V>(items: seq<Item>, headers: seq<string>, cell: (nat, string) -> Result<V>, k: nat)
    requires k < |items|
    requires forall i :: 0 <= i < k ==> items[i].err.None?
    requires forall i :: 1 <= i < k ==> AssembleRow(headers, items[i].row.columns, cell).Ok?
    requires items[k].err.Some? || (k >= 1 && AssembleRow(headers, items[k].row.columns, cell).Err?)
    ensures var out := Assembled(items, headers, cell);
            && |out| == (if k == 0 then 1 else k)
            && out[|out| - 1] == Err(if items[k].err.Some? then items[k].err.value
                                     else AssembleRow(headers, items[k].row.columns, cell).error)
            && forall i :: 0 <= i < |out| - 1 ==> out[i] == AssembleRow(headers, items[i + 1].row.columns, cell)
  {
    var front := items[..k];
    AssembledAllRows(front, headers, cell);
    var prev := Assembled(front, headers, cell);
    assert !Halted(prev) by {
      if prev != [] {
        assert prev[|prev| - 1].Ok?;
      }
    }
    AssembledNext(items, headers, cell, k);
    AssembledPrefix(items, headers, cell, k + 1);
    var e := if items[k].err.Some? then items[k].err.value else AssembleRow(headers, items[k].row.columns, cell).error;
    assert Assembled(items, headers, cell) == prev + [Err(e)];
  }
}
