/** The row sequencer: skips leading physical rows, then hands out each row
    with its physical row number, errors travelling alongside the rows. */
module Sequencer {
  import opened Base
  import opened Streams
  import opened Decoder

  /** How many physical rows are skipped: a negative count skips none. */
  function SkipCount(skipRows: int): nat
  {
    if skipRows < 0 then 0 else skipRows
  }

  /** The items of the main loop, starting at physical row `k + 1`. */
  function Emit(steps: seq<Step>, k: nat): seq<Item>
    decreases |steps| - k
  {
    if k >= |steps| then []
    else if steps[k].readErr.Some? then [Item(EmptyRow, steps[k].readErr)]
    else [Item(Row(k + 1, steps[k].columns), steps[k].columnsErr)] + Emit(steps, k + 1)
  }

  /** The items left once `k` of the `s` rows to skip have been skipped. */
  function SkipFrom(steps: seq<Step>, k: nat, s: nat): seq<Item>
    requires k <= s
    decreases s - k
  {
    if k == s then Emit(steps, s)
    else if k >= |steps| then []
    else if steps[k].readErr.Some? then [Item(EmptyRow, steps[k].readErr)]
    else SkipFrom(steps, k + 1, s)
  }

  /** Everything the sequencer yields over a sheet when its consumer never stops. */
  function Stream(steps: seq<Step>, skipRows: int): seq<Item>
  {
    SkipFrom(steps, 0, SkipCount(skipRows))
  }

  /** Runs the sequencer over a fresh cursor for a consumer `cont`; the items
      the consumer receives are returned. The cursor is closed exactly once,
      whether the rows ran out, an error ended the sequence or the consumer stopped. */
  method ToIter(r: Rows, skipRows: int, cont: seq<Item> -> bool) returns (items: seq<Item>)
    requires r.pos == 0
    modifies r
    ensures items == Delivered(Stream(r.steps, skipRows), cont)
    ensures r.closes == old(r.closes) + 1
  {
    ghost var full := Stream(r.steps, skipRows);
    ghost var s := SkipCount(skipRows);
    items := [];
    var currentPhysicalRow := 1;
    while currentPhysicalRow <= skipRows
      invariant 1 <= currentPhysicalRow <= s + 1
      invariant r.pos == currentPhysicalRow - 1 <= |r.steps|
      invariant full == SkipFrom(r.steps, currentPhysicalRow - 1, s)
      invariant r.closes == old(r.closes)
      decreases skipRows - currentPhysicalRow
    {
      var more := r.Next();
      if !more {
        r.Close();
        DeliveredAll(full, cont);
        return;
      }
      var err := r.Error();
      if err.Some? {
        items := [Item(EmptyRow, err)];
        r.Close();
        DeliveredSingle(Item(EmptyRow, err), cont);
        return;
      }
      currentPhysicalRow := currentPhysicalRow + 1;
    }
    assert full == Emit(r.steps, currentPhysicalRow - 1);

    var more := r.Next();
    while more
      invariant 1 <= currentPhysicalRow
      invariant more ==> r.pos == currentPhysicalRow <= |r.steps|
      invariant !more ==> r.pos == currentPhysicalRow - 1 == |r.steps|
      invariant full == items + Emit(r.steps, currentPhysicalRow - 1)
      invariant Accepted(items, cont)
      invariant r.closes == old(r.closes)
      decreases |r.steps| - currentPhysicalRow + 1
    {
      var err := r.Error();
      if err.Some? {
        r.Close();
        DeliveredLast(items, Item(EmptyRow, err), cont);
        items := items + [Item(EmptyRow, err)];
        return;
      }
      var cols, colsErr := r.Columns();
      ghost var before := items;
      EmitRow(r.steps, currentPhysicalRow - 1);
      assert before + ([Item(Row(currentPhysicalRow, cols), colsErr)] + Emit(r.steps, currentPhysicalRow))
          == (before + [Item(Row(currentPhysicalRow, cols), colsErr)]) + Emit(r.steps, currentPhysicalRow);
      items := items + [Item(Row(currentPhysicalRow, cols), colsErr)];
      if !cont(items) {
        r.Close();
        DeliveredRefused(before, Item(Row(currentPhysicalRow, cols), colsErr), Emit(r.steps, currentPhysicalRow), cont);
        return;
      }
      AcceptedAppend(before, Item(Row(currentPhysicalRow, cols), colsErr), cont);
      currentPhysicalRow := currentPhysicalRow + 1;
      more := r.Next();
    }
    r.Close();
    assert full == items;
    DeliveredAll(full, cont);
  }

  /** One row of the main loop without a read error. */
  lemma EmitRow(steps: seq<Step>, k: nat)
    requires k < |steps| && steps[k].readErr.None?
    ensures Emit(steps, k) == [RowItem(steps, k)] + Emit(steps, k + 1)
  {
  }

  /** No read error among the physical rows `lo .. hi - 1` (0-based). */
  ghost predicate NoReadErr(steps: seq<Step>, lo: nat, hi: nat)
  {
    forall i :: lo <= i < hi && i < |steps| ==> steps[i].readErr.None?
  }

  /** The item the main loop yields for physical row `k + 1`. */
  function RowItem(steps: seq<Step>, k: nat): Item
    requires k < |steps|
  {
    Item(Row(k + 1, steps[k].columns), steps[k].columnsErr)
  }

  /** The items of physical rows `k + 1 .. j`, none of them a read error. */
  function RowItems(steps: seq<Step>, k: nat, j: nat): seq<Item>
    requires k <= j <= |steps|
  {
    seq(j - k, i requires 0 <= i < j - k => RowItem(steps, k + i))
  }

  lemma {:induction false} EmitUpTo(steps: seq<Step>, k: nat, j: nat)
    requires k <= j <= |steps| && NoReadErr(steps, k, j)
    ensures Emit(steps, k) == RowItems(steps, k, j) + Emit(steps, j)
    decreases j - k
  {
    if k < j {
      EmitUpTo(steps, k + 1, j);
      var items := RowItems(steps, k, j);
      assert items[1..] == RowItems(steps, k + 1, j);
      assert items == [RowItem(steps, k)] + items[1..];
      assert Emit(steps, k) == [RowItem(steps, k)] + Emit(steps, k + 1);
    } else {
      assert RowItems(steps, k, j) == [];
    }
  }

  lemma {:induction false} SkipClean(steps: seq<Step>, k: nat, s: nat)
    requires k <= s && NoReadErr(steps, k, s)
    ensures SkipFrom(steps, k, s) == if s <= |steps| then Emit(steps, s) else []
    decreases s - k
  {
    if k < s && k < |steps| {
      SkipClean(steps, k + 1, s);
    }
  }

  lemma {:induction false} SkipHitsError(steps: seq<Step>, k: nat, s: nat, j: nat)
    requires k <= j < s && j < |steps| && NoReadErr(steps, k, j) && steps[j].readErr.Some?
    ensures SkipFrom(steps, k, s) == [Item(EmptyRow, steps[j].readErr)]
    decreases j - k
  {
    if k < j {
      SkipHitsError(steps, k + 1, s, j);
    }
  }

  /** Skipping at least as many rows as the sheet has yields nothing and no error. */
  lemma StreamSkipsPastEnd(steps: seq<Step>, skipRows: int)
    requires SkipCount(skipRows) >= |steps| && NoReadErr(steps, 0, |steps|)
    ensures Stream(steps, skipRows) == []
  {
    SkipClean(steps, 0, SkipCount(skipRows));
  }

  /** Without read errors, the k-th item (from 0) is physical row
      `SkipCount(skipRows) + k + 1` with that row's cells and cell error. */
  lemma StreamRows(steps: seq<Step>, skipRows: int)
    requires NoReadErr(steps, 0, |steps|)
    ensures var s := SkipCount(skipRows);
            |Stream(steps, skipRows)| == if s < |steps| then |steps| - s else 0
    ensures forall k :: 0 <= k < |Stream(steps, skipRows)| ==>
              Stream(steps, skipRows)[k] == Item(Row(SkipCount(skipRows) + k + 1, steps[SkipCount(skipRows) + k].columns),
                                                 steps[SkipCount(skipRows) + k].columnsErr)
  {
    var s := SkipCount(skipRows);
    SkipClean(steps, 0, s);
    if s <= |steps| {
      EmitUpTo(steps, s, |steps|);
      assert Emit(steps, |steps|) == [];
      assert Stream(steps, skipRows) == RowItems(steps, s, |steps|);
      forall k | 0 <= k < |steps| - s
        ensures Stream(steps, skipRows)[k] == Item(Row(s + k + 1, steps[s + k].columns), steps[s + k].columnsErr)
      {
        assert RowItems(steps, s, |steps|)[k] == RowItem(steps, s + k);
      }
    }
  }

  /** A read error ends the sequence: the first one, at physical row `j + 1`,
      is yielded once with an empty row and is the last item. If it falls
      among the skipped rows it is the only item. */
  lemma StreamStopsAtReadError(steps: seq<Step>, skipRows: int, j: nat)
    requires j < |steps| && NoReadErr(steps, 0, j) && steps[j].readErr.Some?
    ensures var st := Stream(steps, skipRows);
            var s := SkipCount(skipRows);
            && |st| == (if j < s then 1 else j - s + 1)
            && st[|st| - 1] == Item(EmptyRow, steps[j].readErr)
            && forall k :: 0 <= k < |st| - 1 ==> st[k] == RowItem(steps, s + k)
  {
    var s := SkipCount(skipRows);
    if j < s {
      SkipHitsError(steps, 0, s, j);
    } else {
      ReadErrorAfterSkip(steps, s, j);
      var st := Stream(steps, skipRows);
      var front := RowItems(steps, s, j);
      forall k | 0 <= k < |st| - 1
        ensures st[k] == RowItem(steps, s + k)
      {
        assert st[k] == front[k];
      }
    }
  }

  lemma ReadErrorAfterSkip(steps: seq<Step>, s: nat, j: nat)
    requires s <= j < |steps| && NoReadErr(steps, 0, j) && steps[j].readErr.Some?
    ensures SkipFrom(steps, 0, s) == RowItems(steps, s, j) + [Item(EmptyRow, steps[j].readErr)]
  {
    SkipClean(steps, 0, s);
    EmitUpTo(steps, s, j);
  }
}
