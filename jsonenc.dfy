/** The sink: drains a record stream into an encoder, one JSON line per
    record, and returns the first error. */
module JsonEnc {
  import opened Base
  import opened Streams

  /** The records a drain wrote, in order, and the error it returned. */
  datatype Drained<V> = Drained(written: seq<Record<V>>, err: Option<Error>)

  /** Draining `outs` with the encoder `enc`: stop at the first error in the
      stream or the first record the encoder refuses. */
  function Drain<V>(outs: seq<Result<Record<V>>>, enc: Record<V> -> Option<Error>): Drained<V>
  {
    if outs == [] then Drained([], None)
    else match outs[0]
      case Err(e) => Drained([], Some(e))
      case Ok(m) =>
        if enc(m).Some? then Drained([], enc(m))
        else
          var rest := Drain(outs[1..], enc);
          Drained([m] + rest.written, rest.err)
  }

  /** The sink's loop body: ask for more after a record that was encoded. */
  function SinkCont<V>(enc: Record<V> -> Option<Error>): seq<Result<Record<V>>> -> bool
  {
    (p: seq<Result<Record<V>>>) => p != [] && p[|p| - 1].Ok? && enc(p[|p| - 1].value).None?
  }

  /** Drains raw (string-valued) records. */
  method WriteRawObjects(raws: seq<Result<Record<string>>>, enc: Record<string> -> Option<Error>)
    returns (written: seq<Record<string>>, err: Option<Error>)
    ensures Drained(written, err) == Drain(raws, enc)
  {
    written := [];
    var i := 0;
    while i < |raws|
      invariant i <= |raws|
      invariant Drain(raws, enc) == Drained(written + Drain(raws[i..], enc).written, Drain(raws[i..], enc).err)
    {
      DrainAt(raws, enc, i);
      if raws[i].Err? {
        return written, Some(raws[i].error);
      }
      var je := enc(raws[i].value);
      if je.Some? {
        return written, je;
      }
      assert written + ([raws[i].value] + Drain(raws[i + 1..], enc).written)
          == (written + [raws[i].value]) + Drain(raws[i + 1..], enc).written;
      written := written + [raws[i].value];
      i := i + 1;
    }
    err := None;
  }

  /** Drains typed records. */
  method WriteObjects(objs: seq<Result<Record<Value>>>, enc: Record<Value> -> Option<Error>)
    returns (written: seq<Record<Value>>, err: Option<Error>)
    ensures Drained(written, err) == Drain(objs, enc)
  {
    written := [];
    var i := 0;
    while i < |objs|
      invariant i <= |objs|
      invariant Drain(objs, enc) == Drained(written + Drain(objs[i..], enc).written, Drain(objs[i..], enc).err)
    {
      DrainAt(objs, enc, i);
      if objs[i].Err? {
        return written, Some(objs[i].error);
      }
      var je := enc(objs[i].value);
      if je.Some? {
        return written, je;
      }
      assert written + ([objs[i].value] + Drain(objs[i + 1..], enc).written)
          == (written + [objs[i].value]) + Drain(objs[i + 1..], enc).written;
      written := written + [objs[i].value];
      i := i + 1;
    }
    err := None;
  }

  /** One step of the drain from position `i`. */
  lemma DrainAt<V>(outs: seq<Result<Record<V>>>, enc: Record<V> -> Option<Error>, i: nat)
    requires i < |outs|
    ensures Drain(outs[i..], enc)
         == if outs[i].Err? then Drained([], Some(outs[i].error))
            else if enc(outs[i].value).Some? then Drained([], enc(outs[i].value))
            else Drained([outs[i].value] + Drain(outs[i + 1..], enc).written, Drain(outs[i + 1..], enc).err)
  {
    assert outs[i..][1..] == outs[i + 1..];
  }

  /** A drain returns no error exactly when every item is a record the encoder
      accepts; it then writes every record, in order. */
  lemma {:induction false} DrainClean<V>(outs: seq<Result<Record<V>>>, enc: Record<V> -> Option<Error>)
    ensures Drain(outs, enc).err.None? <==> forall i :: 0 <= i < |outs| ==> outs[i].Ok? && enc(outs[i].value).None?
    ensures Drain(outs, enc).err.None? ==>
              |Drain(outs, enc).written| == |outs|
              && forall i :: 0 <= i < |outs| ==> Drain(outs, enc).written[i] == outs[i].value
  {
    if outs != [] {
      DrainClean(outs[1..], enc);
      if outs[0].Ok? && enc(outs[0].value).None? {
        assert forall i :: 1 <= i < |outs| ==> outs[i] == outs[1..][i - 1];
      }
    }
  }

  /** The first stream error or encoder refusal, at position k, is returned;
      exactly the records before it are written. */
  lemma {:induction false} DrainFirstError<V>(outs: seq<Result<Record<V>>>, enc: Record<V> -> Option<Error>, k: nat)
    requires k < |outs|
    requires forall i :: 0 <= i < k ==> outs[i].Ok? && enc(outs[i].value).None?
    requires outs[k].Err? || enc(outs[k].value).Some?
    ensures Drain(outs, enc).err == if outs[k].Err? then Some(outs[k].error) else enc(outs[k].value)
    ensures |Drain(outs, enc).written| == k
    ensures forall i :: 0 <= i < k ==> Drain(outs, enc).written[i] == outs[i].value
  {
    if k > 0 {
      DrainFirstError(outs[1..], enc, k - 1);
    }
  }

  /** The sink asks for exactly as much of the stream as it needs: draining
      what it is delivered is draining the whole stream. */
  lemma DrainDelivered<V>(outs: seq<Result<Record<V>>>, enc: Record<V> -> Option<Error>)
    ensures Drain(Delivered(outs, SinkCont(enc)), enc) == Drain(outs, enc)
  {
    var d := Delivered(outs, SinkCont(enc));
    if d != outs {
      var k := |d| - 1;
      forall i | 0 <= i < k
        ensures d[i] == outs[i] && outs[i].Ok? && enc(outs[i].value).None?
      {
        ContinuedBefore(d, outs, SinkCont(enc), i + 1);
      }
      assert d[k] == outs[k];
      DrainFirstError(d, enc, k);
      DrainFirstError(outs, enc, k);
    }
  }
}
