/** Conversion of one raw cell string to a JSON value according to the cell
    type tag taken from the sample row. */
module Typed {
  import opened Base

  /** A raw cell together with the type tag of its column. */
  datatype TypedValue = TypedValue(raw: string, typ: Xtype)

  /** What a strconv parser returns: the parsed value, or why it refused. */
  datatype Parsed<T> = Parsed(value: T) | Failed(kind: NumErrKind)

  /** The library parsers the converter calls: strconv.ParseFloat(s, 64),
      strconv.ParseBool(s) and strconv.ParseInt(s, 10, 64). Only how the
      converter dispatches to them and in which order is modelled. */
  datatype Parsers = Parsers(
    parseFloat: string -> Parsed<Float64>,
    parseBool: string -> Parsed<bool>,
    parseInt: string -> Parsed<int>)

  function ConvertBool(v: TypedValue, ps: Parsers): (r: Result<Value>)
    ensures r.Ok? <==> ps.parseBool(v.raw).Parsed?
    ensures r.Ok? ==> r.value == Boolean(ps.parseBool(v.raw).value)
    ensures r.Err? ==> r.error == NumError("ParseBool", v.raw, ps.parseBool(v.raw).kind)
  {
    match ps.parseBool(v.raw)
    case Parsed(b) => Ok(Boolean(b))
    case Failed(k) => Err(NumError("ParseBool", v.raw, k))
  }

  function ConvertNumber(v: TypedValue, ps: Parsers): (r: Result<Value>)
    ensures r.Ok? <==> ps.parseFloat(v.raw).Parsed?
    ensures r.Ok? ==> r.value == Float(ps.parseFloat(v.raw).value)
    ensures r.Err? ==> r.error == NumError("ParseFloat", v.raw, ps.parseFloat(v.raw).kind)
  {
    match ps.parseFloat(v.raw)
    case Parsed(f) => Ok(Float(f))
    case Failed(k) => Err(NumError("ParseFloat", v.raw, k))
  }

  /** The inference used for cells without a type: the empty string is null;
      otherwise the first of float, bool and integer parsing that accepts the
      string wins, and the raw string is the fallback. It never fails. */
  function TryConvertUnset(v: TypedValue, ps: Parsers): (r: Result<Value>)
    ensures r.Ok?
    ensures r.value.Null? <==> v.raw == ""
    ensures r.value.Float? ==> v.raw != "" && ps.parseFloat(v.raw) == Parsed(r.value.f)
    ensures r.value.Boolean? ==>
              v.raw != "" && ps.parseFloat(v.raw).Failed? && ps.parseBool(v.raw) == Parsed(r.value.b)
    ensures r.value.Integer? ==>
              v.raw != "" && ps.parseFloat(v.raw).Failed? && ps.parseBool(v.raw).Failed?
              && ps.parseInt(v.raw) == Parsed(r.value.i)
    ensures r.value.Str? ==>
              v.raw != "" && ps.parseFloat(v.raw).Failed? && ps.parseBool(v.raw).Failed?
              && ps.parseInt(v.raw).Failed? && r.value.s == v.raw
  {
    if v.raw == "" then Ok(Null)
    else match ps.parseFloat(v.raw)
      case Parsed(f) => Ok(Float(f))
      case Failed(_) =>
        match ps.parseBool(v.raw)
        case Parsed(b) => Ok(Boolean(b))
        case Failed(_) =>
          match ps.parseInt(v.raw)
          case Parsed(i) => Ok(Integer(i))
          case Failed(_) => Ok(Str(v.raw))
  }

  /** Tags whose cells are passed through as their raw string: Date, Error,
      Formula, InlineString, SharedString and every unnamed byte. */
  predicate PassesThrough(t: Xtype)
  {
    t != XtypeUnset && t != XtypeBool && t != XtypeNumber
  }

  /** Converts a cell by its tag. Only Bool and Number cells can fail, and
      only when their parser refuses the raw string. */
  function Convert(v: TypedValue, ps: Parsers): (r: Result<Value>)
    ensures r.Err? <==>
              || (v.typ == XtypeBool && ps.parseBool(v.raw).Failed?)
              || (v.typ == XtypeNumber && ps.parseFloat(v.raw).Failed?)
    ensures v.typ == XtypeUnset ==> r == TryConvertUnset(v, ps)
    ensures v.typ == XtypeBool ==> r == ConvertBool(v, ps)
    ensures v.typ == XtypeNumber ==> r == ConvertNumber(v, ps)
    ensures PassesThrough(v.typ) ==> r == Ok(Str(v.raw))
  {
    if v.typ == XtypeUnset then TryConvertUnset(v, ps)
    else if v.typ == XtypeBool then ConvertBool(v, ps)
    else if v.typ == XtypeDate then Ok(Str(v.raw))
    else if v.typ == XtypeError then Ok(Str(v.raw))
    else if v.typ == XtypeFormula then Ok(Str(v.raw))
    else if v.typ == XtypeInlineString then Ok(Str(v.raw))
    else if v.typ == XtypeNumber then ConvertNumber(v, ps)
    else if v.typ == XtypeSharedString then Ok(Str(v.raw))
    else Ok(Str(v.raw))
  }

  /** With Go's parsers every string ParseInt accepts is accepted by
      ParseFloat first, so untyped inference never produces an integer:
      "42" becomes the float 42. */
  lemma UnsetNeverInteger(v: TypedValue, ps: Parsers)
    requires forall s :: ps.parseInt(s).Parsed? ==> ps.parseFloat(s).Parsed?
    ensures !TryConvertUnset(v, ps).value.Integer?
    ensures v.raw != "" && ps.parseInt(v.raw).Parsed? ==> TryConvertUnset(v, ps) == Ok(Float(ps.parseFloat(v.raw).value))
  {
  }
}
