/** The dynamically typed values that flow through the pipeline: what
    `json.loads` returns, what a pandas cell holds, and the few Python
    operations the code applies to them without knowing their type. */
module Values {
  import opened Results
  import opened Text

  /** A JSON value or a spreadsheet cell. `Num` stands for both `int` and
      `float`; `NaN` is pandas' empty cell and JSON's `NaN` literal. */
  datatype Value =
    | Null
    | Bool(b: bool)
    | Num(x: real)
    | NaN
    | Str(s: string)
    | List(items: seq<Value>)
    | Dict(entries: map<string, Value>)

  /** A `dict` with string keys, or one row of a data frame. */
  type Record = map<string, Value>

  /** `d.get(key, default)`. */
  function Get(d: Record, key: string, default: Value): Value {
    if key in d then d[key] else default
  }

  /** The name `type(v).__name__` prints, as it appears in error messages. */
  function TypeName(v: Value): string {
    match v
    case Null => "NoneType"
    case Bool(_) => "bool"
    case Num(_) => "float"
    case NaN => "float"
    case Str(_) => "str"
    case List(_) => "list"
    case Dict(_) => "dict"
  }

  /** `str(v)`. Strings are themselves; `show` stands for the formatting of
      numbers, lists and dicts, which this model does not spell out. */
  function PyStr(v: Value, show: Value -> string): (r: string)
    ensures v.Str? ==> r == v.s
    ensures v.NaN? ==> r == "nan"
    ensures v.Null? ==> r == "None"
  {
    match v
    case Str(s) => s
    case NaN => "nan"
    case Null => "None"
    case Bool(b) => if b then "True" else "False"
    case _ => show(v)
  }

  predicate AllStr(items: seq<Value>) {
    forall i :: 0 <= i < |items| ==> items[i].Str?
  }

  function Texts(items: seq<Value>): (ts: seq<string>)
    requires AllStr(items)
    ensures |ts| == |items|
    ensures forall i :: 0 <= i < |items| ==> ts[i] == items[i].s
  {
    seq(|items|, i requires 0 <= i < |items| => items[i].s)
  }

  /** `sep.join(items)`: a `TypeError` unless every item is a string. */
  function JoinItems(sep: string, items: seq<Value>): (r: Result<string>)
    ensures r.Ok? <==> AllStr(items)
  {
    if AllStr(items) then Ok(Join(sep, Texts(items)))
    else Err("sequence item: expected str instance")
  }

  /** Joining a list of strings is joining the strings themselves. */
  lemma JoinItemsOfStrings(sep: string, ts: seq<string>)
    ensures JoinItems(sep, seq(|ts|, i requires 0 <= i < |ts| => Str(ts[i]))) == Ok(Join(sep, ts))
  {
    var items := seq(|ts|, i requires 0 <= i < |ts| => Str(ts[i]));
    assert Texts(items) == ts;
  }

  /** `v * 10`: numbers scale, booleans count as 0 or 1, strings and lists
      repeat ten times, and `None` or a dict raise a `TypeError`. */
  function Times10(v: Value): (r: Result<Value>)
    ensures r.Err? <==> v.Null? || v.Dict?
    ensures v.Num? ==> r == Ok(Num(10.0 * v.x))
    ensures v.Bool? ==> r == Ok(Num(if v.b then 10.0 else 0.0))
    ensures v.NaN? ==> r == Ok(NaN)
    ensures v.Str? ==> r.Ok? && r.value.Str? && |r.value.s| == 10 * |v.s|
    ensures v.List? ==> r.Ok? && r.value.List? && |r.value.items| == 10 * |v.items|
  {
    match v
    case Num(x) => Ok(Num(10.0 * x))
    case Bool(b) => Ok(Num(if b then 10.0 else 0.0))
    case NaN => Ok(NaN)
    case Str(s) => Ok(Str(Repeat(s, 10)))
    case List(xs) => Ok(List(Repeat(xs, 10)))
    case _ => Err("unsupported operand type(s) for *: '" + TypeName(v) + "' and 'int'")
  }
}
