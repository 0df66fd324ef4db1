/** JavaScript values as `JSON.parse` makes them, and the readers the baseline is checked with. */
module Json {
  import opened Options

  datatype Value =
    | Undefined
    | Null
    | Bool(b: bool)
    | Number(n: real)
    | Text(s: string)
    | List(items: seq<Value>)
    | Record(fields: map<string, Value>)

  /** `value[name]` on an object or an array; an array has no such property. */
  function Property(v: Value, name: string): Value {
    if v.Record? && name in v.fields then v.fields[name] else Undefined
  }

  const MAX_SAFE_INTEGER: nat := 0x1F_FFFF_FFFF_FFFF

  /** `read_nonnegative_integer`; `None` stands for the Error. */
  function NonnegativeInteger(v: Value): Option<nat> {
    if v.Number? && v.n.Floor as real == v.n && 0 <= v.n.Floor <= MAX_SAFE_INTEGER then Some(v.n.Floor) else None
  }

  function PositiveInteger(v: Value): Option<nat> {
    if NonnegativeInteger(v) == Some(0) then None else NonnegativeInteger(v)
  }
}
