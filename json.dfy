/** The raw JSON value a `mode="before"` validator receives, before any coercion,
    together with Python's truthiness test on it. */
module JsonValues {

  /** A decoded JSON document as Python holds it: `None`, `bool`, `int`, `str`,
      `list` and `dict` (object keys are always strings). */
  datatype Json =
    | JNull
    | JBool(b: bool)
    | JInt(n: int)
    | JString(s: string)
    | JArray(items: seq<Json>)
    | JObject(fields: map<string, Json>)

  /** Python's `bool(v)`: `None`, `False`, `0`, `""`, `[]` and `{}` are falsy. */
  function Truthy(v: Json): (r: bool)
    ensures !r <==> v in {JNull, JBool(false), JInt(0), JString(""), JArray([]), JObject(map[])}
  {
    match v
    case JNull => false
    case JBool(b) => b
    case JInt(n) => n != 0
    case JString(s) => s != ""
    case JArray(items) => items != []
    case JObject(fields) => fields != map[]
  }

  /** Python's `d.get(key)`: the value under `key`, or `None` when it is absent. */
  function Get(fields: map<string, Json>, key: string): Json {
    if key in fields then fields[key] else JNull
  }
}
