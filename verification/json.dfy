/** Decoded JSON values as the comparator sees them after `encoding/json` has unmarshalled a
    body into `interface{}`: nil, bool, float64, string, `[]interface{}` and
    `map[string]interface{}`. */
module Json {

  /** One JSON value. Numbers are kept as exact values that are only ever compared for
      equality; no float64 arithmetic is modelled. */
  datatype Json =
    | Null
    | Bool(b: bool)
    | Num(n: real)
    | Str(s: string)
    | Arr(elems: seq<Json>)
    | Obj(fields: map<string, Json>)
}
