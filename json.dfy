/**
 * Parsed JSON values. Parsing and printing (`JSON.parse`, `JSON.stringify`) are
 * not modelled: metadata arrives already parsed, or as "did not parse".
 */
module Json {
  import opened Wrappers

  /** A JSON value; numbers are integers in this model. */
  datatype Json =
    | JNull
    | JBool(b: bool)
    | JNum(n: int)
    | JStr(s: string)
    | JArr(items: seq<Json>)
    | JObj(fields: map<string, Json>)

  /** `v?.key`: the member `key` of an object; absent for missing keys and non-objects. */
  function Member(v: Json, key: string): (r: Option<Json>)
    ensures r.Some? <==> v.JObj? && key in v.fields
  {
    if v.JObj? && key in v.fields then Some(v.fields[key]) else None
  }

  /** `x ?? null` read back as an optional value: both absent and JSON null give None. */
  function NonNull(x: Option<Json>): (r: Option<Json>)
    ensures r.Some? <==> x.Some? && x.value != JNull
  {
    if x.Some? && x.value != JNull then x else None
  }
}
