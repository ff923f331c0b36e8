/**
 * JSON documents as values, the form in which `json.load` hands them to the
 * code and `json.dump` takes them back. Numbers are kept exact; object key
 * order is not kept (see README).
 */
module Json {
  import opened Wrappers

  datatype Json =
    | JNull
    | JBool(b: bool)
    | JNum(n: real)
    | JStr(s: string)
    | JArr(items: seq<Json>)
    | JObj(fields: map<string, Json>)

  /** `j[key]` on a JSON object, `None` where Python would raise. */
  function Member(j: Json, key: string): Option<Json> {
    if j.JObj? && key in j.fields then Some(j.fields[key]) else None
  }
}
