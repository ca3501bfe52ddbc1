/**
 * A decoded JSON document, as `json.load` hands it to the registry code.
 * Numbers are integers only (the registry files hold no fractions); an object
 * is a map from key to value, so key order and duplicate keys are not kept.
 */
module Json {

  datatype Json =
    | JNull
    | JBool(b: bool)
    | JNum(n: int)
    | JStr(s: string)
    | JArr(items: seq<Json>)
    | JObj(fields: map<string, Json>)

  /** Python's `bool(value)` on a decoded JSON value. */
  predicate Truthy(j: Json) {
    match j
    case JNull => false
    case JBool(b) => b
    case JNum(n) => n != 0
    case JStr(s) => |s| > 0
    case JArr(items) => |items| > 0
    case JObj(fields) => |fields| > 0
  }

  /** `d.get(key, default)` on a JSON object. */
  function Get(fields: map<string, Json>, key: string, default: Json): (r: Json)
    ensures key in fields ==> r == fields[key]
    ensures key !in fields ==> r == default
  {
    if key in fields then fields[key] else default
  }

  /** A JSON array of strings. */
  function StrArray(items: seq<string>): (r: Json)
    ensures r.JArr? && |r.items| == |items|
    ensures forall i :: 0 <= i < |items| ==> r.items[i] == JStr(items[i])
    decreases |items|
  {
    if |items| == 0 then JArr([])
    else JArr([JStr(items[0])] + StrArray(items[1..]).items)
  }
}
