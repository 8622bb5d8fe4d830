/**
 * Decoded JSON values as the backend handles them after `json.load`:
 * Python's None, bool, number, str, list and dict. Dictionaries are maps,
 * so the order of their keys is not represented.
 */
module Values {

  datatype Json =
    | JNull
    | JBool(b: bool)
    | JNum(n: real)
    | JStr(s: string)
    | JArr(items: seq<Json>)
    | JObj(fields: map<string, Json>)

  /** Python truthiness: None, False, 0, "", [] and {} are falsy. */
  predicate Truthy(v: Json) {
    match v
    case JNull => false
    case JBool(b) => b
    case JNum(n) => n != 0.0
    case JStr(s) => |s| > 0
    case JArr(a) => |a| > 0
    case JObj(m) => |m| > 0
  }

  /** `d.get(k)`: the value under `k`, or None when the key is absent. */
  function Get(m: map<string, Json>, k: string): Json {
    if k in m then m[k] else JNull
  }

  /** `d.get(k, default)`: a stored None is returned as None. */
  function GetOr(m: map<string, Json>, k: string, default: Json): Json {
    if k in m then m[k] else default
  }

  /** The string inside a value, or `default` when it is not a string. */
  function StrOr(v: Json, default: string): string {
    if v.JStr? then v.s else default
  }
}
