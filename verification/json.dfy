/**
 * Parsed JSON values and company records.
 *
 * A record is a JavaScript object: a map from property name to value. A
 * property whose value is `undefined` is absent from the map, which is what
 * `JSON.stringify` and the database driver make of it.
 */
module Json {
  import opened Wrappers

  /** A parsed JSON value. Numbers are integers in this model. */
  datatype Json =
    | JNull
    | JBool(b: bool)
    | JNum(n: int)
    | JStr(s: string)
    | JArr(items: seq<Json>)
    | JObj(fields: map<string, Json>)

  /** A company record (src/types/index.ts): field name to value. */
  type Record = map<string, Json>

  /** `r[key]`: the value of a property, `None` when it is `undefined`. */
  function Get(r: Record, key: string): Option<Json> {
    if key in r then Some(r[key]) else None
  }

  /** `{ ...r, [key]: v }`: an `undefined` value leaves the key absent. */
  function SetOpt(r: Record, key: string, v: Option<Json>): (r': Record)
    ensures Get(r', key) == v
    ensures forall k :: k != key ==> Get(r', k) == Get(r, k)
  {
    match v
    case Some(x) => r[key := x]
    case None => r - {key}
  }

  /** JavaScript truthiness of a possibly `undefined` value. */
  predicate Truthy(v: Option<Json>) {
    match v
    case None => false
    case Some(JNull) => false
    case Some(JBool(b)) => b
    case Some(JNum(n)) => n != 0
    case Some(JStr(s)) => s != ""
    case Some(JArr(_)) => true
    case Some(JObj(_)) => true
  }

  /** `v == null || v === undefined`, the test behind optional chaining `?.`. */
  predicate Nullish(v: Option<Json>) {
    v == None || v == Some(JNull)
  }
}
