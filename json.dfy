/**
 * The values `JSON.parse` produces, and the handful of JavaScript operations the
 * tool applies to them: property reads, `hasOwnProperty`, truthiness and `typeof`.
 */
module Json {
  import opened Wrappers

  /** A JSON value. Numbers are exact rationals; `NaN` and the infinities cannot come out of `JSON.parse`. */
  datatype Json =
    | JNull
    | JBool(b: bool)
    | JNum(n: real)
    | JStr(s: string)
    | JArr(items: seq<Json>)
    | JObj(fields: map<string, Json>)

  /**
   * `v[key]` on a value other than `null`: the own property of an object, and
   * `undefined` (here `None`) for a missing key and for every non-object value.
   * Reading a property of `null` throws instead; callers check for `JNull` first.
   */
  function Get(v: Json, key: string): (r: Option<Json>)
    ensures r.Some? <==> v.JObj? && key in v.fields
    ensures r.Some? ==> r.value == v.fields[key]
  {
    if v.JObj? && key in v.fields then Some(v.fields[key]) else None
  }

  /** `v.hasOwnProperty(key)`. */
  predicate Has(v: Json, key: string) { v.JObj? && key in v.fields }

  /** JavaScript truthiness: `null`, `false`, `0` and `""` are falsy; arrays and objects are truthy. */
  predicate Truthy(v: Json)
  {
    match v
    case JNull => false
    case JBool(b) => b
    case JNum(n) => n != 0.0
    case JStr(s) => s != []
    case JArr(_) => true
    case JObj(_) => true
  }

  /** Truthiness of a property read, where `undefined` is falsy. */
  predicate TruthyAt(v: Json, key: string) { Get(v, key).Some? && Truthy(Get(v, key).value) }

  /** The property is present and holds a string (`typeof v[key] === 'string'`). */
  predicate IsStringAt(v: Json, key: string) { Get(v, key).Some? && Get(v, key).value.JStr? }

  /** `typeof v === 'object' && v !== null`: arrays and objects. */
  predicate IsObject(v: Json) { v.JArr? || v.JObj? }
}
