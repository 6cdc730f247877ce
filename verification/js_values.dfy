/**
 * The JSON values that travel between browser, server and database, as far
 * as this model needs them. A missing property reads as `JNull` (JavaScript's
 * `undefined` and `null` behave alike everywhere they are used here).
 */
module JsValues {

  /** `created_at`: assigned by the database, opaque apart from its order. */
  type Timestamp = int

  datatype Json = JStr(s: string) | JTime(t: Timestamp) | JNull

  /** A plain JavaScript object: property name to value. */
  type JsObject = map<string, Json>

  /** `o[key]`, reading a missing property as `JNull`. */
  function Get(o: JsObject, key: string): (v: Json)
    ensures key !in o ==> v == JNull
  {
    if key in o then o[key] else JNull
  }

  /** `v || ''` for a value shown as text: the string itself, or empty when falsy or not a string. */
  function TextOr(v: Json): (r: string)
    ensures v.JStr? ==> r == v.s
  {
    if v.JStr? then v.s else ""
  }
}
