/** JavaScript/JSON values as the server and the client pass them around.
    Numbers are integers here: no value in the core needs fractions, and NaN
    only appears as an invalid date, which the date code models on its own. */
module Json {
  import opened Wrappers

  datatype Json =
    | JNull
    | JBool(b: bool)
    | JNum(n: int)
    | JStr(s: string)
    | JArr(items: seq<Json>)
    | JObj(fields: map<string, Json>)

  /** A JSON object's own properties. */
  type Doc = map<string, Json>

  /** JavaScript truthiness: null, false, 0 and "" are falsy; every array and
      object (also an empty one) is truthy. An absent value (undefined) is
      represented by None and is falsy too, see IsTruthy. */
  predicate Truthy(v: Json) {
    match v
    case JNull => false
    case JBool(b) => b
    case JNum(n) => n != 0
    case JStr(s) => s != ""
    case JArr(_) => true
    case JObj(_) => true
  }

  /** Truthiness of a possibly undefined value. */
  predicate IsTruthy(o: Option<Json>) {
    o.Some? && Truthy(o.value)
  }

  /** `v?.[k]`: the own property k of an object; undefined for a missing key,
      for undefined/null and for the primitives (none of the keys the core
      looks up is a property of a string or an array). */
  function Member(v: Option<Json>, k: string): (r: Option<Json>)
    ensures r.Some? <==> v.Some? && v.value.JObj? && k in v.value.fields
    ensures r.Some? ==> r.value == v.value.fields[k]
  {
    if v.Some? && v.value.JObj? && k in v.value.fields then Some(v.value.fields[k]) else None
  }

  /** `doc[k]` on an object held as its property map. */
  function Get(d: Doc, k: string): Option<Json> {
    if k in d then Some(d[k]) else None
  }

  /** The string held under k, if that property is a string. */
  function StrField(d: Doc, k: string): Option<string> {
    if k in d && d[k].JStr? then Some(d[k].s) else None
  }
}
