/**
 * A parsed JSON value, as `JSON.parse` hands it to the comment parser.
 * Numbers are reals: parsed JSON has no NaN or Infinity, and the parser only
 * compares them.
 */
module Json {
  import opened Wrappers

  datatype Json =
    | JNull
    | JBool(b: bool)
    | JNumber(n: real)
    | JString(s: string)
    | JArray(items: seq<Json>)
    | JObject(fields: map<string, Json>)

  /** JavaScript truthiness: `null`, `false`, `0` and `""` are falsy. */
  predicate Truthy(v: Json) {
    match v
    case JNull => false
    case JBool(b) => b
    case JNumber(n) => n != 0.0
    case JString(s) => s != []
    case _ => true
  }

  /** `typeof v === 'object'`: true of `null`, of arrays and of objects. */
  predicate IsObjectType(v: Json) {
    v.JNull? || v.JArray? || v.JObject?
  }

  /**
   * `key in v` followed by `v[key]`. Only objects carry the named properties the
   * parser asks for; an array has indices and `length`, none of which is asked.
   */
  function Get(v: Json, key: string): (r: Option<Json>)
    ensures r.Some? <==> v.JObject? && key in v.fields
    ensures r.Some? ==> r.value == v.fields[key]
  {
    match v
    case JObject(fields) => if key in fields then Some(fields[key]) else None
    case _ => None
  }

  /** `typeof v[key] === 'string'`: the string held under `key`, if any. */
  function GetString(v: Json, key: string): (r: Option<string>)
    ensures r.Some? <==> Get(v, key).Some? && Get(v, key).value.JString?
    ensures r.Some? ==> Get(v, key) == Some(JString(r.value))
  {
    match Get(v, key)
    case Some(JString(s)) => Some(s)
    case _ => None
  }

  /** `typeof v[key] === 'number'`: the number held under `key`, if any. */
  function GetNumber(v: Json, key: string): (r: Option<real>)
    ensures r.Some? <==> Get(v, key).Some? && Get(v, key).value.JNumber?
    ensures r.Some? ==> Get(v, key) == Some(JNumber(r.value))
  {
    match Get(v, key)
    case Some(JNumber(n)) => Some(n)
    case _ => None
  }
}
