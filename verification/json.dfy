/**
 A JSON value as the extension and the backend see one after `JSON.parse`
 or `response.json()`. `JNull` also stands for a missing property
 (`undefined`): both are falsy and neither is an array.
 */
module Json {
  import opened Wrappers

  datatype Json =
    | JNull
    | JBool(b: bool)
    | JNumber(n: real)
    | JString(s: string)
    | JArray(items: seq<Json>)
    | JObject(fields: seq<(string, Json)>)

  /** JavaScript truthiness of a JSON value: `null`, `false`, `0` and `""` are falsy. */
  predicate Truthy(v: Json)
  {
    match v
    case JNull => false
    case JBool(b) => b
    case JNumber(n) => n != 0.0
    case JString(s) => s != ""
    case JArray(_) => true
    case JObject(_) => true
  }

  /** `object[key]` on an object built by `JSON.parse`: a repeated key keeps
      its last value. `None` when the object has no such own property. */
  function Property(fields: seq<(string, Json)>, key: string): (v: Option<Json>)
    ensures v.None? <==> forall k :: 0 <= k < |fields| ==> fields[k].0 != key
    ensures v.Some? ==> exists k :: 0 <= k < |fields| && fields[k] == (key, v.value) &&
                          forall m :: k < m < |fields| ==> fields[m].0 != key
    decreases |fields|
  {
    if fields == [] then None
    else if fields[|fields| - 1].0 == key then Some(fields[|fields| - 1].1)
    else Property(fields[..|fields| - 1], key)
  }
}
