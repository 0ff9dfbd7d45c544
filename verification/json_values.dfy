/** Values as `JSON.parse` produces them: what an imported file or the
    stored settings hold before the code looks inside. */
module JsonValues {
  import opened Wrappers

  /** A parsed JSON value. Numbers are restricted to the integers. */
  datatype Json =
    | JNull
    | JBool(b: bool)
    | JNumber(n: int)
    | JString(s: string)
    | JArray(items: seq<Json>)
    | JObject(fields: map<string, Json>)

  /** `v.key` on a value that is not `null`: an object's own field, or
      `undefined` (here `None`) for a missing key and for every
      non-object. */
  function Prop(v: Json, key: string): (r: Option<Json>)
    ensures r.Some? <==> v.JObject? && key in v.fields
    ensures r.Some? ==> r.value == v.fields[key]
  {
    if v.JObject? && key in v.fields then Some(v.fields[key]) else None
  }

  /** `!!v`: `null`, `false`, 0 and "" are falsy; arrays and objects, even
      empty ones, are truthy. */
  predicate JTruthy(v: Json) {
    match v
    case JNull => false
    case JBool(b) => b
    case JNumber(n) => n != 0
    case JString(s) => s != []
    case JArray(_) => true
    case JObject(_) => true
  }

  /** `!!v.key`, where a missing field reads as `undefined`. */
  predicate PropTruthy(v: Json, key: string) {
    var p := Prop(v, key);
    p.Some? && JTruthy(p.value)
  }

  /** `v.key || d`. */
  function PropOr(v: Json, key: string, d: Json): (r: Json)
    ensures PropTruthy(v, key) ==> r == v.fields[key]
    ensures !PropTruthy(v, key) ==> r == d
  {
    var p := Prop(v, key);
    if p.Some? && JTruthy(p.value) then p.value else d
  }
}
