/** The values `JSON.parse` produces, and the two JavaScript tests the
    unwrapper applies to them: truthiness and `typeof v === 'object'`. */
module JsonValue {

  /** A parsed JSON document. Object members are keyed by name; when a text
      repeats a key, `JSON.parse` keeps the last value, so a map loses nothing
      the program can observe. */
  datatype Json =
    | JNull
    | JBool(b: bool)
    | JNumber(n: real)
    | JString(s: string)
    | JArray(items: seq<Json>)
    | JObject(members: map<string, Json>)

  /** JavaScript truthiness: `null`, `false`, `0` and `""` are falsy. */
  predicate Truthy(v: Json) {
    match v
    case JNull => false
    case JBool(b) => b
    case JNumber(n) => n != 0.0
    case JString(s) => s != []
    case _ => true
  }

  /** `typeof v === 'object'`, which holds for `null` and arrays too. */
  predicate IsObjectLike(v: Json) {
    v.JNull? || v.JArray? || v.JObject?
  }
}
