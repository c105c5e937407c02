/**
 * The opaque JSON payload that flows carry (`a.any()` in the RPC schema, a
 * `json` column in the database), and JavaScript's notion of truthiness that
 * the handlers apply to it with `!params.flow`.
 */
module JsonValues {
  /** A parsed JSON value; a parameter the client left out reaches the handler as `JNull`. */
  datatype Json =
    | JNull
    | JBool(b: bool)
    | JNumber(n: real)
    | JString(s: string)
    | JArray(items: seq<Json>)
    | JObject(members: seq<(string, Json)>)

  /** The JSON values JavaScript treats as false: null, false, 0 and "". */
  const FalsyJson: set<Json> := {JNull, JBool(false), JNumber(0.0), JString("")}

  /** `!v` is false in JavaScript: every JSON value except the four falsy ones. */
  function Truthy(v: Json): (t: bool)
    ensures t <==> v !in FalsyJson
  {
    match v
    case JNull => false
    case JBool(b) => b
    case JNumber(n) => n != 0.0
    case JString(s) => s != ""
    case JArray(_) => true
    case JObject(_) => true
  }
}
