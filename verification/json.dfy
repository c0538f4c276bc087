/** The values `json.loads` produces, and Python truthiness on them. */
module Json {

  /** A decoded JSON document. Objects are maps: key order plays no part in
      anything the model does with them. Floats are modelled as reals. */
  datatype JsonValue =
    | JNull
    | JBool(b: bool)
    | JInt(i: int)
    | JFloat(f: real)
    | JString(s: string)
    | JArray(items: seq<JsonValue>)
    | JObject(fields: map<string, JsonValue>)

  type JsonObject = map<string, JsonValue>

  /** Python's `bool(v)`: None, False, 0, 0.0, "", [] and {} are falsy */
  predicate Truthy(v: JsonValue)
    ensures Truthy(v) <==>
      v !in {JNull, JBool(false), JInt(0), JFloat(0.0), JString(""), JArray([]), JObject(map[])}
  {
    match v
    case JNull => false
    case JBool(b) => b
    case JInt(i) => i != 0
    case JFloat(f) => f != 0.0
    case JString(s) => |s| > 0
    case JArray(a) => |a| > 0
    case JObject(m) => |m| > 0
  }

  /** `isinstance(v, int)`: Python's `bool` is a subclass of `int` */
  predicate IsPyInt(v: JsonValue) {
    v.JInt? || v.JBool?
  }
}
