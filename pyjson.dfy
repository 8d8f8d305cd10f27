/**
 * Decoded JSON values as Python's `json` module returns them, with the two
 * Python behaviours the sign-in check depends on: truthiness (`if x`) and
 * equality with an integer literal (`x == 1`), under which `True == 1` and
 * `1.0 == 1` hold.
 */
module PyJson {

  /** A decoded JSON value. Integers without a fraction or exponent decode
      to `int`, other numbers to `float`, here kept as exact reals. */
  datatype Json =
    | JNull
    | JBool(b: bool)
    | JInt(i: int)
    | JFloat(r: real)
    | JString(s: string)
    | JArray(items: seq<Json>)
    | JObject(fields: map<string, Json>)

  /** Python truth value: `None`, `False`, zero, and empty strings,
      lists and dicts are false; everything else is true. */
  predicate Truthy(v: Json)
  {
    match v
    case JNull => false
    case JBool(b) => b
    case JInt(i) => i != 0
    case JFloat(r) => r != 0.0
    case JString(s) => s != ""
    case JArray(items) => items != []
    case JObject(fields) => fields != map[]
  }

  /** Python `v == n` for an integer literal `n`: booleans compare as 0 and 1,
      floats by value, and no other kind of value equals an integer. */
  predicate EqualsInt(v: Json, n: int)
  {
    match v
    case JBool(b) => (if b then 1 else 0) == n
    case JInt(i) => i == n
    case JFloat(r) => r == n as real
    case _ => false
  }

  /** `d.get(key)` on a decoded JSON object: a missing key reads as `None`,
      which is the same Python value as a JSON `null`. */
  function Get(fields: map<string, Json>, key: string): Json
  {
    if key in fields then fields[key] else JNull
  }
}
