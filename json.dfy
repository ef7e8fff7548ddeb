/** The decoded JSON-LD payload as the scraper sees it after `json.loads`, and the
    Python operations the scraper applies to it. `JNull` also stands for the `None`
    that `extract_json_ld` returns when the script block is missing or does not decode:
    every caller tests the payload with `if json_ld:`, and both are falsy. */
module Json {
  import opened Text

  datatype Json =
    | JNull
    | JBool(b: bool)
    | JInt(i: int)
    | JFloat(f: real)
    | JStr(s: string)
    | JArr(items: seq<Json>)
    | JObj(fields: map<string, Json>)

  /** Python truthiness of a decoded value. */
  predicate Truthy(j: Json)
  {
    match j
    case JNull => false
    case JBool(b) => b
    case JInt(i) => i != 0
    case JFloat(f) => f != 0.0
    case JStr(s) => s != []
    case JArr(items) => items != []
    case JObj(fields) => fields != map[]
  }

  /** Exactly seven decoded values are falsy: None, False, 0, 0.0, "", [] and {}. */
  lemma FalsyValues(j: Json)
    ensures !Truthy(j) <==>
      j == JNull || j == JBool(false) || j == JInt(0) || j == JFloat(0.0) ||
      j == JStr([]) || j == JArr([]) || j == JObj(map[])
  {
  }

  /** `fields.get(key, default)`. */
  function Get(fields: map<string, Json>, key: string, default: Json): (v: Json)
    ensures key in fields ==> v == fields[key]
    ensures key !in fields ==> v == default
  {
    if key in fields then fields[key] else default
  }

  /** The values on which Python's `key in v` is defined: objects, arrays and strings.
      On numbers, booleans and None it raises TypeError. */
  predicate SupportsIn(j: Json)
  {
    j.JObj? || j.JArr? || j.JStr?
  }

  /** Python's `key in v`: a key of an object, an element of an array, a substring of a string. */
  predicate In(key: string, j: Json)
    requires SupportsIn(j)
  {
    match j
    case JObj(fields) => key in fields
    case JArr(items) => JStr(key) in items
    case JStr(s) => Contains(s, key)
  }

  /** The values that behave as a Python `int`: integers, and booleans (a subclass of int). */
  predicate IsIntLike(j: Json)
  {
    j.JInt? || j.JBool?
  }

  function AsInt(j: Json): int
    requires IsIntLike(j)
  {
    match j
    case JInt(i) => i
    case JBool(b) => if b then 1 else 0
  }
}
