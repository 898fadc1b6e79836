/** JSON values as the Python services see them after decoding, and Python truthiness. */
module JsonValue {

  /** A decoded JSON number with a fraction or an exponent. Python's json
      module gives a float: a finite one is represented by its value
      truncated toward zero and whether anything was cut off; a literal too
      large for a double (1e400) and the spellings Infinity and -Infinity give
      an infinity, and NaN is accepted too. */
  datatype PyFloat = Finite(whole: int, fractional: bool) | Infinite(negative: bool) | NaN

  /** Objects are key/value maps: the services only look fields up by name. */
  datatype Json =
    | JNull
    | JBool(b: bool)
    | JInt(i: int)
    | JFloat(f: PyFloat)
    | JStr(s: string)
    | JArr(items: seq<Json>)
    | JObj(fields: map<string, Json>)

  /** Python's bool(x) on the decoded value: None, False, 0, 0.0, "", [] and
      {} are false; infinities and NaN are true. */
  predicate Truthy(j: Json)
  {
    match j
    case JNull => false
    case JBool(b) => b
    case JInt(i) => i != 0
    case JFloat(f) => !(f.Finite? && f.whole == 0 && !f.fractional)
    case JStr(s) => |s| > 0
    case JArr(items) => |items| > 0
    case JObj(fields) => |fields| > 0
  }

  /** A one-field object such as {"status": "ok"}. */
  function Field(key: string, value: Json): Json
  {
    JObj(map[key := value])
  }

  function EmptyObject(): Json { JObj(map[]) }
}
