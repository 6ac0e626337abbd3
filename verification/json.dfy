/** The already-parsed manifest body, and the two Python operations the downloader applies to it. */
module JsonValue {
  import opened Outcomes

  datatype Json =
    | JNull
    | JBool(b: bool)
    | JNum(x: real)
    | JStr(s: string)
    | JArr(items: seq<Json>)
    | JObj(fields: map<string, Json>)

  /** Python truthiness (`if not v`): null, false, zero and empty containers are false. */
  predicate Truthy(v: Json)
    ensures !Truthy(v) <==> v in {JNull, JBool(false), JNum(0.0), JStr([]), JArr([]), JObj(map[])}
  {
    match v
    case JNull => false
    case JBool(b) => b
    case JNum(x) => x != 0.0
    case JStr(s) => s != []
    case JArr(items) => items != []
    case JObj(fields) => fields != map[]
  }

  /** `v.get(key, default)`: only a JSON object has `get`; on anything else Python raises. */
  function Get(v: Json, key: string, default: Json): (r: Result<Json>)
    ensures r.Ok? <==> v.JObj?
    ensures r.Err? ==> r.failure == UnexpectedShape
    ensures v.JObj? && key in v.fields ==> r.value == v.fields[key]
    ensures v.JObj? && key !in v.fields ==> r.value == default
  {
    match v
    case JObj(fields) => Ok(if key in fields then fields[key] else default)
    case _ => Err(UnexpectedShape)
  }
}
