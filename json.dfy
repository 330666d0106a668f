/** The part of a JSON value (serde_json's `Value`) that the token parsers look
    at, and the accessors they use on it: `as_object`, `as_str`, `as_i64` and
    `get` on an object. */
module Json {
  import opened Wrappers

  const I64_MIN: int := -0x8000_0000_0000_0000
  const I64_MAX: int := 0x7FFF_FFFF_FFFF_FFFF
  const U64_MAX: int := 0xFFFF_FFFF_FFFF_FFFF

  /** A signed 64-bit integer, the type `as_i64` returns. */
  type I64 = i: int | I64_MIN <= i <= I64_MAX

  /** A JSON value. An integer literal of any size is a `JInt`; every other
      number (a fraction or an exponent) is a `JFloat`, whose value the
      parsers never read. */
  datatype Json =
    | JNull
    | JBool(b: bool)
    | JInt(i: int)
    | JFloat
    | JStr(s: string)
    | JArr(items: seq<Json>)
    | JObj(fields: map<string, Json>)

  type Object = map<string, Json>

  /** `Value::as_object`. */
  function AsObject(v: Json): (r: Option<Object>)
    ensures r.Some? <==> v.JObj?
    ensures r.Some? ==> r.value == v.fields
  {
    match v
    case JObj(fields) => Some(fields)
    case _ => None
  }

  /** `Value::as_str`. */
  function AsStr(v: Json): (r: Option<string>)
    ensures r.Some? <==> v.JStr?
    ensures r.Some? ==> r.value == v.s
  {
    match v
    case JStr(s) => Some(s)
    case _ => None
  }

  /** `Value::as_i64`: only an integer that fits in 64 signed bits. */
  function AsI64(v: Json): (r: Option<I64>)
    ensures r.Some? <==> v.JInt? && I64_MIN <= v.i <= I64_MAX
    ensures r.Some? ==> r.value == v.i
  {
    match v
    case JInt(i) => if I64_MIN <= i <= I64_MAX then Some(i) else None
    case _ => None
  }

  /** `Map::get` on the fields of an object. */
  function Get(obj: Object, key: string): (r: Option<Json>)
    ensures r.Some? <==> key in obj
    ensures r.Some? ==> r.value == obj[key]
  {
    if key in obj then Some(obj[key]) else None
  }

  /** `obj.get(key).and_then(Value::as_str)`. */
  function GetStr(obj: Object, key: string): (r: Option<string>)
    ensures r.Some? <==> HasStr(obj, key)
    ensures r.Some? ==> r.value == obj[key].s
  {
    match Get(obj, key)
    case Some(v) => AsStr(v)
    case None => None
  }

  /** `obj.get(key).and_then(Value::as_i64)`. */
  function GetI64(obj: Object, key: string): (r: Option<I64>)
    ensures r.Some? <==> HasI64(obj, key)
    ensures r.Some? ==> r.value == obj[key].i
  {
    match Get(obj, key)
    case Some(v) => AsI64(v)
    case None => None
  }

  /** The field is present and holds a string. */
  predicate HasStr(obj: Object, key: string) {
    key in obj && obj[key].JStr?
  }

  /** The field is present and holds an integer in the 64-bit signed range. */
  predicate HasI64(obj: Object, key: string) {
    key in obj && obj[key].JInt? && I64_MIN <= obj[key].i <= I64_MAX
  }
}
