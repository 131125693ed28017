/**
  The tree Jackson's `readValue(text, Map.class)` produces, and the Java casts and Number
  conversions the parser applies to it. A JSON `null` and a missing key read back the same:
  `Map.get` returns Java null for both.
*/
module Json {
  import opened Wrappers

  /** A decoded JSON value: objects become maps, arrays lists, numbers Integer/Long/BigInteger or Double. */
  datatype Json =
    | JNull
    | JBool(b: bool)
    | JInt(i: int)          // an integral literal: Integer, Long or BigInteger
    | JFloat(x: real)       // a literal with a fraction or an exponent: Double (rounding ignored)
    | JString(s: string)
    | JArray(items: seq<Json>)
    | JObject(fields: map<string, Json>)

  /** The thrown exceptions of the parse: an undecodable text, or a failed cast naming its field. */
  datatype ParseError =
    | InvalidJson
    | NotAnObject(field: string)
    | WrongType(field: string)

  const INT_MIN: int := -0x8000_0000
  const INT_MAX: int := 0x7fff_ffff

  /** `map.get(key)`, with Java null as JNull. */
  function Get(obj: map<string, Json>, key: string): Json {
    if key in obj then obj[key] else JNull
  }

  predicate IsNumber(j: Json) {
    j.JInt? || j.JFloat?
  }

  /** `(String) v`: null stays null, a string is kept, anything else throws ClassCastException. */
  function AsString(v: Json, field: string): (r: Result<Option<string>, ParseError>)
    ensures r.Ok? <==> v.JNull? || v.JString?
    ensures r == Ok(None) <==> v.JNull?
    ensures v.JString? ==> r == Ok(Some(v.s))
    ensures r.Err? ==> r.error == WrongType(field)
  {
    match v
    case JNull => Ok(None)
    case JString(s) => Ok(Some(s))
    case _ => Err(WrongType(field))
  }

  /** `(List<...>) v`: null stays null, a list is kept, anything else throws. */
  function AsList(v: Json, field: string): (r: Result<Option<seq<Json>>, ParseError>)
    ensures r.Ok? <==> v.JNull? || v.JArray?
    ensures r == Ok(None) <==> v.JNull?
    ensures v.JArray? ==> r == Ok(Some(v.items))
  {
    match v
    case JNull => Ok(None)
    case JArray(items) => Ok(Some(items))
    case _ => Err(WrongType(field))
  }

  /** The low 32 bits of i, read as a two's-complement int: `intValue()` of an Integer, Long or BigInteger. */
  function Wrap32(i: int): (r: int)
    ensures INT_MIN <= r <= INT_MAX
    ensures (r - i) % 0x1_0000_0000 == 0
    ensures INT_MIN <= i <= INT_MAX ==> r == i
  {
    (i - INT_MIN) % 0x1_0000_0000 + INT_MIN
  }

  /** `(int) x` for a double: truncation toward zero, saturated at the int range. */
  function TruncateToInt(x: real): (r: int)
    ensures INT_MIN <= r <= INT_MAX
    ensures x >= (INT_MAX + 1) as real ==> r == INT_MAX
    ensures x <= (INT_MIN - 1) as real ==> r == INT_MIN
    ensures 0.0 <= x < (INT_MAX + 1) as real ==> r as real <= x < (r + 1) as real
    ensures (INT_MIN - 1) as real < x <= 0.0 ==> (r - 1) as real < x <= r as real
  {
    var t := if x >= 0.0 then x.Floor else -((-x).Floor);
    if t < INT_MIN then INT_MIN else if t > INT_MAX then INT_MAX else t
  }

  /** `((Number) v).intValue()` on a non-null number. */
  function IntValue(v: Json): (r: int)
    requires IsNumber(v)
    ensures INT_MIN <= r <= INT_MAX
    ensures v.JInt? && INT_MIN <= v.i <= INT_MAX ==> r == v.i
    ensures v.JInt? ==> r == Wrap32(v.i)
    ensures v.JFloat? ==> r == TruncateToInt(v.x)
  {
    match v
    case JInt(i) => Wrap32(i)
    case JFloat(x) => TruncateToInt(x)
  }

  /**
    `v != null ? ((Number) v).intValue() : null`: null stays null, a number is converted, anything
    else throws.
  */
  function AsLineNumber(v: Json, field: string): (r: Result<Option<int>, ParseError>)
    ensures r.Ok? <==> v.JNull? || IsNumber(v)
    ensures r == Ok(None) <==> v.JNull?
    ensures r.Ok? && r.value.Some? ==> INT_MIN <= r.value.value <= INT_MAX
    ensures IsNumber(v) ==> r == Ok(Some(IntValue(v)))
  {
    if v.JNull? then Ok(None)
    else if IsNumber(v) then Ok(Some(IntValue(v)))
    else Err(WrongType(field))
  }
}
