/** JSON values, with the value forms of section 3 of RFC 8259: null, the two literals,
    numbers (kept as a decimal mantissa and exponent, mantissa * 10^exponent), strings,
    arrays and objects (members kept in document order). */
module Json {

  datatype Json =
    | JNull
    | JBool(b: bool)
    | JNumber(mantissa: int, exponent: int)
    | JString(s: string)
    | JArray(items: seq<Json>)
    | JObject(members: seq<(string, Json)>)
}
