/** The values `json.load` produces from the cookie file. A number with a fraction or
    an exponent decodes to a float; finite doubles are rationals, so `JFloat` holds
    the exact value as a `real`. `NaN`, `Infinity` and `-Infinity`, which the decoder
    also accepts, are `JNonFinite`. An object is a dictionary from its keys to values
    (a repeated key keeps its last value, which the decoder has already chosen). */
module Json {
  datatype Value =
    | JNull
    | JBool(b: bool)
    | JInt(i: int)
    | JFloat(f: real)
    | JNonFinite
    | JStr(s: string)
    | JArray(items: seq<Value>)
    | JObject(fields: map<string, Value>)
}
