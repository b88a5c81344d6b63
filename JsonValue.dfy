/** The values `json.loads` produces and `json.dumps` consumes. Decoding and
    encoding themselves are not modelled: a decode outcome is a given
    `Option<Json>` (`None` for a `JSONDecodeError`), an encoder or decoder a
    function parameter. */
module JsonValue {
  import opened Wrappers

  /** A JSON value; numbers are restricted to integers. */
  datatype Json =
    | JNull
    | JBool(b: bool)
    | JNumber(n: int)
    | JString(s: string)
    | JArray(items: seq<Json>)
    | JObject(fields: map<string, Json>)

  /** The empty object `{}`. */
  const EmptyObject: Json := JObject(map[])

  /** An encoder and a decoder that invert each other: decoding what was
      encoded gives back the value (the round trip `json.loads(json.dumps(x)) == x`). */
  ghost predicate RoundTrips(encode: Json -> string, decode: string -> Option<Json>)
  {
    forall j :: decode(encode(j)) == Some(j)
  }
}
