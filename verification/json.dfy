/** Decoded JSON values, as request bodies arrive and responses leave. */
module Json {

  /** A JSON value; objects are key-to-value maps (key order is not kept). */
  datatype Value =
    | Null
    | Bool(b: bool)
    | Int(i: int)
    | Str(s: string)
    | Array(items: seq<Value>)
    | Object(fields: map<string, Value>)
}
