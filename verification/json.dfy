/** Parsed JSON values, the shape `json.loads` hands back to the transcriber.
    Numbers are kept as integers: the model never looks inside them. */
module Json {

  datatype Value =
    | Null
    | Bool(b: bool)
    | Num(n: int)
    | Str(s: string)
    | Arr(items: seq<Value>)
    | Obj(fields: map<string, Value>)

  /** A parsed JSON object (a Python `dict` with string keys). */
  type Object = map<string, Value>
}
