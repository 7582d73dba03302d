/** The JSON-shaped values that flow between the vision model, the
    translator and the serializers (Python `dict`, `list`, `str`, `int`, `None`). */
module Json {

  datatype Value =
    | Null
    | Bool(b: bool)
    | Num(n: int)
    | Str(s: string)
    | Arr(items: seq<Value>)
    | Obj(fields: map<string, Value>)
}
