/** An already-decoded JSON document, as `json.loads` hands it back. */
module Json {

  datatype Value =
    | Null
    | Bool(b: bool)
    | Number(n: int)
    | Str(s: string)
    | Array(items: seq<Value>)
    | Object(fields: map<string, Value>)

  /** Python truthiness of the decoded value: `None`, `False`, zero and the
      empty string, list and dict are falsy. */
  predicate Truthy(v: Value) {
    match v
    case Null => false
    case Bool(b) => b
    case Number(n) => n != 0
    case Str(s) => s != ""
    case Array(xs) => xs != []
    case Object(m) => m != map[]
  }
}
