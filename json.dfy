/** JSON values as the converter sees them after parsing, and the
    Python exceptions the converter can raise. */
module Json {

  /** A parsed JSON value. Objects are unordered: two Python dicts with the
      same items are equal, and the converter's output is re-serialised with
      sorted keys, so nothing observable depends on their order. Numbers are
      kept only for their truthiness; floating point is not modelled. */
  datatype Json =
    | Null
    | Bool(b: bool)
    | Num(n: int)
    | Str(s: string)
    | Arr(elems: seq<Json>)
    | Obj(fields: map<string, Json>)

  /** The exceptions the modelled Python code raises. */
  datatype Error = KeyError(key: string) | TypeError

  datatype Option<+T> = None | Some(value: T)

  datatype Result<+T> = Ok(value: T) | Err(error: Error)

  /** Python truthiness of a JSON value (`if docs := ...`). */
  predicate Truthy(j: Json)
  {
    match j
    case Null => false
    case Bool(b) => b
    case Num(n) => n != 0
    case Str(s) => s != ""
    case Arr(e) => e != []
    case Obj(f) => f != map[]
  }
}
