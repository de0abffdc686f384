/** JavaScript values as the statement builders see them: the fields of a
    parsed JSON request body, the fixed values of field descriptors, route
    parameters and the bound parameters of a generated statement. */
module JsValues {

  /** A JavaScript value. `Num` is a finite number, `NaN` the not-a-number
      value; `Obj` stands for any object or array (compared by reference,
      hence the identity). */
  datatype Value =
    | Undefined
    | Null
    | Bool(b: bool)
    | Num(n: real)
    | NaN
    | Str(s: string)
    | Obj(ref: nat)

  /** JavaScript truthiness, the test behind `if (value)` and `!value`:
      undefined, null, false, 0, NaN and "" are falsy, everything else is
      truthy (objects and arrays even when empty). */
  predicate Truthy(v: Value) {
    match v
    case Undefined => false
    case Null => false
    case Bool(b) => b
    case Num(n) => n != 0.0
    case NaN => false
    case Str(s) => s != ""
    case Obj(_) => true
  }

  /** A parsed JSON request body; a key that is absent reads as `undefined`. */
  type Body = map<string, Value>

  /** `body[name]`. */
  function Lookup(body: Body, name: string): Value {
    if name in body then body[name] else Undefined
  }
}
