/**
 * JavaScript values as the server sees them: what `JSON.parse` and the JSON
 * body parser can produce, plus `undefined` for a property that is absent.
 */
module JsValue {

  datatype Option<+T> = None | Some(value: T)

  /** A JSON value, or `undefined`. Numbers are kept as reals. */
  datatype Value =
    | Undefined
    | Null
    | Bool(b: bool)
    | Num(n: real)
    | Str(s: string)
    | Arr(elems: seq<Value>)
    | Obj(fields: map<string, Value>)

  /** JavaScript truthiness: `undefined`, `null`, `false`, `0` and `""` are falsy. */
  predicate Truthy(v: Value) {
    match v
    case Undefined => false
    case Null => false
    case Bool(b) => b
    case Num(n) => n != 0.0
    case Str(s) => s != ""
    case Arr(_) => true
    case Obj(_) => true
  }

  /**
   * `v?.key` for the property names the core reads (`task`, `owner`,
   * `dueDate`, `done`, `items`): an object's own property, and `undefined`
   * for a missing property or for anything that is not an object.
   */
  function Get(v: Value, key: string): Value {
    if v.Obj? && key in v.fields then v.fields[key] else Undefined
  }

  /** `null` for an absent optional string, the string otherwise. */
  function OptionalString(o: Option<string>): Value {
    match o
    case None => Null
    case Some(s) => Str(s)
  }
}
