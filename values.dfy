/** JavaScript values as JSON.parse produces them and as the route handlers inspect them. */
module JsValues {

  datatype Option<+T> = None | Some(value: T)

  /** A JSON value. Numbers are unbounded integers; objects are maps from keys to values. */
  datatype Value =
    | Null
    | Bool(b: bool)
    | Num(n: int)
    | Str(s: string)
    | Arr(elems: seq<Value>)
    | Obj(fields: map<string, Value>)

  /** ECMAScript ToBoolean: the test behind the `b && …` guards. */
  predicate Truthy(v: Value) {
    match v
    case Null => false
    case Bool(b) => b
    case Num(n) => n != 0
    case Str(s) => s != ""
    case Arr(_) => true
    case Obj(_) => true
  }

  /** The property read `v.key` for a key no prototype defines; None is `undefined`. */
  function Get(v: Value, key: string): Option<Value> {
    if v.Obj? && key in v.fields then Some(v.fields[key]) else None
  }

  /** `v.key` when `typeof v.key === 'string'`. */
  function StringField(v: Value, key: string): Option<string> {
    match Get(v, key)
    case Some(Str(s)) => Some(s)
    case _ => None
  }

  /** `v.key` when `typeof v.key === 'boolean'`. */
  function BooleanField(v: Value, key: string): Option<bool> {
    match Get(v, key)
    case Some(Bool(b)) => Some(b)
    case _ => None
  }

  /** `v.key` when `typeof v.key === 'number'`. */
  function NumberField(v: Value, key: string): Option<int> {
    match Get(v, key)
    case Some(Num(n)) => Some(n)
    case _ => None
  }
}
