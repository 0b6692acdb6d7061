/** JavaScript values as far as `typeof`, `Array.isArray`, `Object.keys`
    and the `in` operator tell them apart. */
module JsValues {
  import opened Numbers

  datatype JsValue =
    | Undefined
    | Null
    | Bool(b: bool)
    | Num(n: JsNumber)
    | BigInt(i: int)
    | Str(s: string)
    | Symbol
    | Func
    | Arr(items: seq<JsValue>)
      /** Any other object (a plain object, a class instance, a `Map`, a
          boxed primitive): its own enumerable keys, and the further property
          names `in` finds (inherited through the prototype chain, or not
          enumerable). */
    | Obj(keys: set<string>, inherited: set<string>)

  /** The `typeof` operator; `null` and arrays are objects to it. */
  function TypeOf(v: JsValue): string {
    match v
    case Undefined => "undefined"
    case Null => "object"
    case Bool(_) => "boolean"
    case Num(_) => "number"
    case BigInt(_) => "bigint"
    case Str(_) => "string"
    case Symbol => "symbol"
    case Func => "function"
    case Arr(_) => "object"
    case Obj(_, _) => "object"
  }

  /** `Array.isArray`. */
  predicate IsArray(v: JsValue) {
    v.Arr?
  }

  /** `Object.keys` of an object: its own enumerable keys. */
  function ObjectKeys(v: JsValue): set<string>
    requires v.Obj?
  {
    v.keys
  }

  /** `name in v` for an object `v`: own or inherited. */
  predicate HasProperty(v: JsValue, name: string)
    requires v.Obj?
  {
    name in v.keys || name in v.inherited
  }
}
