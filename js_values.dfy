/**
 * The few JavaScript values and operators the site scripts rely on:
 * an optional value, a dynamically typed value, truthiness and `||`.
 */
module JsValues {

  datatype Option<T> = None | Some(value: T)

  /** A JavaScript value, as far as the modelled scripts look into one. */
  datatype JsValue =
    | Undefined
    | Null
    | Bool(b: bool)
    | Num(n: real)
    | NaN
    | Str(s: string)
    | Object

  /** ToBoolean (section 7.1.2 of ECMA-262): the falsy values are
      undefined, null, false, 0, NaN and the empty string. */
  predicate Truthy(v: JsValue) {
    match v
    case Undefined => false
    case Null => false
    case Bool(b) => b
    case Num(n) => n != 0.0
    case NaN => false
    case Str(s) => s != ""
    case Object => true
  }

  /** `a || b`: the left operand when it is truthy, the right one otherwise. */
  function Or(a: JsValue, b: JsValue): JsValue {
    if Truthy(a) then a else b
  }

  /** Property access `obj.key` on a plain object: undefined when absent. */
  function Get(obj: map<string, JsValue>, key: string): JsValue {
    if key in obj then obj[key] else Undefined
  }
}
