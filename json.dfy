/**
 * The JavaScript values the engine receives as topic data: whatever a JSON
 * document or a literal object can hold. Numbers are exact reals (no NaN, no
 * rounding); objects are maps from key to value, since only membership and
 * lookup matter to the engine.
 */
module Json {
  datatype Value =
    | Undefined
    | Null
    | Boolean(b: bool)
    | Number(n: real)
    | Str(s: string)
    | Arr(items: seq<Value>)
    | Object(fields: map<string, Value>)

  /** The string JavaScript's `typeof` operator yields for `v`. */
  function TypeOf(v: Value): (t: string)
    ensures t == "object" <==> v.Null? || v.Arr? || v.Object?
  {
    match v
    case Undefined => "undefined"
    case Boolean(_) => "boolean"
    case Number(_) => "number"
    case Str(_) => "string"
    case Null => "object"
    case Arr(_) => "object"
    case Object(_) => "object"
  }

  /**
   * `v.hasOwnProperty(...)` can be called. On null and undefined JavaScript
   * throws a TypeError; so it does on an object with an own key named
   * `hasOwnProperty`, since that value, which JSON cannot make a function,
   * hides the inherited method.
   */
  predicate HasOwnCallable(v: Value)
  {
    !v.Null? && !v.Undefined? && !(v.Object? && "hasOwnProperty" in v.fields)
  }

  /**
   * `v.hasOwnProperty(key)` for a value on which it can be called (see
   * `HasOwnCallable`; callers model the TypeError separately).
   */
  predicate HasOwn(v: Value, key: string)
  {
    v.Object? && key in v.fields
  }

  /** `v[key]`: the property's value or `undefined`. */
  function Get(v: Value, key: string): Value
  {
    if HasOwn(v, key) then v.fields[key] else Undefined
  }

  /** JavaScript truthiness; `!v` is `!Truthy(v)`. */
  predicate Truthy(v: Value)
  {
    match v
    case Undefined => false
    case Null => false
    case Boolean(b) => b
    case Number(n) => n != 0.0
    case Str(s) => s != ""
    case Arr(_) => true
    case Object(_) => true
  }
}
