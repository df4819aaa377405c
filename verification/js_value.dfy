/** JSON-like JavaScript values as they travel between the chat platform,
    the session store and the commerce API, with the two coercions the bot
    applies to them: truthiness and `String(v)`. */
module JsValue {
  import opened JsNumber

  /** A JavaScript value. Numbers are integers (the ids, quantities and
      timestamps the bot handles); `Obj` is a plain object. */
  datatype Value =
    | Undefined
    | Null
    | Bool(b: bool)
    | Num(n: int)
    | Str(s: string)
    | Obj(fields: map<string, Value>)

  /** JavaScript truthiness: `undefined`, `null`, `false`, `0` and `""` are
      falsy. */
  predicate Truthy(v: Value) {
    match v
    case Undefined => false
    case Null => false
    case Bool(b) => b
    case Num(n) => n != 0
    case Str(s) => s != ""
    case Obj(_) => true
  }

  /** `String(v)`, which is also what a template literal `${v}` writes. */
  function ToStr(v: Value): string {
    match v
    case Undefined => "undefined"
    case Null => "null"
    case Bool(b) => if b then "true" else "false"
    case Num(n) => IntToString(n)
    case Str(s) => s
    case Obj(_) => "[object Object]"
  }

  /** `v || fallback` */
  function Or(v: Value, fallback: Value): Value {
    if Truthy(v) then v else fallback
  }

  /** Reading property `k` of a plain object: `undefined` when absent. */
  function Field(o: map<string, Value>, k: string): Value {
    if k in o then o[k] else Undefined
  }
}
