/** The JavaScript values the adapters of 4/1 and 4/3 accept, and the two
    coercions they apply, kept abstract: `Number(v)` is a function that yields
    `None` exactly when the result is not finite (NaN or an infinity), and
    `String(v)` is any function to strings. */
module JsValues {
  import opened Wrappers

  datatype JsValue =
    | Undefined
    | Null
    | Bool(b: bool)
    | Num(n: real)
    | Str(s: string)
    | Array(items: seq<JsValue>)
    | Object(fields: map<string, JsValue>)

  /** `Number(v)` followed by `Number.isFinite`. */
  type ToNumber = JsValue -> Option<real>

  /** `String(v)`. */
  type ToStr = JsValue -> string
}
