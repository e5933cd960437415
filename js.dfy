/** The JavaScript values that reach the handlers, and the two defaulting
    operators the backend applies to them (`||` and `??`). */
module Js {
  import opened Base

  /** A value read from a parsed JSON body, a query string or a token payload;
      `Undefined` stands for an absent key. Numbers are integers. */
  datatype JsValue =
    | Undefined
    | Null
    | Bool(b: bool)
    | Num(n: int)
    | Str(s: string)
    | Arr(elems: seq<JsValue>)
    | Obj(props: seq<(string, JsValue)>)

  /** JavaScript truthiness: `undefined`, `null`, `false`, `0` and `""` are falsy. */
  predicate Truthy(v: JsValue) {
    match v
    case Undefined => false
    case Null => false
    case Bool(b) => b
    case Num(n) => n != 0
    case Str(s) => s != ""
    case Arr(_) => true
    case Obj(_) => true
  }

  /** `v || null` */
  function OrNull(v: JsValue): JsValue {
    if Truthy(v) then v else Null
  }

  /** `v ?? 0` */
  function OrZero(v: JsValue): JsValue {
    if v.Undefined? || v.Null? then Num(0) else v
  }

  /** A text field of a request: `None` when the key is absent or null. */
  type Text = Option<string>

  /** Truthiness of a text field: present and not the empty string. */
  predicate Filled(t: Text) {
    t.Some? && t.value != ""
  }

  /** `t || fallback` on a text field. */
  function TextOr(t: Text, fallback: string): string {
    if Filled(t) then t.value else fallback
  }

  /** `t || null` on a text field. */
  function TextOrNull(t: Text): Text {
    if Filled(t) then t else None
  }
}
