/** JavaScript values as the select component sees them, and an option type. */
module Values {

  /** A value held by the form control or the search box: `undefined`, `null` or a string. */
  datatype JsValue = Undefined | Null | Str(s: string)

  /** JavaScript falsiness restricted to the values above: `undefined`, `null` and `""`. */
  predicate Falsy(v: JsValue) {
    v.Undefined? || v.Null? || v == Str("")
  }

  predicate Truthy(v: JsValue) {
    !Falsy(v)
  }

  datatype Option<T> = None | Some(value: T)
}
