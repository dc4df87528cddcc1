/** Small value types shared by every part of the model: optional values,
    results, the JavaScript values a request body can carry, and the
    truthiness rules that the handlers' `||`, `!x` and `x ? a : b` rely on. */
module Common {

  datatype Option<T> = None | Some(value: T)

  datatype Result<T, E> = Ok(value: T) | Err(error: E)

  /** A JSON request-body value, as far as the handlers look at it.
      Numbers are integers here (no NaN, no fractions). */
  datatype JsValue = Undefined | Null | Bool(b: bool) | Num(n: int) | Str(s: string)

  /** JavaScript truthiness (`!!v`). */
  predicate Truthy(v: JsValue)
  {
    match v
    case Undefined => false
    case Null => false
    case Bool(b) => b
    case Num(n) => n != 0
    case Str(s) => s != ""
  }

  /** Truthiness of a string-typed field that may be absent (undefined or null). */
  predicate Present(o: Option<string>)
  {
    o.Some? && o.value != ""
  }

  /** `o || fallback` for a string-typed field. */
  function OrElse(o: Option<string>, fallback: string): string
  {
    if Present(o) then o.value else fallback
  }
}
