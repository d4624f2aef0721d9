/** The slice of the JavaScript value model that the sort entry points look
    at: JS values crossing the wasm-bindgen boundary, the IEEE doubles they
    carry, and the outcome of calling a JS function. */
module JsValues {

  type byte = bv8

  datatype Option<T> = None | Some(value: T)

  /** Rust's `Result<T, E>`. */
  datatype Result<T, E> = Ok(value: T) | Err(error: E)

  /** An IEEE 754 double as far as ordering is concerned.  Negative zero and
      positive zero are both `Finite(0.0)`: they compare equal. */
  datatype F64 = Finite(value: real) | PosInfinity | NegInfinity | NaN

  /** IEEE 754 `<`: false whenever either side is NaN. */
  predicate F64Less(a: F64, b: F64) {
    match (a, b)
    case (NaN, _) => false
    case (_, NaN) => false
    case (Finite(x), Finite(y)) => x < y
    case (NegInfinity, _) => b != NegInfinity
    case (_, PosInfinity) => a != PosInfinity
    case (_, _) => false
  }

  const Zero: F64 := Finite(0.0)

  /** The JavaScript value kinds.  Strings carry the UTF-8 bytes that
      wasm-bindgen copies into Rust; objects, arrays, functions, symbols and
      BigInts are all `JsObject`, none of which is a number or a string. */
  datatype JsValue =
    | JsUndefined
    | JsNull
    | JsBool(b: bool)
    | JsNumber(num: F64)
    | JsString(utf8: seq<byte>)
    | JsObject(handle: nat)

  /** `JsValue::as_f64`: the number, when the value is a JS number. */
  function AsF64(v: JsValue): (r: Option<F64>)
    ensures r.Some? <==> v.JsNumber?
    ensures r.Some? ==> r.value == v.num
  {
    if v.JsNumber? then Some(v.num) else None
  }

  /** `JsValue::as_string`: the string, when the value is a JS string. */
  function AsString(v: JsValue): (r: Option<seq<byte>>)
    ensures r.Some? <==> v.JsString?
    ensures r.Some? ==> r.value == v.utf8
  {
    if v.JsString? then Some(v.utf8) else None
  }

  /** The outcome of `Function::call2`: a returned value or a thrown one. */
  datatype CallOutcome = Returned(value: JsValue) | Threw(exception: JsValue)
}
