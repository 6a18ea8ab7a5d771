/** Option and Result, the two failure-carrying types the modelled Rust code returns. */
module Wrappers {

  datatype Option<+T> = None | Some(value: T)

  datatype Result<+T, +E> = Ok(value: T) | Err(error: E)

  /** `Option::ok`-style conversion: drops the error. */
  function ToOption<T, E>(r: Result<T, E>): (o: Option<T>)
    ensures o.Some? <==> r.Ok?
    ensures o.Some? ==> o.value == r.value
  {
    match r
    case Ok(v) => Some(v)
    case Err(_) => None
  }
}
