/** Failure-compatible wrappers used by every other module: `Option` for the
    source's `undefined`/`null` returns and `Result` for the operations that
    throw. */
module Wrappers {

  datatype Option<+T> = None | Some(value: T)

  /** `Err` stands for a thrown `Error`; `error` carries its message kind. */
  datatype Result<+R, +E> = Ok(value: R) | Err(error: E)

  /** `o ?? d`. */
  function GetOr<T>(o: Option<T>, d: T): (r: T)
    ensures o.Some? ==> r == o.value
    ensures o.None? ==> r == d
  {
    match o
    case Some(v) => v
    case None => d
  }
}
