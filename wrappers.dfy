/** The optional value used for JSON fields that may be null or absent. */
module Wrappers {

  datatype Option<+T> = None | Some(value: T)

  /** The value held by `o`, or `default` when `o` is None (C#'s `??`). */
  function GetOr<T>(o: Option<T>, default: T): T
  {
    match o
    case Some(v) => v
    case None => default
  }
}
