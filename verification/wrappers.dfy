/** Value wrappers shared by every module of the forum model. */
module Wrappers {

  /** A `java.util.Optional`: a value that is deliberately present or absent. */
  datatype Option<+T> = None | Some(value: T)

  /** A Java reference that may be `null`. */
  datatype Nullable<+T> = Null | NonNull(value: T)

  /** The outcome of an operation that may throw. */
  datatype Result<+T, +E> = Ok(value: T) | Err(error: E)

  /** `Optional.ofNullable`: `null` becomes an empty Optional, anything else a present one. */
  function OfNullable<T>(x: Nullable<T>): (o: Option<T>)
    ensures o.None? <==> x.Null?
    ensures o.Some? ==> o.value == x.value
  {
    match x
    case Null => None
    case NonNull(v) => Some(v)
  }
}
