/** Failure-carrying results used in place of the program's exceptions. */
module Basics {

  datatype Option<T> = None | Some(value: T)

  /** A value or the error an operation raises instead of returning. */
  datatype Result<T, E> = Ok(value: T) | Err(error: E)

  /** An operation that returns nothing on success or raises an error. */
  datatype Outcome<E> = Pass | Fail(error: E)

  /** Regrouping a concatenation, stated over any element type so that it is
      proved without looking inside the elements. */
  lemma ConcatAssoc<T>(x: seq<T>, y: seq<T>, z: seq<T>)
    ensures (x + y) + z == x + (y + z)
  {
  }

  lemma ConcatEmpty<T>(x: seq<T>)
    ensures x + [] == x
  {
  }
}
