/** Small helper datatypes shared by the other modules. */
module Wrappers {

  /** Go's "nil or a value": a nil map, a nil slice, a missing entry. */
  datatype Option<+T> = None | Some(value: T)

  /** The error values exported by main.go (ErrNotFound, ErrEmptyKey, ErrEmptySubject). */
  datatype Error = NotFound | EmptyKey | EmptySubject

  /** A (value, error) pair of a Go query: Ok carries the value, Err the error. */
  datatype Result<+T> = Ok(value: T) | Err(error: Error)
}
