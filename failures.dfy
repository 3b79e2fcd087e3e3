/** Failure-carrying results shared by the containers: an error the library
    throws is returned as `Err` (or, where the library has already changed
    nodes before the throw, together with the state it leaves). */
module Failures {

  /** The errors the containers raise. */
  datatype Error =
    | DuplicateValue   // a tree `add` of an element that compares equal to a stored one
    | EmptyQueue       // `dequeue` on an empty heap
    | MissingChild     // the TypeError of an AVL rotation that dereferences an absent child

  datatype Result<T> = Ok(value: T) | Err(error: Error)
}
