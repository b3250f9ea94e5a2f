/**
 * An optional value that `:-` can unwrap: `None` stops the enclosing
 * computation, which then yields `None` itself.
 */
module Wrappers {

  datatype Option<+T> = None | Some(value: T) {

    /** `None` is the failure `:-` propagates. */
    predicate IsFailure() {
      None?
    }

    /** The failure, retyped for the enclosing computation. */
    function PropagateFailure<U>(): Option<U>
      requires None?
    {
      None
    }

    /** The value `:-` binds on success. */
    function Extract(): T
      requires Some?
    {
      value
    }
  }
}
