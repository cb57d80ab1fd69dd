/** Failure-compatible optional values, used for the partial decoders of the model. */
module Wrappers {

  /** A value that may be absent: JavaScript's `undefined` for an optional field,
      or the failure of a decoder. */
  datatype Option<+T> = None | Some(value: T) {

    /** The carried value, or `default` when there is none. */
    function GetOr(default: T): T {
      match this
      case Some(v) => v
      case None => default
    }

    predicate IsFailure() {
      None?
    }

    function PropagateFailure<U>(): Option<U>
      requires None?
    {
      None
    }

    function Extract(): T
      requires Some?
    {
      value
    }
  }
}
