/** Failure-compatible result type shared by the parsers and the evaluator. */
module Wrappers {

  /** `None` stands for a parse failure or for an exception the source would raise. */
  datatype Option<+T> = None | Some(value: T) {

    predicate IsFailure() {
      None?
    }

    function PropagateFailure<U>(): Option<U>
      requires None?
    {
      None
    }

    function Extract(): T
      requires Some?
    {
      value
    }
  }
}
