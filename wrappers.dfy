/** The optional-value type used for every read that can fail and for every section that
    can be absent (the source's `null` and its caught exceptions). It is failure-compatible,
    so a method returning an `Option` can propagate a failed read with `:-`. */
module Wrappers {

  datatype Option<+T> = None | Some(value: T) {

    predicate IsFailure() {
      None?
    }

    function PropagateFailure<U>(): Option<U>
      requires None?
    {
      None
    }

    function Extract(): T
      requires Some?
    {
      value
    }
  }
}
