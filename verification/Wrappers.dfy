/** Outcomes shared by the modules: an absent value, and a computation that may throw. */
module Wrappers {

  datatype Option<+T> = None | Some(value: T)

  /** `Thrown` stands for the TypeError or RangeError that the original program would raise. */
  datatype Result<+T> = Thrown | Success(value: T) {
    predicate IsFailure() {
      Thrown?
    }

    function PropagateFailure<U>(): Result<U>
      requires Thrown?
    {
      Thrown
    }

    function Extract(): T
      requires Success?
    {
      value
    }
  }
}
