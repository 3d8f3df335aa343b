/** Failure-compatible result types shared by the whole project. */
module Wrappers {

  datatype Option<+T> = None | Some(value: T)

  /** What a fallible operation of the store returns; `:-` propagates an `Err` as Rust's `?` does. */
  datatype Result<+T> = Ok(value: T) | Err(error: string) {
    predicate IsFailure() {
      Err?
    }

    function PropagateFailure<U>(): Result<U> {
      Err(if Err? then error else "")
    }

    function Extract(): T
      requires Ok?
    {
      value
    }
  }
}
