/** Failure-carrying datatypes shared by the whole model.

    The allocator has two kinds of failure: an out-of-memory answer from the
    operating system, which callers can inspect, and a panic (a failed
    `assert!`, an `unwrap` of an error, or a dereference of a null or
    dangling pointer), which ends the process.  Both are values here. */
module Wrappers {

  datatype Option<+T> = None | Some(value: T)

  /** Why an operation did not produce a value. */
  datatype Failure =
    | OutOfMemory          // the OS did not move the boundary where asked
    | Panic(why: string)   // the process aborts

  datatype Result<+T> = Ok(value: T) | Err(failure: Failure) {
    predicate IsPanic() {
      Err? && failure.Panic?
    }
  }
}
