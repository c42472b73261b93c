/** Outcomes of fallible operations. A Rust panic is an outcome too: the operation has no
    successful result, and no claim is made about how the process goes on. */
module Results {
  datatype Error =
    | UnalignedAccess
    | InvalidPageAddress
    | GindexTooDeep
    | TraversedTooDeep
    | DifferentMemoryAccess
    | JumpInDelaySlot
    | BranchInDelaySlot
    | InvalidRegister
    | InvalidFunction
    | InvalidOpcode
    | OracleFailure
    | HintFailure
    | WriteZero
    | ReadFailure
    | DuplicatePage
    | InvalidSegment
    | Panic

  datatype Result<+T> = Ok(value: T) | Err(error: Error) {
    predicate IsFailure() { Err? }

    function PropagateFailure<U>(): Result<U>
      requires Err?
    {
      Err(error)
    }

    function Extract(): T
      requires Ok?
    {
      value
    }
  }

  /** Both succeed, or both fail with the same error. */
  predicate SameOutcome<T, U>(a: Result<T>, b: Result<U>) {
    (a.Ok? <==> b.Ok?) && (a.Err? ==> a.error == b.error)
  }
}
