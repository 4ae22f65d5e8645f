/** Failure-carrying results for the places where the Java code throws or
    produces a non-finite float instead of a value. */
module Results {

  /** The ways an operation on a cell can go wrong. */
  datatype Fault =
    | IndexOutOfBounds  // an array index outside a row of the move list
    | DivisionByZero    // `%` by the length of an empty direction row
    | NotFinite         // a float division by a zero total (NaN or infinity)
    | IllegalArgument   // `Random.nextInt` asked for a non-positive bound

  /** An optional value: the child a division produced, if any. */
  datatype Option<+T> = None | Some(value: T)

  /** Either a value or the fault that replaced it; usable with `:-`. */
  datatype Result<+T> = Ok(value: T) | Err(fault: Fault) {

    predicate IsFailure() {
      Err?
    }

    function PropagateFailure<U>(): Result<U>
      requires Err?
    {
      Err(fault)
    }

    function Extract(): T
      requires Ok?
    {
      value
    }
  }
}
