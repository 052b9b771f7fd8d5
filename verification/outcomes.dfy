/** The error kinds the pool raises, and the result type its operations return. */
module Outcomes {

  /** One constructor per exception kind the pool can raise; causes and messages are not modelled. */
  datatype PoolError =
    | InvalidCapacity   // IllegalArgumentException from the bounded queue when maxSize <= 0
    | CreationFailed    // ObjectCreationException: create failed or yielded null
    | BorrowTimedOut    // ObjectBorrowException after the timed poll found nothing
    | ValidationFailed  // ObjectValidationException raised by validate during a return
    | ClosureFailed     // PoolClosureException: at least one destroy failed during close

  datatype Result<+T> = Ok(value: T) | Err(error: PoolError)
}
