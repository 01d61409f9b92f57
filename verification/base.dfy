/** Outcomes of a step and of the parsers it uses. A step either passes or
    fails with one of the failure kinds below; nothing is caught or retried. */
module Base {

  /** Why a step failed. */
  datatype Failure =
    | NoCommandResult    // no command has been run yet, so ctx.cmd_result does not exist
    | MissingRepository  // the repository lookup gave no directory
    | InvalidInteger     // int() refused a piece of text (ValueError)
    | MissingText        // the step has no multi-line text attached
    | NoOutput           // the command printed too little to examine
    | AssertionFailed    // the asserted property does not hold

  /** A value that may be absent (Python's None). */
  datatype Option<T> = None | Some(value: T)

  /** The value of a parser, or the failure it raised. */
  datatype Result<T> = Ok(value: T) | Err(failure: Failure)

  /** The verdict of a step. */
  datatype Outcome = Pass | Fail(failure: Failure)

  /** An assertion: passes when the condition holds. */
  function Check(cond: bool): (o: Outcome)
    ensures o.Pass? <==> cond
    ensures o.Fail? ==> o.failure == AssertionFailed
  {
    if cond then Pass else Fail(AssertionFailed)
  }
}
