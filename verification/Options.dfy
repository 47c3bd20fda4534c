/** Shared result types. */
module Options {

  datatype Option<+T> = None | Some(value: T)

  datatype Result<+T, +E> = Ok(value: T) | Err(error: E)

  /** Whether the process is still there after a durable step; a crash ends every caller. */
  datatype Status = Alive | Crashed {
    predicate IsFailure() { Crashed? }
    function PropagateFailure(): Status
      requires IsFailure()
    {
      Crashed
    }
  }
}
