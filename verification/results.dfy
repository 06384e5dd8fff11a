/** Failure-compatible result types shared by every module of the store model. */
module Results {

  /** The ways an operation of the store can stop early.
      - Panic: a Go runtime panic (index or slice out of range, or an explicit `panic` call);
      - IoError: the page store could not produce the requested page;
      - DepthExceeded: a descent through child pages needed more levels than its fuel. */
  datatype Error = Panic | IoError | DepthExceeded

  /** Either the value an operation computed or the reason it stopped. */
  datatype Result<+T> = Ok(value: T) | Err(error: Error) {

    predicate IsFailure() {
      Err?
    }

    function PropagateFailure<U>(): Result<U>
      requires Err?
    {
      Err(error)
    }

    function Extract(): T
      requires Ok?
    {
      value
    }
  }

  /** A Go pointer that may be nil. */
  datatype Option<+T> = None | Some(value: T)
}
