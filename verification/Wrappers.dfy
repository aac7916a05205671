/** Failure-compatible result types shared by every module. */
module Wrappers {

  datatype Option<+T> = None | Some(value: T)

  /** The error kinds the modelled code returns (flyby-core `ErrorKind`). */
  datatype ErrorKind = Source | Sink | BackPressure | Decode | Encode | Placement | PreProcess | Config | Lifecycle | Io

  datatype Result<+T> = Ok(value: T) | Err(kind: ErrorKind) {
    predicate IsFailure() {
      Err?
    }

    function PropagateFailure<U>(): Result<U>
      requires Err?
    {
      Err(kind)
    }

    function Extract(): T
      requires Ok?
    {
      value
    }
  }
}
