/**
 * Optional values, results and the exceptions the STOMP core raises.
 */
module Wrappers {

  datatype Option<+T> = None | Some(value: T)

  /** The exceptions of autobahn.stomp.exception that the core raises, plus the
      two plain `Exception`s raised by ApplicationSession. */
  datatype Fault =
    | ProtocolError(reason: string)
    | TransportLost
    | SessionNotReady(reason: string)
    | NotAttached               // `Exception("not attached")` in detach
    | TransportDisconnected     // `Exception("transport disconnected")` in disconnect

  datatype Result<+T> = Ok(value: T) | Err(error: Fault) {
    predicate IsFailure() { Err? }
    function PropagateFailure<U>(): Result<U>
      requires Err?
    {
      Err(error)
    }
    function Extract(): T
      requires Ok?
    {
      value
    }
  }

  /** The outcome of an operation that returns nothing or raises. */
  datatype Outcome = Pass | Fail(error: Fault)
}
