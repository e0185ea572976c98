/** Failure-compatible wrappers shared by the message model: an optional
    value (an absent option of the constructor) and the outcome of an
    operation that either returns a value or raises a MessageError. */
module Results {

  /** The six ways a message operation can fail, each carrying the offending
      input rather than a formatted message string. */
  datatype MessageError =
    | EmptyHeaderValue
    | InvalidBodyType(typeName: string)
    | InvalidHeaderName(name: string)
    | InvalidHeaderValue(value: string)
    | InvalidHeaderValueType(typeName: string)
    | InvalidProtocolVersion(version: string)

  datatype Option<+T> = None | Some(value: T) {

    /** The value if present, otherwise the default (PHP's `??=`). */
    function GetOr(default: T): T
    {
      match this
      case Some(v) => v
      case None => default
    }
  }

  /** Either the value an operation returns, or the error it raises. */
  datatype Result<+T> = Ok(value: T) | Err(error: MessageError) {

    predicate IsFailure()
    {
      Err?
    }

    function PropagateFailure<U>(): Result<U>
      requires Err?
    {
      Err(error)
    }

    function Extract(): T
      requires Ok?
    {
      value
    }
  }
}
