/** Result and error types shared by the codecs (crates/uk-proto/src/error.rs). */
module Protocol {
  import opened Bytes

  datatype Option<+T> = None | Some(value: T) {
    function Or(default: T): (v: T)
    {
      match this case Some(value) => value case None => default
    }
  }

  datatype Result<+T, +E> = Ok(value: T) | Err(error: E) {
    predicate IsFailure() { Err? }
    function PropagateFailure<U>(): (r: Result<U, E>)
      requires Err?
    {
      Err(error)
    }
    function Extract(): T
      requires Ok?
    {
      value
    }
  }

  datatype ProtocolError =
    | UnsupportedVersion(version: Byte)
    | UnsupportedFlag(required: U16)
    | OversizedFrame(length: U64, limit: U64)
    | Truncated
    | InvalidVarint
    | InvalidTarget
    | UnknownFrameType(code: Byte)
    | InvalidFrame
    | InvalidSettings
    | InvalidTcpPayload

  /** What a decoder made of its input: a value and how many bytes it took, or an error. */
  datatype Parsed<+T> = Got(value: T, used: nat) | Fail(error: ProtocolError)
}
