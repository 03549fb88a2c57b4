/** The error model shared by every fallible operation of the wrapper (`SocketError`). */
module Errors {
  /** `enum class SocketError`: the closed set of failure tags. */
  datatype SocketError =
    | InvalidSocket
    | BindFailed
    | ConnectFailed
    | SendFailed
    | ReceiveFailed
    | InvalidAddress
    | SocketOptionFailed
    | NotBound
    | AddressParseError
    | TrainOrderParseError

  /** `std::expected<T, SocketError>`: a value or exactly one error tag. */
  datatype Result<T> = Ok(value: T) | Err(error: SocketError)

  /** Every tag, listed once. */
  const AllErrors: set<SocketError> :=
    {InvalidSocket, BindFailed, ConnectFailed, SendFailed, ReceiveFailed,
     InvalidAddress, SocketOptionFailed, NotBound, AddressParseError, TrainOrderParseError}

  /** The enumeration is closed: every tag is one of the ten listed, and they are distinct. */
  lemma ClosedTaxonomy(e: SocketError)
    ensures e in AllErrors
    ensures |AllErrors| == 10
  {
  }

  /**
    `to_string(SocketError)`: the switch names nine tags; `TrainOrderParseError` has no case
    and falls through to the default message.
  */
  function ToString(e: SocketError): (s: string)
    ensures s == "Unknown error" <==> e == TrainOrderParseError
  {
    match e
    case InvalidSocket => "Invalid socket"
    case BindFailed => "Bind operation failed"
    case ConnectFailed => "Connect operation failed"
    case SendFailed => "Send operation failed"
    case ReceiveFailed => "Receive operation failed"
    case InvalidAddress => "Invalid address"
    case SocketOptionFailed => "Socket option operation failed"
    case NotBound => "Socket not bound"
    case AddressParseError => "Address parsing error"
    case _ => "Unknown error"
  }

  /** Distinct tags render differently: the message identifies the tag. */
  lemma MessagesDistinct(e1: SocketError, e2: SocketError)
    ensures ToString(e1) == ToString(e2) <==> e1 == e2
  {
  }
}
