/** Errors as values. Go's `errors.New`, `fmt.Errorf` with `%w` and
    `errors.Join` build a chain; only the sentinel that asks a connection
    to stop is ever looked for in it (`errors.Is`). */
module Errors {
  import opened Wrappers

  /** What went wrong, one variant per distinct error site. */
  datatype Kind =
    // escaping
    | NotEnoughBytes | InvalidEscape
    // the three-part grammar and the value types
    | InvalidPartCount(count: nat) | IntroductionEmpty | NoKeyValueSeparator(header: nat)
    | HeaderKeyEmpty | HeaderValueEmpty | InvalidHeaderKey
    | UnescapeIntroduction | UnescapeHeaderKey | UnescapeHeaderValue | UnescapeBody
    | ConstructIntroduction | ConstructHeaderKey | ConstructHeaderValue
    | HeaderKeyToBytes | BuildMessage
    | ActionEmpty | StatusEmpty | ConstructAction | ConstructStatus
    | IntroductionRequired | ActionRequired | StatusRequired
    // protocol glue
    | ParseMessage | MarshalMessage | ConstructRequest | ConstructResponse
    | RequestToMessage | ResponseToMessage
    // connection handling and the client
    | ContextDone | ContextCanceled | SetReadDeadline | ReadRequest | NoMoreTokens | ParseRequest
    | HandleRequest | MarshalResponse | SetWriteDeadline | WriteResponse
    | StopRequested | HandleConnection
    | MarshalRequest | WriteRequest | ReadResponse | ParseResponse | CloseConnection
    // routing
    | ExtractRoute | NotFoundHandlerMissing

  datatype Error =
    /** `ErrHandlingStopIsRequired`. */
    | StopRequired
    /** An error of the given kind, wrapping `cause` when there is one. */
    | Failure(kind: Kind, cause: Option<Error>)
    /** `errors.Join` of two errors. */
    | Joined(first: Error, second: Error)
    /** An error produced outside the model (the network, a user handler),
        told apart only by an identifier. */
    | External(id: nat)

  /** `errors.Is(e, ErrHandlingStopIsRequired)`: the sentinel is somewhere in
      the chain of wrapped and joined errors. */
  predicate IsStop(e: Error) {
    match e
    case StopRequired => true
    case Failure(_, cause) => cause.Some? && IsStop(cause.value)
    case Joined(a, b) => IsStop(a) || IsStop(b)
    case External(_) => false
  }

  /** An error of kind `k` wrapping `e` (`fmt.Errorf("...: %w", e)`). */
  function Wrap(k: Kind, e: Error): (r: Error)
    ensures IsStop(r) <==> IsStop(e)
  {
    Failure(k, Some(e))
  }

  /** An error of kind `k` that wraps nothing. */
  function Plain(k: Kind): (r: Error)
    ensures !IsStop(r)
  {
    Failure(k, None)
  }
}
