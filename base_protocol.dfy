/** The default protocol: a message format, given as a pair of
    functions, composed with the conversions between messages and requests
    or responses. */
module BaseProtocol {
  import opened Wrappers
  import opened Bytes
  import opened Errors
  import opened Separation
  import opened ValueTypes
  import opened Models
  import MessageFormat

  /** The message format the protocol is configured with. */
  datatype Format = Format(parse: bytes -> Result<Message, Error>, marshal: Message -> Result<bytes, Error>)

  /** The scanner's initial buffer, as in package `bufio`. */
  function InitialScannerBufferSize(): (r: nat)
    ensures r == 4096
  {
    4 * 1024
  }

  /** The largest token the scanner accepts, as in package `bufio`. */
  function MaxTokenSize(): (r: nat)
    ensures r == 65536
  {
    64 * 1024
  }

  /** `ParseRequest`: a message the format cannot parse, or one with an
      empty introduction, is an error; otherwise the request's action is
      the introduction and headers and body are the message's. */
  function ParseRequest(format: Format, data: bytes): (r: Result<Request, Error>)
    ensures format.parse(data).Err? ==> r == Err(Wrap(ParseMessage, format.parse(data).error))
    ensures format.parse(data).Ok? ==> (r.Ok? <==> |format.parse(data).value.introduction.ToBytes()| > 0)
    ensures format.parse(data).Ok? && r.Err? ==>
              r.error == Wrap(ConstructRequest, Wrap(ConstructAction, Plain(ActionEmpty)))
    ensures r.Ok? ==> var m := format.parse(data).value;
                      r.value.action.ToBytes() == m.introduction.ToBytes()
                      && r.value.headers == m.headers && r.value.body == m.body
  {
    match format.parse(data)
    case Err(e) => Err(Wrap(ParseMessage, e))
    case Ok(message) =>
      match NewRequestFromMessage(message)
      case Err(e) => Err(Wrap(ConstructRequest, e))
      case Ok(request) => Ok(request)
  }

  /** `ParseResponse`: the same, with the introduction as the status. */
  function ParseResponse(format: Format, data: bytes): (r: Result<Response, Error>)
    ensures format.parse(data).Err? ==> r == Err(Wrap(ParseMessage, format.parse(data).error))
    ensures format.parse(data).Ok? ==> (r.Ok? <==> |format.parse(data).value.introduction.ToBytes()| > 0)
    ensures format.parse(data).Ok? && r.Err? ==>
              r.error == Wrap(ConstructResponse, Wrap(ConstructStatus, Plain(StatusEmpty)))
    ensures r.Ok? ==> var m := format.parse(data).value;
                      r.value.status.ToBytes() == m.introduction.ToBytes()
                      && r.value.headers == m.headers && r.value.body == m.body
  {
    match format.parse(data)
    case Err(e) => Err(Wrap(ParseMessage, e))
    case Ok(message) =>
      match NewResponseFromMessage(message)
      case Err(e) => Err(Wrap(ConstructResponse, e))
      case Ok(response) => Ok(response)
  }

  /** `MarshalRequest`: a request with an empty action fails before the
      format is used; otherwise the format's result for the request's
      message is returned, its bytes unchanged. */
  function MarshalRequest(format: Format, request: Request): (r: Result<bytes, Error>)
    ensures |request.action.ToBytes()| == 0 ==>
              r == Err(Wrap(RequestToMessage, Wrap(ConstructIntroduction, Plain(IntroductionEmpty))))
    ensures |request.action.ToBytes()| > 0 ==>
              var marshalled := format.marshal(RequestMessage(request).value);
              (r.Ok? <==> marshalled.Ok?)
              && (r.Ok? ==> r.value == marshalled.value)
              && (r.Err? ==> r.error == Wrap(MarshalMessage, marshalled.error))
  {
    match RequestMessage(request)
    case Err(e) => Err(Wrap(RequestToMessage, e))
    case Ok(message) =>
      match format.marshal(message)
      case Err(e) => Err(Wrap(MarshalMessage, e))
      case Ok(data) => Ok(data)
  }

  /** `MarshalResponse`: the same, with the status as introduction. */
  function MarshalResponse(format: Format, response: Response): (r: Result<bytes, Error>)
    ensures |response.status.ToBytes()| == 0 ==>
              r == Err(Wrap(ResponseToMessage, Wrap(ConstructIntroduction, Plain(IntroductionEmpty))))
    ensures |response.status.ToBytes()| > 0 ==>
              var marshalled := format.marshal(ResponseMessage(response).value);
              (r.Ok? <==> marshalled.Ok?)
              && (r.Ok? ==> r.value == marshalled.value)
              && (r.Err? ==> r.error == Wrap(MarshalMessage, marshalled.error))
  {
    match ResponseMessage(response)
    case Err(e) => Err(Wrap(ResponseToMessage, e))
    case Ok(message) =>
      match format.marshal(message)
      case Err(e) => Err(Wrap(MarshalMessage, e))
      case Ok(data) => Ok(data)
  }

  /** A format that gives back what it wrote, for the message `m`. */
  predicate RoundTrips(format: Format, m: Message) {
    format.marshal(m).Ok? && format.parse(format.marshal(m).value) == Ok(m)
  }

  /** Whatever the format, a request with a non-empty action and
      normalised headers and body comes back from its marshalled form,
      provided the format gives back the request's message. */
  lemma RequestRoundTrip(format: Format, request: Request)
    requires |request.action.ToBytes()| > 0 && Normalised(request.headers, request.body)
    requires RoundTrips(format, RequestMessage(request).value)
    ensures MarshalRequest(format, request).Ok?
    ensures ParseRequest(format, MarshalRequest(format, request).value) == Ok(request)
  {
    Models.RequestRoundTrip(request);
  }

  /** The same for a response. */
  lemma ResponseRoundTrip(format: Format, response: Response)
    requires |response.status.ToBytes()| > 0 && Normalised(response.headers, response.body)
    requires RoundTrips(format, ResponseMessage(response).value)
    ensures MarshalResponse(format, response).Ok?
    ensures ParseResponse(format, MarshalResponse(format, response).value) == Ok(response)
  {
    Models.ResponseRoundTrip(response);
  }

  /** The separator-based message format with the given separators. */
  ghost function SeparatorFormat(params: SeparationParams): Format {
    Format(data => MessageFormat.Parse(data, params), m => MessageFormat.Marshal(m, params))
  }

  /** With single-byte, distinct, safe separators the separator-based
      format gives back every message whose fields the value types could
      have built. */
  lemma SeparatorFormatRoundTrips(params: SeparationParams, m: Message)
    requires WellFormed(params) && MessageFormat.Marshallable(m)
    ensures RoundTrips(SeparatorFormat(params), m)
  {
    MessageFormat.ParseMarshal(m, params);
  }

  /** End to end over the separator-based format: a request built from
      valid parts is parsed back from the bytes it is marshalled to. */
  lemma SeparatorRequestRoundTrip(params: SeparationParams, request: Request)
    requires WellFormed(params)
    requires |request.action.ToBytes()| > 0 && Normalised(request.headers, request.body)
    requires MessageFormat.Marshallable(RequestMessage(request).value)
    ensures MarshalRequest(SeparatorFormat(params), request).Ok?
    ensures ParseRequest(SeparatorFormat(params), MarshalRequest(SeparatorFormat(params), request).value) == Ok(request)
  {
    SeparatorFormatRoundTrips(params, RequestMessage(request).value);
    RequestRoundTrip(SeparatorFormat(params), request);
  }
}
