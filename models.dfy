/** The default protocol's message, request and response records, the
    builders that assemble them, and the conversions between a message and
    a request or a response. */
module Models {
  import opened Wrappers
  import opened Bytes
  import opened Errors
  import opened ValueTypes

  /** A message: the introduction line, then optional headers and body. */
  datatype Message = Message(introduction: Introduction, headers: Option<Headers>, body: Option<bytes>)

  /** The headers a built record keeps: present and non-empty, or absent. */
  function PresentHeaders(headers: Option<Headers>): (r: Option<Headers>)
    ensures r.Some? <==> headers.Some? && |headers.value| > 0
    ensures r.Some? ==> r == headers
  {
    if headers.Some? && |headers.value| == 0 then None else headers
  }

  /** The body a built record keeps: present and non-empty, or absent. */
  function PresentBody(body: Option<bytes>): (r: Option<bytes>)
    ensures r.Some? <==> body.Some? && |body.value| > 0
    ensures r.Some? ==> r == body
  {
    if body.Some? && |body.value| == 0 then None else body
  }

  /** Headers and body as a builder leaves them: each absent or non-empty. */
  predicate Normalised(headers: Option<Headers>, body: Option<bytes>) {
    (headers.None? || |headers.value| > 0) && (body.None? || |body.value| > 0)
  }

  /** What `MessageBuilder.Build` yields for the given builder fields. */
  function BuiltMessage(introduction: Option<Introduction>, headers: Option<Headers>, body: Option<bytes>): (r: Result<Message, Error>)
    ensures r.Err? <==> introduction.None?
    ensures r.Err? ==> r.error == Plain(IntroductionRequired)
    ensures r.Ok? ==> r.value.introduction == introduction.value
    ensures r.Ok? ==> Normalised(r.value.headers, r.value.body)
    ensures r.Ok? && headers.Some? && |headers.value| > 0 ==> r.value.headers == headers
    ensures r.Ok? && body.Some? && |body.value| > 0 ==> r.value.body == body
    ensures r.Ok? && (headers.None? || |headers.value| == 0) ==> r.value.headers.None?
    ensures r.Ok? && (body.None? || |body.value| == 0) ==> r.value.body.None?
  {
    if introduction.None? then Err(Plain(IntroductionRequired))
    else Ok(Message(introduction.value, PresentHeaders(headers), PresentBody(body)))
  }

  class MessageBuilder {
    var introduction: Option<Introduction>
    var headers: Option<Headers>
    var body: Option<bytes>

    /** `NewMessageBuilder`: nothing is set. */
    constructor ()
      ensures introduction.None? && headers.None? && body.None?
    {
      introduction := None;
      headers := None;
      body := None;
    }

    method SetIntroduction(value: Introduction) returns (self: MessageBuilder)
      modifies this
      ensures introduction == Some(value) && headers == old(headers) && body == old(body)
      ensures self == this
    {
      introduction := Some(value);
      self := this;
    }

    method SetHeaders(value: Headers) returns (self: MessageBuilder)
      modifies this
      ensures headers == Some(value) && introduction == old(introduction) && body == old(body)
      ensures self == this
    {
      headers := Some(value);
      self := this;
    }

    method SetBody(value: bytes) returns (self: MessageBuilder)
      modifies this
      ensures body == Some(value) && introduction == old(introduction) && headers == old(headers)
      ensures self == this
    {
      body := Some(value);
      self := this;
    }

    /** Builds from a copy of the fields (a value receiver), so the builder
        itself is left as it was. */
    method Build() returns (r: Result<Message, Error>)
      ensures r == BuiltMessage(introduction, headers, body)
    {
      var errs: seq<Error> := [];
      if introduction.None? {
        errs := errs + [Plain(IntroductionRequired)];
      }
      var headers := this.headers;
      if headers.Some? && |headers.value| == 0 {
        headers := None;
      }
      var body := this.body;
      if body.Some? && |body.value| == 0 {
        body := None;
      }
      if |errs| > 0 {
        return Err(errs[0]);
      }
      return Ok(Message(introduction.value, headers, body));
    }
  }

  datatype Request = Request(action: Action, headers: Option<Headers>, body: Option<bytes>) {
    /** Converts to a message whose introduction is the action, setting
        headers and body on a fresh builder only when present. */
    method ToMessage() returns (r: Result<Message, Error>)
      ensures r == RequestMessage(this)
    {
      var introduction := NewIntroduction(action.ToBytes());
      if introduction.Err? {
        return Err(Wrap(ConstructIntroduction, introduction.error));
      }
      var builder := new MessageBuilder();
      var _ := builder.SetIntroduction(introduction.value);
      if headers.Some? {
        var _ := builder.SetHeaders(headers.value);
      }
      if body.Some? {
        var _ := builder.SetBody(body.value);
      }
      var message := builder.Build();
      r := match message
        case Ok(m) => Ok(m)
        case Err(e) => Err(Wrap(BuildMessage, e));
    }
  }

  datatype Response = Response(status: Status, headers: Option<Headers>, body: Option<bytes>) {
    /** Converts to a message whose introduction is the status, setting
        headers and body on a fresh builder only when present. */
    method ToMessage() returns (r: Result<Message, Error>)
      ensures r == ResponseMessage(this)
    {
      var introduction := NewIntroduction(status.ToBytes());
      if introduction.Err? {
        return Err(Wrap(ConstructIntroduction, introduction.error));
      }
      var builder := new MessageBuilder();
      var _ := builder.SetIntroduction(introduction.value);
      if headers.Some? {
        var _ := builder.SetHeaders(headers.value);
      }
      if body.Some? {
        var _ := builder.SetBody(body.value);
      }
      var message := builder.Build();
      r := match message
        case Ok(m) => Ok(m)
        case Err(e) => Err(Wrap(BuildMessage, e));
    }
  }

  /** What `RequestBuilder.Build` yields for the given builder fields. */
  function BuiltRequest(action: Option<Action>, headers: Option<Headers>, body: Option<bytes>): (r: Result<Request, Error>)
    ensures r.Err? <==> action.None?
    ensures r.Err? ==> r.error == Plain(ActionRequired)
    ensures r.Ok? ==> r.value.action == action.value
    ensures r.Ok? ==> Normalised(r.value.headers, r.value.body)
    ensures r.Ok? && headers.Some? && |headers.value| > 0 ==> r.value.headers == headers
    ensures r.Ok? && body.Some? && |body.value| > 0 ==> r.value.body == body
    ensures r.Ok? && (headers.None? || |headers.value| == 0) ==> r.value.headers.None?
    ensures r.Ok? && (body.None? || |body.value| == 0) ==> r.value.body.None?
  {
    if action.None? then Err(Plain(ActionRequired))
    else Ok(Request(action.value, PresentHeaders(headers), PresentBody(body)))
  }

  class RequestBuilder {
    var action: Option<Action>
    var headers: Option<Headers>
    var body: Option<bytes>

    /** `NewRequestBuilder`: nothing is set. */
    constructor ()
      ensures action.None? && headers.None? && body.None?
    {
      action := None;
      headers := None;
      body := None;
    }

    method SetAction(value: Action) returns (self: RequestBuilder)
      modifies this
      ensures action == Some(value) && headers == old(headers) && body == old(body)
      ensures self == this
    {
      action := Some(value);
      self := this;
    }

    method SetHeaders(value: Headers) returns (self: RequestBuilder)
      modifies this
      ensures headers == Some(value) && action == old(action) && body == old(body)
      ensures self == this
    {
      headers := Some(value);
      self := this;
    }

    method SetBody(value: bytes) returns (self: RequestBuilder)
      modifies this
      ensures body == Some(value) && action == old(action) && headers == old(headers)
      ensures self == this
    {
      body := Some(value);
      self := this;
    }

    /** Builds from a copy of the fields, leaving the builder as it was. */
    method Build() returns (r: Result<Request, Error>)
      ensures r == BuiltRequest(action, headers, body)
    {
      var errs: seq<Error> := [];
      if action.None? {
        errs := errs + [Plain(ActionRequired)];
      }
      var headers := this.headers;
      if headers.Some? && |headers.value| == 0 {
        headers := None;
      }
      var body := this.body;
      if body.Some? && |body.value| == 0 {
        body := None;
      }
      if |errs| > 0 {
        return Err(errs[0]);
      }
      return Ok(Request(action.value, headers, body));
    }
  }

  /** What `ResponseBuilder.Build` yields for the given builder fields. */
  function BuiltResponse(status: Option<Status>, headers: Option<Headers>, body: Option<bytes>): (r: Result<Response, Error>)
    ensures r.Err? <==> status.None?
    ensures r.Err? ==> r.error == Plain(StatusRequired)
    ensures r.Ok? ==> r.value.status == status.value
    ensures r.Ok? ==> Normalised(r.value.headers, r.value.body)
    ensures r.Ok? && headers.Some? && |headers.value| > 0 ==> r.value.headers == headers
    ensures r.Ok? && body.Some? && |body.value| > 0 ==> r.value.body == body
    ensures r.Ok? && (headers.None? || |headers.value| == 0) ==> r.value.headers.None?
    ensures r.Ok? && (body.None? || |body.value| == 0) ==> r.value.body.None?
  {
    if status.None? then Err(Plain(StatusRequired))
    else Ok(Response(status.value, PresentHeaders(headers), PresentBody(body)))
  }

  class ResponseBuilder {
    var status: Option<Status>
    var headers: Option<Headers>
    var body: Option<bytes>

    /** `NewResponseBuilder`: nothing is set. */
    constructor ()
      ensures status.None? && headers.None? && body.None?
    {
      status := None;
      headers := None;
      body := None;
    }

    method SetStatus(value: Status) returns (self: ResponseBuilder)
      modifies this
      ensures status == Some(value) && headers == old(headers) && body == old(body)
      ensures self == this
    {
      status := Some(value);
      self := this;
    }

    method SetHeaders(value: Headers) returns (self: ResponseBuilder)
      modifies this
      ensures headers == Some(value) && status == old(status) && body == old(body)
      ensures self == this
    {
      headers := Some(value);
      self := this;
    }

    method SetBody(value: bytes) returns (self: ResponseBuilder)
      modifies this
      ensures body == Some(value) && status == old(status) && headers == old(headers)
      ensures self == this
    {
      body := Some(value);
      self := this;
    }

    /** Builds from a copy of the fields, leaving the builder as it was. */
    method Build() returns (r: Result<Response, Error>)
      ensures r == BuiltResponse(status, headers, body)
    {
      var errs: seq<Error> := [];
      if status.None? {
        errs := errs + [Plain(StatusRequired)];
      }
      var headers := this.headers;
      if headers.Some? && |headers.value| == 0 {
        headers := None;
      }
      var body := this.body;
      if body.Some? && |body.value| == 0 {
        body := None;
      }
      if |errs| > 0 {
        return Err(errs[0]);
      }
      return Ok(Response(status.value, headers, body));
    }
  }

  /** A request's action taken from a message's introduction; headers and
      body are copied as they are. */
  function NewRequestFromMessage(message: Message): (r: Result<Request, Error>)
    ensures r.Ok? <==> |message.introduction.ToBytes()| > 0
    ensures r.Err? ==> r.error == Wrap(ConstructAction, Plain(ActionEmpty))
    ensures r.Ok? ==> r.value.action.ToBytes() == message.introduction.ToBytes()
    ensures r.Ok? ==> r.value.headers == message.headers && r.value.body == message.body
  {
    match NewAction(message.introduction.ToBytes())
    case Err(e) => Err(Wrap(ConstructAction, e))
    case Ok(action) => Ok(Request(action, message.headers, message.body))
  }

  /** A response's status taken from a message's introduction; headers and
      body are copied as they are. */
  function NewResponseFromMessage(message: Message): (r: Result<Response, Error>)
    ensures r.Ok? <==> |message.introduction.ToBytes()| > 0
    ensures r.Err? ==> r.error == Wrap(ConstructStatus, Plain(StatusEmpty))
    ensures r.Ok? ==> r.value.status.ToBytes() == message.introduction.ToBytes()
    ensures r.Ok? ==> r.value.headers == message.headers && r.value.body == message.body
  {
    match NewStatus(message.introduction.ToBytes())
    case Err(e) => Err(Wrap(ConstructStatus, e))
    case Ok(status) => Ok(Response(status, message.headers, message.body))
  }

  /** What `Request.ToMessage` yields: it fails exactly on an empty action;
      otherwise the introduction is the action and headers and body pass
      through the message builder. */
  function RequestMessage(request: Request): (r: Result<Message, Error>)
    ensures r.Ok? <==> |request.action.ToBytes()| > 0
    ensures r.Err? ==> r.error == Wrap(ConstructIntroduction, Plain(IntroductionEmpty))
    ensures r.Ok? ==> r.value.introduction.ToBytes() == request.action.ToBytes()
    ensures r.Ok? ==> r.value.headers == PresentHeaders(request.headers) && r.value.body == PresentBody(request.body)
  {
    match NewIntroduction(request.action.ToBytes())
    case Err(e) => Err(Wrap(ConstructIntroduction, e))
    case Ok(introduction) =>
      match BuiltMessage(Some(introduction), request.headers, request.body)
      case Err(e) => Err(Wrap(BuildMessage, e))
      case Ok(m) => Ok(m)
  }

  /** What `Response.ToMessage` yields, with the status as introduction. */
  function ResponseMessage(response: Response): (r: Result<Message, Error>)
    ensures r.Ok? <==> |response.status.ToBytes()| > 0
    ensures r.Err? ==> r.error == Wrap(ConstructIntroduction, Plain(IntroductionEmpty))
    ensures r.Ok? ==> r.value.introduction.ToBytes() == response.status.ToBytes()
    ensures r.Ok? ==> r.value.headers == PresentHeaders(response.headers) && r.value.body == PresentBody(response.body)
  {
    match NewIntroduction(response.status.ToBytes())
    case Err(e) => Err(Wrap(ConstructIntroduction, e))
    case Ok(introduction) =>
      match BuiltMessage(Some(introduction), response.headers, response.body)
      case Err(e) => Err(Wrap(BuildMessage, e))
      case Ok(m) => Ok(m)
  }

  /** A request with a non-empty action whose present headers and body are
      non-empty survives the trip through a message. */
  lemma RequestRoundTrip(request: Request)
    requires |request.action.ToBytes()| > 0 && Normalised(request.headers, request.body)
    ensures RequestMessage(request).Ok?
    ensures NewRequestFromMessage(RequestMessage(request).value) == Ok(request)
  {
  }

  /** The same for a response. */
  lemma ResponseRoundTrip(response: Response)
    requires |response.status.ToBytes()| > 0 && Normalised(response.headers, response.body)
    ensures ResponseMessage(response).Ok?
    ensures NewResponseFromMessage(ResponseMessage(response).value) == Ok(response)
  {
  }

  /** A message with a non-empty introduction whose headers and body are
      normalised survives the trip through a request, and through a
      response. */
  lemma MessageRoundTrip(message: Message)
    requires |message.introduction.ToBytes()| > 0 && Normalised(message.headers, message.body)
    ensures NewRequestFromMessage(message).Ok? && RequestMessage(NewRequestFromMessage(message).value) == Ok(message)
    ensures NewResponseFromMessage(message).Ok? && ResponseMessage(NewResponseFromMessage(message).value) == Ok(message)
  {
  }
}
