/** `TCPClient`: sends one request over a connection and reads one response
    back through a scanner shared by all the requests of the client. */
module TcpClient {
  import opened Wrappers
  import opened Bytes
  import opened Errors
  import opened Network

  /** `TCPClientOptions`, with the protocol's two operations the client
      calls. */
  datatype Options<!Req, !Resp> = Options(
    readTimeout: Option<nat>,
    writeTimeout: Option<nat>,
    marshalRequest: Req -> Result<bytes, Error>,
    parseResponse: bytes -> Result<Resp, Error>)

  /** What one exchange does: the calls made on the connection, how many
      tokens it took from the scanner, and its result. */
  datatype Exchange<Resp> = Exchange(events: seq<Event>, consumed: nat, result: Result<Resp, Error>)

  /** The calls of an exchange that runs to the end, for the marshalled
      request `data`: the write deadline when a write timeout is set, the
      write, then the read deadline when a read timeout is set. */
  function AllSteps<Req, Resp>(options: Options<Req, Resp>, data: bytes): (r: seq<Event>)
    ensures |r| >= 1
  {
    (if options.writeTimeout.Some? then [WriteDeadlineSet(options.writeTimeout.value)] else [])
    + [Written(data)]
    + (if options.readTimeout.Some? then [ReadDeadlineSet(options.readTimeout.value)] else [])
  }

  /** What `SendRequest` does, given how the connection answers and what
      the scanner yields next. */
  function Send<Req, Resp>(options: Options<Req, Resp>, faults: Faults, scan: ScanResult, request: Req): (r: Exchange<Resp>)
    ensures options.marshalRequest(request).Err? ==> r.events == []
    ensures options.marshalRequest(request).Ok? ==>
              var steps := AllSteps(options, options.marshalRequest(request).value);
              |r.events| <= |steps| && r.events == steps[..|r.events|]
    ensures r.consumed <= 1 && (r.result.Ok? ==> r.consumed == 1 && scan.Scanned?)
  {
    match options.marshalRequest(request)
    case Err(e) => Exchange([], 0, Err(Wrap(MarshalRequest, e)))
    case Ok(data) =>
      var steps := AllSteps(options, data);
      var w := if options.writeTimeout.Some? then 1 else 0;
      if options.writeTimeout.Some? && faults.setWriteDeadline.Some? then
        Exchange(steps[..w], 0, Err(Wrap(SetWriteDeadline, faults.setWriteDeadline.value)))
      else if faults.write.Some? then
        Exchange(steps[..w + 1], 0, Err(Wrap(WriteRequest, faults.write.value)))
      else if options.readTimeout.Some? && faults.setReadDeadline.Some? then
        Exchange(steps, 0, Err(Wrap(SetReadDeadline, faults.setReadDeadline.value)))
      else
        match scan
        case Exhausted(failure) =>
          if failure.Some? then Exchange(steps, 0, Err(Wrap(ReadResponse, failure.value)))
          else Exchange(steps, 0, Err(Joined(Plain(NoMoreTokens), StopRequired)))
        case Scanned(token) =>
          match options.parseResponse(token)
          case Err(e) => Exchange(steps, 1, Err(Wrap(ParseResponse, e)))
          case Ok(response) => Exchange(steps, 1, Ok(response))
  }

  class TCPClient<Req, Resp> {
    const options: Options<Req, Resp>
    const connection: Connection
    const scanner: Scanner

    /** `NewTCPClientFromConnection`: holds the connection, the options and
        a scanner. The scanner is given as a parameter; nothing here ties it
        to the connection's input or to the protocol's `ExtractToken`
        (`Network.Scanner.FromInput` builds one that is). */
    constructor FromConnection(connection: Connection, scanner: Scanner, options: Options<Req, Resp>)
      ensures this.connection == connection && this.scanner == scanner && this.options == options
    {
      this.connection := connection;
      this.scanner := scanner;
      this.options := options;
    }

    /** `SendRequest`: marshal, write, read one token, parse. A failed
        exchange is reported as an error in place of the zero response. */
    method SendRequest(request: Req) returns (r: Result<Resp, Error>)
      modifies connection, scanner
      ensures var x := Send(options, connection.faults, Next(old(scanner.pending), scanner.failure), request);
              connection.log == old(connection.log) + x.events
              && scanner.pending == old(scanner.pending)[x.consumed..]
              && r == x.result
    {
      var marshalled := options.marshalRequest(request);
      if marshalled.Err? {
        return Err(Wrap(MarshalRequest, marshalled.error));
      }
      if options.writeTimeout.Some? {
        var e := connection.SetWriteDeadline(options.writeTimeout.value);
        if e.Some? {
          return Err(Wrap(SetWriteDeadline, e.value));
        }
      }
      var e := connection.Write(marshalled.value);
      if e.Some? {
        return Err(Wrap(WriteRequest, e.value));
      }
      if options.readTimeout.Some? {
        var e := connection.SetReadDeadline(options.readTimeout.value);
        if e.Some? {
          return Err(Wrap(SetReadDeadline, e.value));
        }
      }
      var scan := scanner.Scan();
      if scan.Exhausted? {
        if scan.err.Some? {
          return Err(Wrap(ReadResponse, scan.err.value));
        }
        return Err(Joined(Plain(NoMoreTokens), StopRequired));
      }
      var response := options.parseResponse(scan.token);
      if response.Err? {
        return Err(Wrap(ParseResponse, response.error));
      }
      return Ok(response.value);
    }

    /** `Close`: an error exactly when closing the connection fails. */
    method Close() returns (err: Option<Error>)
      modifies connection
      ensures connection.log == old(connection.log) + [Closed]
      ensures err.Some? <==> connection.faults.close.Some?
      ensures err.Some? ==> err.value == Wrap(CloseConnection, connection.faults.close.value)
    {
      var e := connection.Close();
      if e.Some? {
        return Some(Wrap(CloseConnection, e.value));
      }
      return None;
    }
  }

  /** A request that cannot be marshalled touches neither the connection
      nor the scanner. */
  lemma MarshalFailureSendsNothing<Req, Resp>(options: Options<Req, Resp>, faults: Faults, scan: ScanResult, request: Req)
    requires options.marshalRequest(request).Err?
    ensures Send(options, faults, scan, request)
            == Exchange([], 0, Err(Wrap(MarshalRequest, options.marshalRequest(request).error)))
  {
  }

  /** A failed write deadline or write ends the exchange before any read:
      no read deadline is set and no token is taken. */
  lemma WriteFailureReadsNothing<Req, Resp>(options: Options<Req, Resp>, faults: Faults, scan: ScanResult, request: Req)
    requires options.marshalRequest(request).Ok?
    requires (options.writeTimeout.Some? && faults.setWriteDeadline.Some?) || faults.write.Some?
    ensures var x := Send(options, faults, scan, request);
            x.consumed == 0 && x.result.Err?
            && (forall i :: 0 <= i < |x.events| ==> !x.events[i].ReadDeadlineSet?)
            && (options.writeTimeout.Some? && faults.setWriteDeadline.Some? ==>
                  forall i :: 0 <= i < |x.events| ==> !x.events[i].Written?)
  {
    var data := options.marshalRequest(request).value;
    var x := Send(options, faults, scan, request);
    var w := if options.writeTimeout.Some? then 1 else 0;
    assert |x.events| <= w + 1;
    assert forall i :: 0 <= i < |x.events| ==> x.events[i] == AllSteps(options, data)[i];
  }

  /** The read deadline is set only after the request was written, and
      only when a read timeout is set. */
  lemma ReadDeadlineAfterWrite<Req, Resp>(options: Options<Req, Resp>, faults: Faults, scan: ScanResult, request: Req, i: nat)
    requires var x := Send(options, faults, scan, request);
             i < |x.events| && x.events[i].ReadDeadlineSet?
    ensures options.readTimeout == Some(Send(options, faults, scan, request).events[i].timeout)
    ensures faults.write.None? && 0 < i && Send(options, faults, scan, request).events[i - 1].Written?
  {
    var data := options.marshalRequest(request).value;
    var steps := AllSteps(options, data);
    var w := if options.writeTimeout.Some? then 1 else 0;
    assert steps[w] == Written(data);
    assert options.readTimeout.Some? ==> steps[w + 1] == ReadDeadlineSet(options.readTimeout.value);
  }

  /** When the stream ends without a response the exchange fails with an
      error that asks the caller to stop. */
  lemma EndOfStreamAsksToStop<Req, Resp>(options: Options<Req, Resp>, faults: Faults, request: Req)
    requires options.marshalRequest(request).Ok?
    requires faults.setWriteDeadline.None? && faults.write.None? && faults.setReadDeadline.None?
    ensures var x := Send(options, faults, Exhausted(None), request);
            x.result.Err? && IsStop(x.result.error) && x.consumed == 0
            && x.events == AllSteps(options, options.marshalRequest(request).value)
  {
  }

  /** A read error is reported as such, and is not a stop request unless
      the error itself is one. */
  lemma ReadFailureReported<Req, Resp>(options: Options<Req, Resp>, faults: Faults, e: Error, request: Req)
    requires options.marshalRequest(request).Ok?
    requires faults.setWriteDeadline.None? && faults.write.None? && faults.setReadDeadline.None?
    ensures var x := Send(options, faults, Exhausted(Some(e)), request);
            x.result == Err(Wrap(ReadResponse, e)) && (IsStop(x.result.error) <==> IsStop(e))
  {
  }

  /** Once the request is written and a token read, the result is exactly
      what the protocol parses from that token, an error wrapped. */
  lemma ResponseIsParsedToken<Req, Resp>(options: Options<Req, Resp>, faults: Faults, token: bytes, request: Req)
    requires options.marshalRequest(request).Ok?
    requires faults.setWriteDeadline.None? && faults.write.None? && faults.setReadDeadline.None?
    ensures var x := Send(options, faults, Scanned(token), request);
            x.consumed == 1
            && x.events == AllSteps(options, options.marshalRequest(request).value)
            && (options.parseResponse(token).Ok? ==> x.result == Ok(options.parseResponse(token).value))
            && (options.parseResponse(token).Err? ==> x.result == Err(Wrap(ParseResponse, options.parseResponse(token).error)))
  {
  }
}
