/** `DefaultConnectionHandler`: reads requests off a connection one token
    at a time, hands each to the request handler and writes the response
    back, until the stream ends, a handler asks to stop, the context is
    done or something fails. */
module ConnectionHandling {
  import opened Wrappers
  import opened Bytes
  import opened Errors
  import opened Network
  import opened Server

  /** What a pass ends with: the calls made on the connection, how many
      tokens were taken from the scanner, and the error returned. */
  datatype Outcome = Outcome(events: seq<Event>, consumed: nat, err: Option<Error>)

  /** The number of writes among the calls. */
  function Writes(events: seq<Event>): (n: nat)
    ensures n <= |events|
    ensures n == 0 <==> forall i :: 0 <= i < |events| ==> !events[i].Written?
  {
    if events == [] then 0
    else (if events[0].Written? then 1 else 0) + Writes(events[1..])
  }

  lemma {:induction false} WritesAppend(a: seq<Event>, b: seq<Event>)
    ensures Writes(a + b) == Writes(a) + Writes(b)
    decreases |a|
  {
    if a != [] {
      assert a + b != [] && (a + b)[0] == a[0];
      assert (a + b)[1..] == a[1..] + b;
      WritesAppend(a[1..], b);
    } else {
      assert a + b == b;
    }
  }

  /** Regrouping the calls of the passes made so far, of this pass and of
      the passes still to come; kept apart so that the connection loop's
      proof does not search for it. */
  lemma Regroup(a: seq<Event>, b: seq<Event>, c: seq<Event>)
    ensures a + (b + c) == (a + b) + c
  {
  }

  datatype DefaultConnectionHandler<!Req, !Resp> = DefaultConnectionHandler(
    readTimeout: Option<nat>,
    writeTimeout: Option<nat>,
    handlingTimeout: Option<nat>,
    parseRequest: bytes -> Result<Req, Error>,
    marshalResponse: Resp -> Result<bytes, Error>,
    requestHandler: RequestHandler<Req, Resp>)
  {
    /** The read deadline call, made only when a read timeout is set. */
    function ReadSteps(): (r: seq<Event>)
      ensures |r| <= 1 && Writes(r) == 0
      ensures r != [] <==> readTimeout.Some?
      ensures r != [] ==> r[0] == ReadDeadlineSet(readTimeout.value)
    {
      if readTimeout.Some? then [ReadDeadlineSet(readTimeout.value)] else []
    }

    /** The write deadline call, made only when a write timeout is set. */
    function WriteSteps(): (r: seq<Event>)
      ensures |r| <= 1 && Writes(r) == 0
      ensures r != [] <==> writeTimeout.Some?
      ensures r != [] ==> r[0] == WriteDeadlineSet(writeTimeout.value)
    {
      if writeTimeout.Some? then [WriteDeadlineSet(writeTimeout.value)] else []
    }

    predicate ReadDeadlineFails(faults: Faults) {
      readTimeout.Some? && faults.setReadDeadline.Some?
    }

    /** The context the request handler runs in: detached from the
        parent's cancellation, with the handling timeout if one is set. */
    function HandlingContext(parent: Context): (r: Context)
      ensures r.doneAt.None? && r.timeout == handlingTimeout
    {
      var detached := WithoutCancel(parent);
      if handlingTimeout.Some? then WithTimeout(detached, handlingTimeout.value) else detached
    }

    /** What happens once the handler has answered: marshal the response,
        set the write deadline, write; a stop request is reported after
        the write. */
    function Reply(faults: Faults, response: Resp, handlingErr: Option<Error>): Outcome {
      match marshalResponse(response)
      case Err(e) => Outcome([], 0, Some(Wrap(Kind.MarshalResponse, e)))
      case Ok(data) =>
        if writeTimeout.Some? && faults.setWriteDeadline.Some? then
          Outcome(WriteSteps(), 0, Some(Wrap(SetWriteDeadline, faults.setWriteDeadline.value)))
        else if faults.write.Some? then
          Outcome(WriteSteps() + [Written(data)], 0, Some(Wrap(WriteResponse, faults.write.value)))
        else if handlingErr.Some? then
          Outcome(WriteSteps() + [Written(data)], 0, Some(Wrap(StopRequested, handlingErr.value)))
        else
          Outcome(WriteSteps() + [Written(data)], 0, None)
    }

    /** What one call of `HandleRequest` does, given how the connection
        answers and what the scanner yields. A handler error that is not
        the stop sentinel is reported without the handler's error in the
        chain: the source wraps a variable that is nil at that point. */
    function Cycle(ctx: Context, faults: Faults, scan: ScanResult): (r: Outcome)
      ensures r.consumed == if scan.Scanned? && !ReadDeadlineFails(faults) then 1 else 0
      ensures r.err.None? ==> scan.Scanned? && r.consumed == 1
    {
      if ReadDeadlineFails(faults) then
        Outcome(ReadSteps(), 0, Some(Wrap(SetReadDeadline, faults.setReadDeadline.value)))
      else
        match scan
        case Exhausted(failure) =>
          if failure.Some? then Outcome(ReadSteps(), 0, Some(Wrap(ReadRequest, failure.value)))
          else Outcome(ReadSteps(), 0, Some(Joined(Plain(NoMoreTokens), StopRequired)))
        case Scanned(token) =>
          match parseRequest(token)
          case Err(e) => Outcome(ReadSteps(), 1, Some(Wrap(Kind.ParseRequest, e)))
          case Ok(request) =>
            var (response, handlingErr) := requestHandler(HandlingContext(ctx), request);
            if handlingErr.Some? && !IsStop(handlingErr.value) then
              Outcome(ReadSteps(), 1, Some(Plain(Kind.HandleRequest)))
            else
              var reply := Reply(faults, response, handlingErr);
              Outcome(ReadSteps() + reply.events, 1, reply.err)
    }

    /** `HandleRequest`: one request read, handled and answered. */
    method HandleRequest(ctx: Context, connection: Connection, scanner: Scanner) returns (err: Option<Error>)
      modifies connection, scanner
      ensures var c := Cycle(ctx, connection.faults, Next(old(scanner.pending), scanner.failure));
              connection.log == old(connection.log) + c.events
              && scanner.pending == old(scanner.pending)[c.consumed..]
              && err == c.err
    {
      if readTimeout.Some? {
        var e := connection.SetReadDeadline(readTimeout.value);
        if e.Some? {
          return Some(Wrap(SetReadDeadline, e.value));
        }
      }
      var scan := scanner.Scan();
      if scan.Exhausted? {
        if scan.err.Some? {
          return Some(Wrap(ReadRequest, scan.err.value));
        }
        return Some(Joined(Plain(NoMoreTokens), StopRequired));
      }
      var request := parseRequest(scan.token);
      if request.Err? {
        return Some(Wrap(Kind.ParseRequest, request.error));
      }
      var (response, handlingErr) := requestHandler(HandlingContext(ctx), request.value);
      if handlingErr.Some? && !IsStop(handlingErr.value) {
        return Some(Plain(Kind.HandleRequest));
      }
      var marshalled := marshalResponse(response);
      if marshalled.Err? {
        return Some(Wrap(Kind.MarshalResponse, marshalled.error));
      }
      if writeTimeout.Some? {
        var e := connection.SetWriteDeadline(writeTimeout.value);
        if e.Some? {
          return Some(Wrap(SetWriteDeadline, e.value));
        }
      }
      var e := connection.Write(marshalled.value);
      if e.Some? {
        return Some(Wrap(WriteResponse, e.value));
      }
      if handlingErr.Some? {
        return Some(Wrap(StopRequested, handlingErr.value));
      }
      return None;
    }

    /** What `HandleConnection` does from the given pass of its loop on:
        stop with an error once the context is done; otherwise handle a
        request, go on after a success, end quietly after a stop request
        and with an error after any other failure. */
    function Run(ctx: Context, faults: Faults, pending: seq<bytes>, failure: Option<Error>, iteration: nat): (r: Outcome)
      ensures r.consumed <= |pending|
      decreases |pending|
    {
      if ctx.doneAt.Some? && ctx.doneAt.value <= iteration then
        Outcome([], 0, Some(Wrap(ContextDone, ContextError())))
      else
        var cycle := Cycle(ctx, faults, Next(pending, failure));
        match cycle.err
        case Some(e) =>
          Outcome(cycle.events, cycle.consumed, if IsStop(e) then None else Some(Wrap(Kind.HandleConnection, e)))
        case None =>
          var rest := Run(ctx, faults, pending[1..], failure, iteration + 1);
          Outcome(cycle.events + rest.events, 1 + rest.consumed, rest.err)
    }

    /** A pass that ends without an error has served the first token, and
        the loop goes on with the rest. */
    lemma RunContinues(ctx: Context, faults: Faults, pending: seq<bytes>, failure: Option<Error>, iteration: nat)
      requires ctx.doneAt.None? || iteration < ctx.doneAt.value
      requires Cycle(ctx, faults, Next(pending, failure)).err.None?
      ensures |pending| > 0
      ensures var cycle := Cycle(ctx, faults, Next(pending, failure));
              var rest := Run(ctx, faults, pending[1..], failure, iteration + 1);
              Run(ctx, faults, pending, failure, iteration) == Outcome(cycle.events + rest.events, 1 + rest.consumed, rest.err)
    {
    }

    /** `HandleConnection`: the loop over requests. */
    method HandleConnection(ctx: Context, connection: Connection, scanner: Scanner) returns (err: Option<Error>)
      modifies connection, scanner
      ensures var run := Run(ctx, connection.faults, old(scanner.pending), scanner.failure, 0);
              connection.log == old(connection.log) + run.events
              && scanner.pending == old(scanner.pending)[run.consumed..]
              && err == run.err
    {
      ghost var start := scanner.pending;
      ghost var run := Run(ctx, connection.faults, start, scanner.failure, 0);
      ghost var rest := run;
      ghost var served: nat := 0;
      var iteration := 0;
      while true
        invariant served <= |start| && scanner.pending == start[served..]
        invariant rest == Run(ctx, connection.faults, scanner.pending, scanner.failure, iteration)
        invariant old(connection.log) + run.events == connection.log + rest.events
        invariant run.consumed == served + rest.consumed && run.err == rest.err
        decreases |scanner.pending|
      {
        if ctx.doneAt.Some? && ctx.doneAt.value <= iteration {
          return Some(Wrap(ContextDone, ContextError()));
        }
        ghost var log := connection.log;
        ghost var pending := scanner.pending;
        var e := HandleRequest(ctx, connection, scanner);
        if e.Some? {
          if IsStop(e.value) {
            break;
          }
          return Some(Wrap(Kind.HandleConnection, e.value));
        }
        ghost var cycle := Cycle(ctx, connection.faults, Next(pending, scanner.failure));
        RunContinues(ctx, connection.faults, pending, scanner.failure, iteration);
        iteration := iteration + 1;
        ghost var previous := rest;
        rest := Run(ctx, connection.faults, scanner.pending, scanner.failure, iteration);
        served := served + 1;
        assert start[served..] == pending[1..];
        assert previous.events == cycle.events + rest.events;
        Regroup(log, cycle.events, rest.events);
      }
      return None;
    }

    // Properties of one pass

    /** The calls of one pass, in order: the read deadline when a read
        timeout is set, then possibly the write deadline when a write
        timeout is set, then possibly a single write. */
    predicate InOrder(events: seq<Event>) {
      events == ReadSteps()
      || events == ReadSteps() + WriteSteps()
      || (|events| > 0 && events[|events| - 1].Written?
          && events == ReadSteps() + WriteSteps() + [events[|events| - 1]])
    }

    /** Deadlines are set only when their timeout is set, the read deadline
        first and the write deadline before the write; at most one response
        is written per pass. */
    lemma DeadlinesOnlyWhenConfigured(ctx: Context, faults: Faults, scan: ScanResult)
      ensures InOrder(Cycle(ctx, faults, scan).events)
      ensures Writes(Cycle(ctx, faults, scan).events) <= 1
    {
      if !ReadDeadlineFails(faults) && scan.Scanned? && parseRequest(scan.token).Ok? {
        var (response, handlingErr) := requestHandler(HandlingContext(ctx), parseRequest(scan.token).value);
        if !(handlingErr.Some? && !IsStop(handlingErr.value)) {
          ReplyInOrder(faults, response, handlingErr);
        }
      }
    }

    lemma ReplyInOrder(faults: Faults, response: Resp, handlingErr: Option<Error>)
      ensures InOrder(ReadSteps() + Reply(faults, response, handlingErr).events)
      ensures Writes(ReadSteps() + Reply(faults, response, handlingErr).events) <= 1
    {
      var events := Reply(faults, response, handlingErr).events;
      WritesAppend(ReadSteps(), events);
      if marshalResponse(response).Ok? && events != WriteSteps() {
        var data := marshalResponse(response).value;
        assert events == WriteSteps() + [Written(data)];
        WritesAppend(WriteSteps(), [Written(data)]);
        assert ReadSteps() + events == ReadSteps() + WriteSteps() + [Written(data)];
      } else if events == [] {
        assert ReadSteps() + events == ReadSteps();
      }
    }

    /** At the clean end of the stream the pass asks to stop and writes
        nothing, and the connection loop then ends without an error. */
    lemma EndOfStreamStops(ctx: Context, faults: Faults, iteration: nat)
      requires !ReadDeadlineFails(faults)
      requires ctx.doneAt.None? || iteration < ctx.doneAt.value
      ensures var c := Cycle(ctx, faults, Exhausted(None));
              c.err.Some? && IsStop(c.err.value) && Writes(c.events) == 0
      ensures Run(ctx, faults, [], None, iteration) == Outcome(ReadSteps(), 0, None)
    {
    }

    /** A scanner error ends the connection with that error; nothing is
        handled or written. */
    lemma ReadFailureIsFatal(ctx: Context, faults: Faults, e: Error, iteration: nat)
      requires !ReadDeadlineFails(faults) && !IsStop(e)
      requires ctx.doneAt.None? || iteration < ctx.doneAt.value
      ensures Run(ctx, faults, [], Some(e), iteration)
              == Outcome(ReadSteps(), 0, Some(Wrap(Kind.HandleConnection, Wrap(ReadRequest, e))))
    {
    }

    /** A failed read deadline ends the pass before anything is read: no
        token is taken, nothing is written, and the connection loop ends
        with that error. */
    lemma ReadDeadlineFailureIsFatal(ctx: Context, faults: Faults, pending: seq<bytes>, failure: Option<Error>, iteration: nat)
      requires ReadDeadlineFails(faults) && !IsStop(faults.setReadDeadline.value)
      requires ctx.doneAt.None? || iteration < ctx.doneAt.value
      ensures var c := Cycle(ctx, faults, Next(pending, failure));
              c == Outcome(ReadSteps(), 0, Some(Wrap(SetReadDeadline, faults.setReadDeadline.value)))
              && Writes(c.events) == 0 && !IsStop(c.err.value)
      ensures Run(ctx, faults, pending, failure, iteration)
              == Outcome(ReadSteps(), 0, Some(Wrap(Kind.HandleConnection, Wrap(SetReadDeadline, faults.setReadDeadline.value))))
    {
    }

    /** A failed write deadline means no response is ever written: every
        pass ends with an error and without a write; a response that was
        ready ends the pass with the deadline's error. */
    lemma WriteDeadlineFailureWritesNothing(ctx: Context, faults: Faults, scan: ScanResult)
      requires writeTimeout.Some? && faults.setWriteDeadline.Some?
      ensures var c := Cycle(ctx, faults, scan);
              c.err.Some? && forall i :: 0 <= i < |c.events| ==> !c.events[i].Written?
      ensures !ReadDeadlineFails(faults) && scan.Scanned? && Serves(ctx, scan.token) ==>
                Cycle(ctx, faults, scan)
                == Outcome(ReadSteps() + WriteSteps(), 1, Some(Wrap(SetWriteDeadline, faults.setWriteDeadline.value)))
    {
    }

    /** A request that does not parse ends the connection; the handler is
        not consulted and nothing is written. */
    lemma ParseFailureIsFatal(ctx: Context, faults: Faults, token: bytes)
      requires !ReadDeadlineFails(faults) && parseRequest(token).Err? && !IsStop(parseRequest(token).error)
      ensures Cycle(ctx, faults, Scanned(token)) == Outcome(ReadSteps(), 1, Some(Wrap(Kind.ParseRequest, parseRequest(token).error)))
      ensures !IsStop(Cycle(ctx, faults, Scanned(token)).err.value)
    {
    }

    /** A handler error other than the stop sentinel ends the connection
        before anything is marshalled or written, and the error returned
        does not carry the handler's error. */
    lemma HandlerFailureIsFatal(ctx: Context, faults: Faults, token: bytes)
      requires !ReadDeadlineFails(faults) && parseRequest(token).Ok?
      requires var (_, handlingErr) := requestHandler(HandlingContext(ctx), parseRequest(token).value);
               handlingErr.Some? && !IsStop(handlingErr.value)
      ensures var c := Cycle(ctx, faults, Scanned(token));
              c == Outcome(ReadSteps(), 1, Some(Plain(Kind.HandleRequest)))
              && !IsStop(c.err.value) && c.err.value.cause.None?
    {
    }

    /** A response that cannot be marshalled is never written, and no write
        deadline is set for it. */
    lemma MarshalFailureWritesNothing(ctx: Context, faults: Faults, token: bytes)
      requires !ReadDeadlineFails(faults) && parseRequest(token).Ok?
      requires var (response, handlingErr) := requestHandler(HandlingContext(ctx), parseRequest(token).value);
               !(handlingErr.Some? && !IsStop(handlingErr.value)) && marshalResponse(response).Err?
      ensures var c := Cycle(ctx, faults, Scanned(token));
              c.events == ReadSteps() && c.err.Some? && c.err.value.kind == Kind.MarshalResponse
    {
    }

    /** A handler that asks to stop, even through a wrapped error, still
        gets its response written, once; the connection then ends without
        an error. */
    lemma StopRequestReplies(ctx: Context, faults: Faults, pending: seq<bytes>, failure: Option<Error>, iteration: nat)
      requires faults.setReadDeadline.None? && faults.setWriteDeadline.None? && faults.write.None?
      requires ctx.doneAt.None? || iteration < ctx.doneAt.value
      requires |pending| > 0 && parseRequest(pending[0]).Ok?
      requires var (response, handlingErr) := requestHandler(HandlingContext(ctx), parseRequest(pending[0]).value);
               handlingErr.Some? && IsStop(handlingErr.value) && marshalResponse(response).Ok?
      ensures var response := requestHandler(HandlingContext(ctx), parseRequest(pending[0]).value).0;
              var run := Run(ctx, faults, pending, failure, iteration);
              run == Outcome(ReadSteps() + WriteSteps() + [Written(marshalResponse(response).value)], 1, None)
              && Writes(run.events) == 1
    {
      var response := requestHandler(HandlingContext(ctx), parseRequest(pending[0]).value).0;
      var data := marshalResponse(response).value;
      WritesAppend(ReadSteps() + WriteSteps(), [Written(data)]);
      WritesAppend(ReadSteps(), WriteSteps());
      assert ReadSteps() + (WriteSteps() + [Written(data)]) == ReadSteps() + WriteSteps() + [Written(data)];
    }

    /** Once the context is done, the loop returns before reading. */
    lemma CancelledBeforeReading(ctx: Context, faults: Faults, pending: seq<bytes>, failure: Option<Error>, iteration: nat)
      requires ctx.doneAt.Some? && ctx.doneAt.value <= iteration
      ensures Run(ctx, faults, pending, failure, iteration) == Outcome([], 0, Some(Wrap(ContextDone, ContextError())))
    {
    }

    /** A request handled without an error: the response is written and
        the pass ends without an error. */
    predicate Serves(ctx: Context, token: bytes) {
      parseRequest(token).Ok?
      && var (response, handlingErr) := requestHandler(HandlingContext(ctx), parseRequest(token).value);
         handlingErr.None? && marshalResponse(response).Ok?
    }

    /** On a connection that never fails and a context that is never done,
        every request is answered with exactly one write, and at the clean
        end of the stream the loop ends without an error. */
    lemma {:induction false} ServesEveryRequest(ctx: Context, pending: seq<bytes>, iteration: nat)
      requires ctx.doneAt.None?
      requires forall i :: 0 <= i < |pending| ==> Serves(ctx, pending[i])
      ensures var run := Run(ctx, NO_FAULTS, pending, None, iteration);
              run.err.None? && run.consumed == |pending|
              && Writes(run.events) == |pending|
      decreases |pending|
    {
      if pending == [] {
        EndOfStreamStops(ctx, NO_FAULTS, iteration);
      } else {
        var cycle := Cycle(ctx, NO_FAULTS, Next(pending, None));
        var response := requestHandler(HandlingContext(ctx), parseRequest(pending[0]).value).0;
        var data := marshalResponse(response).value;
        assert cycle.events == ReadSteps() + (WriteSteps() + [Written(data)]);
        WritesAppend(WriteSteps(), [Written(data)]);
        WritesAppend(ReadSteps(), WriteSteps() + [Written(data)]);
        ServesEveryRequest(ctx, pending[1..], iteration + 1);
        var rest := Run(ctx, NO_FAULTS, pending[1..], None, iteration + 1);
        WritesAppend(cycle.events, rest.events);
      }
    }
  }
}
